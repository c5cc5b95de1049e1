/** The text rendering of a board (src/engine.rs, Board::render and the
    Display implementation): a column header, a rule, then one line per row
    with a glyph per cell. */
module Render {
  import opened Grid
  import opened State
  import Adjacency
  import opened Wrappers

  /** What a player may know about one cell. */
  datatype View = Hidden | Flag | MineShown | Count(n: nat)

  /** The view of a cell: a mine shows when it is revealed or when every mine
      is to be shown; a revealed safe cell shows its count; a hidden cell
      shows its flag. */
  function ViewOf(c: Cell, showAll: bool): View
  {
    if c.isMine && (showAll || c.revealed) then MineShown
    else if c.revealed then Count(c.adjacent as nat)
    else if c.flagged then Flag
    else Hidden
  }

  /** char::from_digit(n, 10).unwrap_or('?'). */
  function DigitChar(n: nat): (ch: char)
    ensures n < 10 <==> '0' <= ch <= '9'
    ensures n < 10 ==> ch as int - '0' as int == n
    ensures n >= 10 ==> ch == '?'
  {
    if n < 10 then ('0' as int + n) as char else '?'
  }

  /** The one-character glyph of a cell. */
  function Glyph(c: Cell, showAll: bool): char
  {
    if showAll && c.isMine then '*'
    else if c.revealed then
      if c.isMine then '*'
      else if c.adjacent == 0 then ' '
      else DigitChar(c.adjacent as nat)
    else if c.flagged then 'F'
    else '.'
  }

  /** The glyph rule stated against the view: '*' for a shown mine, 'F' for
      a flag, '.' for a plain hidden cell, ' ' for a count of zero, the digit
      for a count from one to nine and '?' for a larger count. */
  lemma GlyphRule(c: Cell, showAll: bool)
    ensures var g, v := Glyph(c, showAll), ViewOf(c, showAll);
      && (g == '*' <==> v == MineShown)
      && (g == 'F' <==> v == Flag)
      && (g == '.' <==> v == Hidden)
      && (g == ' ' <==> v == Count(0))
      && (g == '?' <==> v.Count? && v.n >= 10)
      && (forall n :: 1 <= n < 10 ==> (g == DigitChar(n) <==> v == Count(n)))
  {
  }

  /** Reading a glyph back: the inverse of Glyph on counts below ten. */
  function ParseGlyph(ch: char): (v: Option<View>)
    ensures v.Some? <==> ch in {'*', ' ', 'F', '.'} || '1' <= ch <= '9'
  {
    if ch == '*' then Some(MineShown)
    else if ch == ' ' then Some(Count(0))
    else if ch == 'F' then Some(Flag)
    else if ch == '.' then Some(Hidden)
    else if '1' <= ch <= '9' then Some(Count(ch as int - '0' as int))
    else None
  }

  /** The glyph determines the view: parsing a rendered cell gives back what
      the player may know about it, as long as its count is a single digit. */
  lemma GlyphRoundTrip(c: Cell, showAll: bool)
    requires c.revealed && !c.isMine ==> c.adjacent < 10
    ensures ParseGlyph(Glyph(c, showAll)) == Some(ViewOf(c, showAll))
  {
    if !(c.isMine && (showAll || c.revealed)) && c.revealed && c.adjacent != 0 {
      var ch := DigitChar(c.adjacent as nat);
      assert '1' <= ch <= '9';
    }
  }

  /** On a valid board the normal rendering never shows a mine and never
      falls back to '?': mines are never revealed and counts are at most 8. */
  lemma GlyphOnValidBoard(b: Board, i: nat)
    requires Valid(b) && i < |b.cells|
    ensures !b.cells[i].isMine ==> b.cells[i].adjacent <= 8
    ensures ParseGlyph(Glyph(b.cells[i], false)) == Some(ViewOf(b.cells[i], false))
    ensures ViewOf(b.cells[i], false) != MineShown
    ensures Glyph(b.cells[i], false) != '*' && Glyph(b.cells[i], false) != '?'
  {
    var w := b.width;
    if b.cells[i].isMine {
      assert !b.cells[i].revealed;
    } else if b.initialized {
      Adjacency.NeighborCountIsMineNeighbors(w, b.height, b.cells, Col(w, i), Row(w, i));
    }
    GlyphRoundTrip(b.cells[i], false);
  }

  /** The decimal digits of n, most significant first, as format! writes a
      usize. */
  function Decimal(n: nat): (s: string)
    ensures 1 <= |s|
    ensures forall k :: 0 <= k < |s| ==> '0' <= s[k] <= '9'
  {
    if n < 10 then [DigitChar(n)] else Decimal(n / 10) + [DigitChar(n % 10)]
  }

  /** The value of a string of decimal digits. */
  function DecimalValue(s: string): nat
    requires forall k :: 0 <= k < |s| ==> '0' <= s[k] <= '9'
  {
    if |s| == 0 then 0
    else 10 * DecimalValue(s[..|s| - 1]) + (s[|s| - 1] as int - '0' as int)
  }

  /** Reading the printed digits back gives the number printed. */
  lemma {:induction false} DecimalRoundTrip(n: nat)
    ensures DecimalValue(Decimal(n)) == n
  {
    if n >= 10 {
      DecimalRoundTrip(n / 10);
      var s := Decimal(n);
      assert s[..|s| - 1] == Decimal(n / 10);
    }
  }

  /** `{:>2}`: right-aligned in a field two characters wide; longer labels
      are written whole. */
  function Pad2(s: string): (r: string)
    ensures |r| == if |s| < 2 then 2 else |s|
    ensures r[|r| - |s|..] == s
    ensures forall k :: 0 <= k < |r| - |s| ==> r[k] == ' '
  {
    if |s| < 2 then seq(2 - |s|, _ => ' ') + s else s
  }

  /** The label of column or row k: counted from 1 when oneBased. */
  function Label(k: nat, oneBased: bool): (s: string)
    ensures 2 <= |s|
  {
    Pad2(Decimal(LabelNumber(k, oneBased)))
  }

  /** The number a label shows for row or column k. */
  function LabelNumber(k: nat, oneBased: bool): nat
  {
    if oneBased then k + 1 else k
  }

  /** The column header: four spaces, then each column label followed by a
      space, then a newline. */
  function Header(w: nat, oneBased: bool): string
  {
    "    " + HeaderLabels(w, oneBased) + "\n"
  }

  function HeaderLabels(k: nat, oneBased: bool): string
  {
    if k == 0 then "" else HeaderLabels(k - 1, oneBased) + Label(k - 1, oneBased) + " "
  }

  /** str::repeat on a one-character string: n copies of c. */
  function Repeat(c: char, n: nat): (s: string)
    ensures |s| == n
    ensures forall k :: 0 <= k < n ==> s[k] == c
  {
    if n == 0 then "" else Repeat(c, n - 1) + [c]
  }

  /** The rule under the header: three spaces and 3 * width + 1 dashes. */
  function Rule(w: nat): (s: string)
    ensures |s| == 3 * w + 5
  {
    "   " + Repeat('-', 3 * w + 1) + "\n"
  }

  /** The glyphs of the first k cells of row y, each followed by two spaces. */
  function RowCells(b: Board, y: nat, k: nat, showAll: bool): (s: string)
    requires Shaped(b) && y < b.height && k <= b.width
    ensures |s| == 3 * k
    decreases k
  {
    if k == 0 then ""
    else
      IdxDecode(b.width, b.height, k - 1, y);
      RowCells(b, y, k - 1, showAll)
        + [Glyph(b.cells[Idx(b.width, k - 1, y)], showAll)] + "  "
  }

  /** One line of the grid: the row label, a bar, the cells, a newline. */
  function RowLine(b: Board, y: nat, showAll: bool, oneBased: bool): string
    requires Shaped(b) && y < b.height
  {
    Label(y, oneBased) + " | " + RowCells(b, y, b.width, showAll) + "\n"
  }

  /** The lines of the first k rows. */
  function Rows(b: Board, k: nat, showAll: bool, oneBased: bool): string
    requires Shaped(b) && k <= b.height
  {
    if k == 0 then ""
    else Rows(b, k - 1, showAll, oneBased) + RowLine(b, k - 1, showAll, oneBased)
  }

  /** Board::render. */
  function Render(b: Board, showAll: bool, oneBased: bool): string
    requires Shaped(b)
  {
    Header(b.width, oneBased) + Rule(b.width) + Rows(b, b.height, showAll, oneBased)
  }

  /** The Display implementation: mines hidden, labels counted from 1. */
  function Display(b: Board): string
    requires Shaped(b)
  {
    Render(b, false, true)
  }

  /** Cell (x, y)'s glyph sits at column 3x of the cell part of its row. */
  lemma {:induction false} RowCellsGlyph(b: Board, y: nat, k: nat, showAll: bool, x: nat)
    requires Shaped(b) && y < b.height && x < k <= b.width
    ensures Idx(b.width, x, y) < |b.cells|
    ensures RowCells(b, y, k, showAll)[3 * x] == Glyph(b.cells[Idx(b.width, x, y)], showAll)
    ensures RowCells(b, y, k, showAll)[3 * x + 1 .. 3 * x + 3] == "  "
    decreases k
  {
    IdxDecode(b.width, b.height, x, y);
    if x < k - 1 {
      RowCellsGlyph(b, y, k - 1, showAll, x);
    }
  }

  /** The line of row y shows the glyph of cell (x, y) right after the label
      and the bar, three characters per cell. */
  lemma RowLineGlyph(b: Board, y: nat, showAll: bool, oneBased: bool, x: nat)
    requires Shaped(b) && y < b.height && x < b.width
    ensures Idx(b.width, x, y) < |b.cells|
    ensures |Label(y, oneBased)| + 3 + 3 * x < |RowLine(b, y, showAll, oneBased)|
    ensures RowLine(b, y, showAll, oneBased)[|Label(y, oneBased)| + 3 + 3 * x]
      == Glyph(b.cells[Idx(b.width, x, y)], showAll)
  {
    var cells := RowCells(b, y, b.width, showAll);
    CharAfterBar(RowLine(b, y, showAll, oneBased), Label(y, oneBased), cells, 3 * x, cells[3 * x]);
    RowCellsGlyph(b, y, b.width, showAll, x);
  }

  /** In a line "label | cells\n", the j-th cell character sits three past
      the label. */
  lemma CharAfterBar(line: string, lab: string, cells: string, j: nat, ch: char)
    requires line == lab + " | " + cells + "\n" && j < |cells| && cells[j] == ch
    ensures |lab| + 3 + j < |line| && line[|lab| + 3 + j] == ch
  {
    assert line[|lab| + 3 + j] == cells[j];
  }

  /** The number of newlines in a string. */
  function Newlines(s: string): nat
  {
    if |s| == 0 then 0
    else Newlines(s[..|s| - 1]) + (if s[|s| - 1] == '\n' then 1 else 0)
  }

  lemma {:induction false} NewlinesAppend(s: string, t: string)
    ensures Newlines(s + t) == Newlines(s) + Newlines(t)
    decreases |t|
  {
    if |t| > 0 {
      var u := t[..|t| - 1];
      assert (s + t)[..|s + t| - 1] == s + u;
      assert (s + t)[|s + t| - 1] == t[|t| - 1];
      NewlinesAppend(s, u);
    } else {
      assert s + t == s;
    }
  }

  lemma {:induction false} NoNewlines(s: string)
    requires forall k :: 0 <= k < |s| ==> s[k] != '\n'
    ensures Newlines(s) == 0
  {
    if |s| > 0 {
      NoNewlines(s[..|s| - 1]);
    }
  }

  /** A label holds no newline. */
  lemma LabelNoNewlines(k: nat, oneBased: bool)
    ensures Newlines(Label(k, oneBased)) == 0
  {
    var lab, dec := Label(k, oneBased), Decimal(if oneBased then k + 1 else k);
    forall i | 0 <= i < |lab|
      ensures lab[i] != '\n'
    {
      if i >= |lab| - |dec| {
        assert lab[|lab| - |dec|..][i - (|lab| - |dec|)] == dec[i - (|lab| - |dec|)];
      }
    }
    NoNewlines(lab);
  }

  /** The cell part of a row holds no newline. */
  lemma {:induction false} RowCellsNoNewlines(b: Board, y: nat, k: nat, showAll: bool)
    requires Shaped(b) && y < b.height && k <= b.width
    ensures Newlines(RowCells(b, y, k, showAll)) == 0
    decreases k
  {
    if k > 0 {
      IdxDecode(b.width, b.height, k - 1, y);
      var g := [Glyph(b.cells[Idx(b.width, k - 1, y)], showAll)];
      RowCellsNoNewlines(b, y, k - 1, showAll);
      NoNewlines(g);
      NoNewlines("  ");
      NewlinesAppend(RowCells(b, y, k - 1, showAll), g);
      NewlinesAppend(RowCells(b, y, k - 1, showAll) + g, "  ");
    }
  }

  /** Each grid line is one line of text, ending in its newline. */
  lemma RowLineOneLine(b: Board, y: nat, showAll: bool, oneBased: bool)
    requires Shaped(b) && y < b.height
    ensures Newlines(RowLine(b, y, showAll, oneBased)) == 1
  {
    var lab, cells := Label(y, oneBased), RowCells(b, y, b.width, showAll);
    LabelNoNewlines(y, oneBased);
    RowCellsNoNewlines(b, y, b.width, showAll);
    NoNewlines(" | ");
    NewlinesAppend(lab, " | ");
    NewlinesAppend(lab + " | ", cells);
    NewlinesAppend(lab + " | " + cells, "\n");
  }

  /** Newline counts add up over a concatenation. */
  lemma NewlinesJoin(t: string, s: string, u: string, m: nat, n: nat)
    requires t == s + u && Newlines(s) == m && Newlines(u) == n
    ensures Newlines(t) == m + n
  {
    NewlinesAppend(s, u);
  }

  /** The first k row lines are k lines of text. */
  lemma {:induction false} RowsLines(b: Board, k: nat, showAll: bool, oneBased: bool)
    requires Shaped(b) && k <= b.height
    ensures Newlines(Rows(b, k, showAll, oneBased)) == k
  {
    if k > 0 {
      RowsLines(b, k - 1, showAll, oneBased);
      RowsLinesStep(b, k, showAll, oneBased);
    }
  }

  /** One more row line is one more line of text. */
  lemma RowsLinesStep(b: Board, k: nat, showAll: bool, oneBased: bool)
    requires Shaped(b) && 0 < k <= b.height
    requires Newlines(Rows(b, k - 1, showAll, oneBased)) == k - 1
    ensures Newlines(Rows(b, k, showAll, oneBased)) == k
  {
    RowLineOneLine(b, k - 1, showAll, oneBased);
    RowsUnfold(b, k - 1, showAll, oneBased);
    NewlinesJoin(Rows(b, k, showAll, oneBased), Rows(b, k - 1, showAll, oneBased),
      RowLine(b, k - 1, showAll, oneBased), k - 1, 1);
  }

  /** The lines of rows lo .. k-1. */
  function RowsBetween(b: Board, lo: nat, k: nat, showAll: bool, oneBased: bool): string
    requires Shaped(b) && lo <= k <= b.height
    decreases k - lo
  {
    if lo == k then ""
    else RowLine(b, lo, showAll, oneBased) + RowsBetween(b, lo + 1, k, showAll, oneBased)
  }

  /** The first k row lines are the first j followed by rows j .. k-1. */
  lemma {:induction false} RowsSplit(b: Board, j: nat, k: nat, showAll: bool, oneBased: bool)
    requires Shaped(b) && j <= k <= b.height
    ensures Rows(b, k, showAll, oneBased) == Rows(b, j, showAll, oneBased) + RowsBetween(b, j, k, showAll, oneBased)
    decreases k - j
  {
    if j == k {
      JoinEmpty(Rows(b, k, showAll, oneBased), Rows(b, j, showAll, oneBased), RowsBetween(b, j, k, showAll, oneBased));
    } else {
      RowsSplit(b, j + 1, k, showAll, oneBased);
      RowsSplitStep(b, j, k, showAll, oneBased);
    }
  }

  /** Splitting after row j+1 gives the split after row j. */
  lemma RowsSplitStep(b: Board, j: nat, k: nat, showAll: bool, oneBased: bool)
    requires Shaped(b) && j < k <= b.height
    requires Rows(b, k, showAll, oneBased)
      == Rows(b, j + 1, showAll, oneBased) + RowsBetween(b, j + 1, k, showAll, oneBased)
    ensures Rows(b, k, showAll, oneBased) == Rows(b, j, showAll, oneBased) + RowsBetween(b, j, k, showAll, oneBased)
  {
    RowsUnfold(b, j, showAll, oneBased);
    RowsBetweenUnfold(b, j, k, showAll, oneBased);
    JoinStep(Rows(b, k, showAll, oneBased), Rows(b, j + 1, showAll, oneBased), Rows(b, j, showAll, oneBased),
      RowLine(b, j, showAll, oneBased), RowsBetween(b, j + 1, k, showAll, oneBased),
      RowsBetween(b, j, k, showAll, oneBased));
  }

  /** Rows j+1 is rows j followed by row j's line. */
  lemma RowsUnfold(b: Board, j: nat, showAll: bool, oneBased: bool)
    requires Shaped(b) && j < b.height
    ensures Rows(b, j + 1, showAll, oneBased) == Rows(b, j, showAll, oneBased) + RowLine(b, j, showAll, oneBased)
  {
  }

  /** Rows j .. k-1 start with row j's line. */
  lemma RowsBetweenUnfold(b: Board, j: nat, k: nat, showAll: bool, oneBased: bool)
    requires Shaped(b) && j < k <= b.height
    ensures RowsBetween(b, j, k, showAll, oneBased)
      == RowLine(b, j, showAll, oneBased) + RowsBetween(b, j + 1, k, showAll, oneBased)
  {
  }

  /** An empty tail leaves a text as it is. */
  lemma JoinEmpty(t: string, s: string, e: string)
    requires t == s && |e| == 0
    ensures t == s + e
  {
  }

  /** Moving one line from the head of the tail to the end of the head. */
  lemma JoinStep(t: string, head: string, pre: string, line: string, rest: string, tail: string)
    requires t == head + rest && head == pre + line && tail == line + rest
    ensures t == pre + tail
  {
  }

  /** The rule is one line of text. */
  lemma RuleOneLine(w: nat)
    ensures Newlines(Rule(w)) == 1
  {
    var dashes := Repeat('-', 3 * w + 1);
    NoNewlines("   " + dashes);
    NewlinesAppend("   " + dashes, "\n");
  }

  /** The rendering is the header line, the rule line and one line per row:
      height + 2 lines in all. */
  lemma RenderLines(b: Board, showAll: bool, oneBased: bool)
    requires Shaped(b)
    ensures Newlines(Render(b, showAll, oneBased)) == b.height + 2
  {
    var header, rule := Header(b.width, oneBased), Rule(b.width);
    HeaderOneLine(b.width, oneBased);
    RuleOneLine(b.width);
    RowsLines(b, b.height, showAll, oneBased);
    NewlinesAppend(header, rule);
    NewlinesAppend(header + rule, Rows(b, b.height, showAll, oneBased));
  }

  /** Row y's line comes right after the header, the rule and the lines of
      the rows above it. */
  lemma RenderRowAt(b: Board, showAll: bool, oneBased: bool, y: nat)
    requires Shaped(b) && y < b.height
    ensures Render(b, showAll, oneBased)
      == (Header(b.width, oneBased) + Rule(b.width))
         + (Rows(b, y, showAll, oneBased)
            + (RowLine(b, y, showAll, oneBased) + RowsBetween(b, y + 1, b.height, showAll, oneBased)))
  {
    var top := Header(b.width, oneBased) + Rule(b.width);
    RowsSplit(b, y, b.height, showAll, oneBased);
    assert Render(b, showAll, oneBased) == top + Rows(b, b.height, showAll, oneBased);
  }

  /** A number takes one digit below ten and at least two from ten on. */
  lemma DecimalWidth(n: nat)
    ensures n < 10 <==> |Decimal(n)| == 1
  {
    if n >= 10 {
      assert |Decimal(n / 10)| >= 1;
    }
  }

  /** Padding keeps the digits whole after the leading spaces. */
  lemma Pad2Digits(d: string)
    requires forall k :: 0 <= k < |d| ==> '0' <= d[k] <= '9'
    ensures var s := Pad2(d);
      && (forall i :: |s| - |d| <= i < |s| ==> '0' <= s[i] <= '9')
      && DecimalValue(s[|s| - |d|..]) == DecimalValue(d)
  {
    var s := Pad2(d);
    forall i | |s| - |d| <= i < |s|
      ensures '0' <= s[i] <= '9'
    {
      assert s[i] == d[i - (|s| - |d|)];
    }
  }

  /** A label is its number's decimal digits, right-aligned in two
      characters: stripping the leading spaces reads back the number. */
  lemma LabelReadsBack(k: nat, oneBased: bool)
    ensures var s, d := Label(k, oneBased), Decimal(LabelNumber(k, oneBased));
      |d| <= |s| == (if LabelNumber(k, oneBased) < 10 then 2 else |d|)
    ensures var s, d := Label(k, oneBased), Decimal(LabelNumber(k, oneBased));
      forall i :: 0 <= i < |s| - |d| ==> s[i] == ' '
    ensures var s, d := Label(k, oneBased), Decimal(LabelNumber(k, oneBased));
      forall i :: |s| - |d| <= i < |s| ==> '0' <= s[i] <= '9'
    ensures var s, d := Label(k, oneBased), Decimal(LabelNumber(k, oneBased));
      |d| <= |s| && DecimalValue(s[|s| - |d|..]) == LabelNumber(k, oneBased)
  {
    var d := Decimal(LabelNumber(k, oneBased));
    DecimalRoundTrip(LabelNumber(k, oneBased));
    DecimalWidth(LabelNumber(k, oneBased));
    Pad2Digits(d);
    assert Label(k, oneBased) == Pad2(d);
  }

  /** Where cell (x, y)'s glyph sits in the rendering: after the header,
      the rule, the rows above, the row label and the bar, three characters
      per cell. */
  function GlyphOffset(b: Board, showAll: bool, oneBased: bool, x: nat, y: nat): nat
    requires Shaped(b) && y <= b.height
  {
    |Header(b.width, oneBased)| + |Rule(b.width)| + |Rows(b, y, showAll, oneBased)|
      + |Label(y, oneBased)| + 3 + 3 * x
  }

  /** Cell (x, y)'s glyph appears in the rendering right after the header,
      the rule, the rows above, the row label and the bar, three characters
      per cell. */
  lemma RenderGlyphAt(b: Board, showAll: bool, oneBased: bool, x: nat, y: nat)
    requires Shaped(b) && x < b.width && y < b.height
    ensures Idx(b.width, x, y) < |b.cells|
    ensures GlyphOffset(b, showAll, oneBased, x, y) < |Render(b, showAll, oneBased)|
    ensures Render(b, showAll, oneBased)[GlyphOffset(b, showAll, oneBased, x, y)]
      == Glyph(b.cells[Idx(b.width, x, y)], showAll)
  {
    RenderRowAt(b, showAll, oneBased, y);
    RowLineGlyph(b, y, showAll, oneBased, x);
    var o := |Header(b.width, oneBased)| + |Rule(b.width)| + |Rows(b, y, showAll, oneBased)|
             + |Label(y, oneBased)| + 3 + 3 * x;
    var text, line, off := Render(b, showAll, oneBased), RowLine(b, y, showAll, oneBased), |Label(y, oneBased)| + 3 + 3 * x;
    CharInText(text, Header(b.width, oneBased) + Rule(b.width), Rows(b, y, showAll, oneBased), line,
      RowsBetween(b, y + 1, b.height, showAll, oneBased), off, o);
    assert text[o] == line[off];
    assert line[off] == Glyph(b.cells[Idx(b.width, x, y)], showAll);
    assert o == GlyphOffset(b, showAll, oneBased, x, y);
    assert Render(b, showAll, oneBased)[GlyphOffset(b, showAll, oneBased, x, y)] == Glyph(b.cells[Idx(b.width, x, y)], showAll);
  }

  /** A character of a line that follows a known prefix of a text sits at
      the prefix's length plus its offset in the line. */
  lemma CharInText(text: string, a: string, c: string, line: string, rest: string, off: nat, i: nat)
    requires text == a + (c + (line + rest)) && off < |line| && i == |a| + |c| + off
    ensures i < |text| && text[i] == line[off]
  {
    assert text[i] == (line + rest)[off];
  }

  /** What the Display implementation shows of a valid board: every cell's
      glyph in place, and never a mine or a '?'. */
  lemma DisplayGlyphAt(b: Board, x: nat, y: nat)
    requires Valid(b) && x < b.width && y < b.height
    ensures Idx(b.width, x, y) < |b.cells|
    ensures var o := GlyphOffset(b, false, true, x, y);
      && o < |Display(b)|
      && Display(b)[o] == Glyph(b.cells[Idx(b.width, x, y)], false)
      && ParseGlyph(Display(b)[o]) == Some(ViewOf(b.cells[Idx(b.width, x, y)], false))
      && Display(b)[o] != '*' && Display(b)[o] != '?'
  {
    RenderGlyphAt(b, false, true, x, y);
    GlyphOnValidBoard(b, Idx(b.width, x, y));
    assert Display(b) == Render(b, false, true);
  }

  /** The header is one line of text. */
  lemma HeaderOneLine(w: nat, oneBased: bool)
    ensures Newlines(Header(w, oneBased)) == 1
  {
    var labels := HeaderLabels(w, oneBased);
    var indent, nl := "    ", "\n";
    HeaderLabelsNoNewlines(w, oneBased);
    NoNewlines(indent);
    assert Newlines(nl) == 1;
    NewlinesJoin(indent + labels, indent, labels, 0, 0);
    NewlinesJoin(Header(w, oneBased), indent + labels, nl, 0, 1);
  }

  /** The column labels of the header hold no newline. */
  lemma {:induction false} HeaderLabelsNoNewlines(k: nat, oneBased: bool)
    ensures Newlines(HeaderLabels(k, oneBased)) == 0
  {
    if k > 0 {
      HeaderLabelsNoNewlines(k - 1, oneBased);
      HeaderLabelsStep(k, oneBased);
    }
  }

  /** One more label keeps the header labels free of newlines. */
  lemma HeaderLabelsStep(k: nat, oneBased: bool)
    requires k > 0 && Newlines(HeaderLabels(k - 1, oneBased)) == 0
    ensures Newlines(HeaderLabels(k, oneBased)) == 0
  {
    var prev, lab, sp := HeaderLabels(k - 1, oneBased), Label(k - 1, oneBased), " ";
    LabelNoNewlines(k - 1, oneBased);
    NoNewlines(sp);
    NoNewlinesJoin3(HeaderLabels(k, oneBased), prev, lab, sp);
  }

  /** Three newline-free strings joined hold no newline. */
  lemma NoNewlinesJoin3(t: string, s: string, u: string, v: string)
    requires t == s + u + v && Newlines(s) == 0 && Newlines(u) == 0 && Newlines(v) == 0
    ensures Newlines(t) == 0
  {
    NewlinesAppend(s, u);
    NewlinesAppend(s + u, v);
  }
}
