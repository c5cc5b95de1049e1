/** The board's public operations (src/engine.rs, Board::new, toggle_flag,
    reveal, initialize and the getters). */
module Engine {
  import opened Seqs
  import opened Grid
  import opened State
  import Prng
  import Adjacency
  import Flood
  import opened Wrappers

  datatype BoardError = InvalidDimensions | TooManyMines

  datatype Result<T> = Ok(value: T) | Err(error: BoardError)

  /** Board::new. The seed 0 asks for a time-derived seed: clockSeed stands
      for what seed_from_time returns at that moment. */
  function New(width: nat, height: nat, mines: nat, seed: bv64, clockSeed: bv64): (r: Result<Board>)
    ensures r.Err? <==> width == 0 || height == 0 || mines >= width * height
    ensures r == Err(InvalidDimensions) <==> width == 0 || height == 0
    ensures r.Ok? ==>
      var b := r.value;
      && Valid(b)
      && b.width == width && b.height == height && b.mines == mines
      && (forall i :: 0 <= i < |b.cells| ==> b.cells[i] == DefaultCell)
      && b.remainingSafe == width * height - mines
      && b.alive && !b.won && !b.initialized
      && b.seed == (if seed == 0 then clockSeed else seed)
  {
    if width == 0 || height == 0 then Err(InvalidDimensions)
    else
      var total := width * height;
      if mines >= total then Err(TooManyMines)
      else
        // mines.min(total.saturating_sub(1)): never lowers mines after the check above
        var mines := if mines <= total - 1 then mines else total - 1;
        var seed := if seed == 0 then clockSeed else seed;
        var cells := seq(total, _ => DefaultCell);
        assert RevealedSet(cells) == {};
        Ok(Board(width, height, mines, cells, total - mines, true, false, false, seed))
  }

  /** Board::cell: the cell at (x, y), or None outside the grid. */
  function CellAt(b: Board, x: nat, y: nat): (r: Option<Cell>)
    requires Shaped(b)
    ensures r.Some? <==> x < b.width && y < b.height
    ensures r.Some? ==> Idx(b.width, x, y) < |b.cells|
    ensures r.Some? ==> r.value == b.cells[Idx(b.width, x, y)]
  {
    if x < b.width && y < b.height then
      IdxDecode(b.width, b.height, x, y);
      Some(b.cells[Idx(b.width, x, y)])
    else None
  }

  /** The flat position of an in-grid (x, y), known to address a cell. */
  function CellIndex(b: Board, x: nat, y: nat): (i: nat)
    requires Shaped(b) && x < b.width && y < b.height
    ensures i < |b.cells| && i == Idx(b.width, x, y)
  {
    IdxDecode(b.width, b.height, x, y);
    Idx(b.width, x, y)
  }

  /** toggle_flag: flip the flag of a hidden cell inside the grid and answer
      true; answer false and change nothing otherwise. Neither the counters
      nor the lifecycle flags are consulted or changed. */
  function ToggleFlag(b: Board, x: nat, y: nat): (r: (Board, bool))
    requires Shaped(b)
    ensures var c := CellAt(b, x, y);
      r.1 <==> c.Some? && !c.value.revealed
    ensures !r.1 ==> r.0 == b
    ensures r.1 ==>
      var i := Idx(b.width, x, y);
      && i < |b.cells|
      && r.0 == b.(cells := r.0.cells)
      && |r.0.cells| == |b.cells|
      && r.0.cells[i] == b.cells[i].(flagged := !b.cells[i].flagged)
      && (forall j :: 0 <= j < |b.cells| && j != i ==> r.0.cells[j] == b.cells[j])
    ensures Valid(b) ==> Valid(r.0) && Progress(b, r.0)
  {
    if x >= b.width || y >= b.height then (b, false)
    else
      var i := Idx(b.width, x, y);
      IdxDecode(b.width, b.height, x, y);
      if b.cells[i].revealed then (b, false)
      else
        var b' := b.(cells := b.cells[i := b.cells[i].(flagged := !b.cells[i].flagged)]);
        FlagKeepsValid(b, i);
        (b', true)
  }

  /** Flipping the flag of a hidden cell changes neither the mines, nor the
      revealed cells, nor the counts, so a valid board stays valid. */
  lemma FlagKeepsValid(b: Board, i: nat)
    requires Shaped(b) && i < |b.cells| && !b.cells[i].revealed
    ensures Valid(b) ==> var b' := b.(cells := b.cells[i := b.cells[i].(flagged := !b.cells[i].flagged)]);
      Valid(b') && Progress(b, b')
  {
    if Valid(b) {
      var b' := b.(cells := b.cells[i := b.cells[i].(flagged := !b.cells[i].flagged)]);
      assert forall j :: 0 <= j < |b.cells| ==>
        && b'.cells[j].isMine == b.cells[j].isMine
        && b'.cells[j].revealed == b.cells[j].revealed
        && b'.cells[j].adjacent == b.cells[j].adjacent;
      assert RevealedSet(b'.cells) == RevealedSet(b.cells);
      assert MineSet(b'.cells) == MineSet(b.cells);
      if b.initialized {
        forall j | 0 <= j < |b'.cells|
          ensures MineNeighbors(b.width, b.height, b'.cells, Col(b.width, j), Row(b.width, j))
               == MineNeighbors(b.width, b.height, b.cells, Col(b.width, j), Row(b.width, j))
        {
          Adjacency.MineNeighborsSameMines(b.width, b.height, b'.cells, b.cells, Col(b.width, j), Row(b.width, j));
        }
      }
    }
  }

  /** (0..total).filter(|&p| p != safe): every position except the safe one,
      in increasing order. */
  function Positions(total: nat, safe: nat): (ps: seq<nat>)
    requires safe < total
    ensures |ps| == total - 1
    ensures Distinct(ps)
    ensures forall p: nat :: p in ps <==> p < total && p != safe
  {
    var ps := seq(total - 1, k requires 0 <= k < total - 1 => if k < safe then k else k + 1);
    forall p | p in ps
      ensures p < total && p != safe
    {
      var k :| 0 <= k < |ps| && ps[k] == p;
    }
    forall p: nat | p < total && p != safe
      ensures p in ps
    {
      if p < safe {
        assert ps[p] == p;
      } else {
        assert ps[p - 1] == p;
      }
    }
    ps
  }

  /** The mine positions initialize chooses: the first `mines` entries of the
      shuffled positions, with the generator seeded from the board's seed.
      The layout is a function of the dimensions, the mine count, the seed
      and the first revealed cell only. */
  function MineLayout(total: nat, mines: nat, seed: bv64, safe: nat): (ms: seq<nat>)
    requires safe < total && mines < total
    ensures |ms| == mines && Distinct(ms)
    ensures forall p :: p in ms ==> p < total && p != safe
  {
    var ps := Positions(total, safe);
    var shuffled := Prng.Shuffle(ps, Prng.Seeded(seed)).0;
    Prng.ShufflePreservesElements(ps, Prng.Seeded(seed));
    assert forall p :: p in shuffled[..mines] ==> p in shuffled;
    shuffled[..mines]
  }

  /** The loop of initialize that sets is_mine on each chosen position. */
  method MarkMines(cells: seq<Cell>, ms: seq<nat>) returns (c: seq<Cell>)
    requires forall k :: 0 <= k < |ms| ==> ms[k] < |cells|
    ensures |c| == |cells|
    ensures forall i :: 0 <= i < |c| ==>
      c[i] == cells[i].(isMine := cells[i].isMine || i in ms)
  {
    c := cells;
    var k := 0;
    while k < |ms|
      invariant k <= |ms| && |c| == |cells|
      invariant forall i :: 0 <= i < |c| ==>
        c[i] == cells[i].(isMine := cells[i].isMine || i in ms[..k])
    {
      assert ms[..k + 1] == ms[..k] + [ms[k]];
      c := c[ms[k] := c[ms[k]].(isMine := true)];
      k := k + 1;
    }
    assert ms[..k] == ms;
  }

  /** initialize: place the mines away from (safeX, safeY), compute the
      adjacency counts and mark the board initialized. A second call
      changes nothing. */
  method Initialize(b: Board, safeX: nat, safeY: nat) returns (b': Board)
    requires Valid(b) && safeX < b.width && safeY < b.height
    ensures b.initialized ==> b' == b
    ensures !b.initialized ==>
      var total, safe := b.width * b.height, CellIndex(b, safeX, safeY);
      var layout := MineLayout(total, b.mines, b.seed, safe);
      && b' == b.(cells := b'.cells, initialized := true)
      && |b'.cells| == |b.cells|
      && (forall i :: 0 <= i < |b'.cells| ==> (b'.cells[i].isMine <==> i in layout))
      && (forall i :: 0 <= i < |b'.cells| ==>
            b'.cells[i].revealed == b.cells[i].revealed && b'.cells[i].flagged == b.cells[i].flagged)
      && safe < |b'.cells| && !b'.cells[safe].isMine
      && |MineSet(b'.cells)| == b.mines
    ensures Valid(b') && Progress(b, b')
  {
    if b.initialized {
      return b;
    }
    var safe := CellIndex(b, safeX, safeY);
    var layout := MineLayout(b.width * b.height, b.mines, b.seed, safe);
    b' := Place(b, safe, layout);
  }

  /** The body of initialize once the layout is chosen: mark the mines,
      count around every safe cell and flag the board initialized. */
  method Place(b: Board, safe: nat, layout: seq<nat>) returns (b': Board)
    requires Valid(b) && !b.initialized && safe < |b.cells|
    requires |layout| == b.mines && Distinct(layout)
    requires forall p :: p in layout ==> p < |b.cells| && p != safe
    ensures b' == b.(cells := b'.cells, initialized := true)
    ensures |b'.cells| == |b.cells|
    ensures forall i :: 0 <= i < |b'.cells| ==> (b'.cells[i].isMine <==> i in layout)
    ensures forall i :: 0 <= i < |b'.cells| ==>
      b'.cells[i].revealed == b.cells[i].revealed && b'.cells[i].flagged == b.cells[i].flagged
    ensures !b'.cells[safe].isMine
    ensures |MineSet(b'.cells)| == b.mines
    ensures Valid(b') && Progress(b, b')
  {
    assert forall k :: 0 <= k < |layout| ==> layout[k] in layout;
    var marked := MarkMines(b.cells, layout);
    var cells := Adjacency.ComputeAdjacency(b.width, b.height, marked);
    b' := b.(cells := cells, initialized := true);
    PlacementValid(b, b', layout);
  }

  /** Placing a layout of `mines` distinct positions on a fresh board, then
      computing the counts, yields a valid initialized board. */
  lemma PlacementValid(b: Board, b': Board, layout: seq<nat>)
    requires Valid(b) && !b.initialized
    requires b' == b.(cells := b'.cells, initialized := true) && |b'.cells| == |b.cells|
    requires |layout| == b.mines && Distinct(layout)
    requires forall i :: 0 <= i < |b'.cells| ==> (b'.cells[i].isMine <==> i in layout)
    requires forall p :: p in layout ==> p < |b.cells|
    requires forall i :: 0 <= i < |b'.cells| && b'.cells[i].isMine ==> b'.cells[i].adjacent == 0
    requires forall i :: 0 <= i < |b'.cells| ==>
      b'.cells[i].revealed == b.cells[i].revealed && b'.cells[i].flagged == b.cells[i].flagged
    requires AdjacencyCorrect(b.width, b.height, b'.cells)
    ensures |MineSet(b'.cells)| == b.mines
    ensures Valid(b') && Progress(b, b')
  {
    forall i: nat
      ensures i in MineSet(b'.cells) <==> i in layout
    {
      if i >= |b'.cells| {
        assert i !in layout;
      }
    }
    DistinctCard(layout);
    assert MineSet(b'.cells) == Elements(layout);
    assert RevealedSet(b'.cells) == {};
    assert RevealedSet(b.cells) == {};
  }

  /** The conditions under which reveal does nothing: the game is over, the
      position is off the grid, or the cell is flagged or already revealed. */
  function Ignored(b: Board, x: nat, y: nat): (ig: bool)
    requires Shaped(b)
    ensures !ig <==> (
      && b.alive && !b.won && x < b.width && y < b.height
      && Idx(b.width, x, y) < |b.cells|
      && !b.cells[Idx(b.width, x, y)].flagged && !b.cells[Idx(b.width, x, y)].revealed)
  {
    var c := CellAt(b, x, y);
    !b.alive || b.won || c.None? || c.value.flagged || c.value.revealed
  }

  /** reveal: the first reveal places the mines away from the chosen cell;
      revealing a mine ends the game without revealing it; revealing a safe
      cell floods out from it and wins once no safe cell is hidden. */
  method Reveal(b: Board, x: nat, y: nat) returns (b': Board, r: RevealResult)
    requires Valid(b)
    ensures Valid(b') && Progress(b, b')
    ensures r == NoOp <==> Ignored(b, x, y)
    ensures r == NoOp ==> b' == b
    // the first reveal never hits a mine
    ensures !b.initialized && !Ignored(b, x, y) ==> r == RevealedSafe
    ensures r == HitMine ==> b.initialized && b' == b.(alive := false)
    ensures r == HitMine <==>
      !Ignored(b, x, y) && b.initialized && b.cells[Idx(b.width, x, y)].isMine
    ensures r == RevealedSafe ==>
      var i := Idx(b.width, x, y);
      && i < |b'.cells| && b'.cells[i].revealed && !b'.cells[i].isMine
      && b'.initialized && b'.alive
      && b'.remainingSafe == |HiddenSafe(b'.cells)|
    // no flag changes, and no flagged cell or mine is revealed
    ensures forall i :: 0 <= i < |b.cells| ==> b'.cells[i].flagged == b.cells[i].flagged
    ensures forall i :: i in NewlyRevealed(b.cells, b'.cells) ==>
      !b.cells[i].flagged && !b'.cells[i].isMine
    // a safe reveal changes only the cells, the counter, the win flag and,
    // on the first reveal, the initialized flag
    ensures r == RevealedSafe ==>
      b' == b.(cells := b'.cells, remainingSafe := b'.remainingSafe, won := b'.won, initialized := true)
    ensures r == RevealedSafe ==>
      b'.remainingSafe == b.remainingSafe - |NewlyRevealed(b.cells, b'.cells)|
    // the flood fill, the first one included, leaves no zero cell beside a
    // hidden safe unflagged cell
    ensures r == RevealedSafe ==>
      Flood.ZeroCellsSettled(b.width, b.height, b.cells, b'.cells, [])
    // the first reveal lays the mines out as MineLayout does, keeping the
    // revealed cell free; later reveals never move a mine
    ensures !b.initialized && !Ignored(b, x, y) ==>
      && |b'.cells| == |b.cells|
      && forall i :: 0 <= i < |b'.cells| ==>
           (b'.cells[i].isMine <==> i in MineLayout(b.width * b.height, b.mines, b.seed, CellIndex(b, x, y)))
    ensures b.initialized ==>
      forall i :: 0 <= i < |b.cells| ==> b'.cells[i] == b.cells[i].(revealed := b'.cells[i].revealed)
    // it reveals nothing outside the region (x, y) spreads to on the placed
    // board, and nothing but (x, y) when its count is not zero
    ensures forall S :: Idx(b.width, x, y) in S && Flood.SpreadClosed(b.width, b.height, b.cells, b'.cells, S) ==>
      NewlyRevealed(b.cells, b'.cells) <= S
    ensures var i := Idx(b.width, x, y);
      i < |b'.cells| && b'.cells[i].adjacent != 0 ==> NewlyRevealed(b.cells, b'.cells) <= {i}
  {
    if Ignored(b, x, y) {
      assert NewlyRevealed(b.cells, b.cells) == {};
      return b, NoOp;
    }
    var b1 := Initialize(b, x, y);
    b', r := RevealPlaced(b1, x, y);
    ProgressTrans(b, b1, b');
    SameRevealedBits(b, b1, b');
    forall S | Idx(b.width, x, y) in S && Flood.SpreadClosed(b.width, b.height, b.cells, b'.cells, S)
      ensures NewlyRevealed(b.cells, b'.cells) <= S
    {
      Flood.SpreadAgree(b.width, b.height, b.cells, b'.cells, b1.cells, b1.cells, S);
    }
  }

  /** Placement keeps every revealed and flag bit, so what the flood fill
      reveals and settles reads the same measured from before placement. */
  lemma SameRevealedBits(b: Board, b1: Board, b': Board)
    requires Shaped(b) && |b1.cells| == |b.cells| && |b'.cells| == |b.cells|
    requires forall i :: 0 <= i < |b.cells| ==>
      b1.cells[i].revealed == b.cells[i].revealed && b1.cells[i].flagged == b.cells[i].flagged
    ensures NewlyRevealed(b.cells, b'.cells) == NewlyRevealed(b1.cells, b'.cells)
    ensures Flood.ZeroCellsSettled(b.width, b.height, b1.cells, b'.cells, []) ==>
      Flood.ZeroCellsSettled(b.width, b.height, b.cells, b'.cells, [])
  {
  }

  /** The rest of reveal once the mines are placed: a mine ends the game, a
      safe cell starts the flood fill and the win check. */
  method RevealPlaced(b: Board, x: nat, y: nat) returns (b': Board, r: RevealResult)
    requires Valid(b) && b.initialized && b.alive && !b.won
    requires x < b.width && y < b.height
    requires var i := Idx(b.width, x, y);
      i < |b.cells| && !b.cells[i].flagged && !b.cells[i].revealed
    ensures Valid(b') && Progress(b, b')
    ensures r != NoOp
    ensures r == HitMine <==> b.cells[Idx(b.width, x, y)].isMine
    ensures r == HitMine ==> b' == b.(alive := false)
    ensures r == RevealedSafe ==>
      var i := Idx(b.width, x, y);
      && b'.cells[i].revealed
      && b'.alive
      && b'.remainingSafe == |HiddenSafe(b'.cells)|
      && Flood.ZeroCellsSettled(b.width, b.height, b.cells, b'.cells, [])
    // only revealed bits change, never on a mine or a flagged cell
    ensures forall i :: 0 <= i < |b.cells| ==> b'.cells[i] == b.cells[i].(revealed := b'.cells[i].revealed)
    ensures forall i :: i in NewlyRevealed(b.cells, b'.cells) ==> !b.cells[i].isMine && !b.cells[i].flagged
    ensures r == RevealedSafe ==>
      && b' == b.(cells := b'.cells, remainingSafe := b'.remainingSafe, won := b'.won)
      && b'.remainingSafe == b.remainingSafe - |NewlyRevealed(b.cells, b'.cells)|
    // it reveals nothing outside the region (x, y) spreads to, and nothing
    // but (x, y) when its count is not zero
    ensures forall S :: Idx(b.width, x, y) in S && Flood.SpreadClosed(b.width, b.height, b.cells, b.cells, S) ==>
      NewlyRevealed(b.cells, b'.cells) <= S
    ensures var i := Idx(b.width, x, y);
      b.cells[i].adjacent != 0 ==> NewlyRevealed(b.cells, b'.cells) <= {i}
  {
    var i := CellIndex(b, x, y);
    if b.cells[i].isMine {
      assert NewlyRevealed(b.cells, b.cells) == {};
      return b.(alive := false), HitMine;
    }
    RemainingIsHiddenSafe(b);
    var b2 := Flood.FloodReveal(b, x, y);
    b' := b2.(won := b2.remainingSafe == 0);
    FloodKeepsValid(b, b2, b');
    r := RevealedSafe;
  }

  /** A flood fill on a valid initialized live board, followed by the win
      check, leaves a valid board. */
  lemma FloodKeepsValid(b1: Board, b2: Board, b': Board)
    requires Valid(b1) && b1.initialized && b1.alive && !b1.won
    requires b2 == b1.(cells := b2.cells, remainingSafe := b2.remainingSafe)
    requires |b2.cells| == |b1.cells|
    requires forall i :: 0 <= i < |b1.cells| ==>
      b2.cells[i] == b1.cells[i].(revealed := b2.cells[i].revealed)
    requires forall i :: 0 <= i < |b1.cells| && b1.cells[i].revealed ==> b2.cells[i].revealed
    requires forall i :: i in NewlyRevealed(b1.cells, b2.cells) ==>
      !b1.cells[i].isMine && !b1.cells[i].flagged
    requires b2.remainingSafe == |HiddenSafe(b2.cells)|
    requires b2.remainingSafe <= b1.remainingSafe
    requires b' == b2.(won := b2.remainingSafe == 0)
    ensures Valid(b') && Progress(b1, b')
  {
    var w, h := b1.width, b1.height;
    forall i | 0 <= i < |b2.cells| && b2.cells[i].revealed
      ensures !b2.cells[i].isMine && !b2.cells[i].flagged
    {
      if !b1.cells[i].revealed {
        assert i in NewlyRevealed(b1.cells, b2.cells);
      }
    }
    assert MineSet(b2.cells) == MineSet(b1.cells);
    CellPartition(b2.cells);
    forall i | 0 <= i < |b2.cells|
      ensures MineNeighbors(w, h, b2.cells, Col(w, i), Row(w, i))
           == MineNeighbors(w, h, b1.cells, Col(w, i), Row(w, i))
    {
      Adjacency.MineNeighborsSameMines(w, h, b2.cells, b1.cells, Col(w, i), Row(w, i));
    }
  }
}
