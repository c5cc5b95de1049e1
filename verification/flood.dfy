/** The iterative stack-based flood fill behind a safe reveal
    (src/engine.rs, flood_reveal). */
module Flood {
  import opened Grid
  import opened State

  /** Cell j (a flat position) is taken care of: revealed, flagged, a mine,
      or still waiting on the stack. */
  ghost predicate Covered(w: nat, cells: seq<Cell>, stack: seq<(nat, nat)>, j: nat)
    requires w > 0 && j < |cells|
  {
    cells[j].revealed || cells[j].flagged || cells[j].isMine || (Col(w, j), Row(w, j)) in stack
  }

  /** Every zero-count cell revealed since cells0 has all its neighbours
      taken care of. */
  ghost predicate ZeroCellsSettled(w: nat, h: nat, cells0: seq<Cell>, cells: seq<Cell>,
                                   stack: seq<(nat, nat)>)
    requires w > 0 && |cells0| == |cells|
  {
    forall i, j :: 0 <= i < |cells| && 0 <= j < |cells|
      && cells[i].revealed && !cells0[i].revealed && cells[i].adjacent == 0
      && IsNeighbor(w, h, Col(w, i), Row(w, i), Col(w, j), Row(w, j))
      ==> Covered(w, cells, stack, j)
  }

  /** S is closed under the flood fill's spreading: with every cell of S
      that was hidden in cells0 and is safe, unflagged and of count zero in
      cells, S holds all that cell's neighbours. */
  ghost predicate SpreadClosed(w: nat, h: nat, cells0: seq<Cell>, cells: seq<Cell>, S: set<nat>)
    requires w > 0 && |cells0| == |cells|
  {
    forall i, j :: i in S && 0 <= i < |cells| && 0 <= j < |cells|
      && !cells0[i].revealed && !cells[i].flagged && !cells[i].isMine && cells[i].adjacent == 0
      && IsNeighbor(w, h, Col(w, i), Row(w, i), Col(w, j), Row(w, j))
      ==> j in S
  }

  /** Everything revealed since cells0, and every position on the stack,
      lies in each set that holds the start cell s and is closed under
      spreading. */
  ghost predicate WithinSpread(w: nat, h: nat, cells0: seq<Cell>, cells: seq<Cell>, s: nat,
                               stack: seq<(nat, nat)>)
    requires w > 0 && |cells0| == |cells|
  {
    forall S :: s in S && SpreadClosed(w, h, cells0, cells0, S) ==>
      && NewlyRevealed(cells0, cells) <= S
      && (forall k :: 0 <= k < |stack| ==> Idx(w, stack[k].0, stack[k].1) in S)
  }

  /** A start cell that is not a hidden, safe, unflagged zero spreads
      nowhere: the set holding it alone is closed. */
  lemma SingletonClosed(w: nat, h: nat, cells0: seq<Cell>, cells: seq<Cell>, s: nat)
    requires w > 0 && |cells0| == |cells| && s < |cells|
    requires cells0[s].revealed || cells[s].flagged || cells[s].isMine || cells[s].adjacent != 0
    ensures SpreadClosed(w, h, cells0, cells, {s})
  {
  }

  /** Closure depends only on the revealed bits of cells0 and on the
      flag, mine and count fields of cells. */
  lemma SpreadAgree(w: nat, h: nat, c0: seq<Cell>, c: seq<Cell>, d0: seq<Cell>, d: seq<Cell>,
                    S: set<nat>)
    requires w > 0 && |c0| == |c| == |d0| == |d|
    requires forall i :: 0 <= i < |c| ==>
      && c0[i].revealed == d0[i].revealed
      && c[i].flagged == d[i].flagged && c[i].isMine == d[i].isMine && c[i].adjacent == d[i].adjacent
    ensures SpreadClosed(w, h, c0, c, S) <==> SpreadClosed(w, h, d0, d, S)
  {
  }

  /** Revealing safe hidden cell p hides one safe cell fewer and reveals one
      cell more. */
  lemma RevealOne(cells0: seq<Cell>, cells: seq<Cell>, p: nat)
    requires |cells0| == |cells| && p < |cells|
    requires !cells[p].isMine && !cells[p].revealed
    requires forall i :: 0 <= i < |cells| && cells0[i].revealed ==> cells[i].revealed
    ensures var c' := cells[p := cells[p].(revealed := true)];
      && HiddenSafe(c') == HiddenSafe(cells) - {p}
      && p in HiddenSafe(cells)
      && NewlyRevealed(cells0, c') == NewlyRevealed(cells0, cells) + {p}
      && p !in NewlyRevealed(cells0, cells)
  {
    var c' := cells[p := cells[p].(revealed := true)];
    assert HiddenSafe(c') == HiddenSafe(cells) - {p};
    assert NewlyRevealed(cells0, c') == NewlyRevealed(cells0, cells) + {p};
  }

  /** What holds before every iteration of the flood fill that started at
      (x, y) on board b, with the current cells, counter and stack. */
  ghost predicate FloodInv(b: Board, x: nat, y: nat, cells: seq<Cell>, remaining: nat,
                           stack: seq<(nat, nat)>)
    requires Shaped(b) && x < b.width && y < b.height
  {
    var w, h, s := b.width, b.height, Idx(b.width, x, y);
    && |cells| == |b.cells|
    && s < |cells|
    && (forall i :: 0 <= i < |cells| ==> cells[i] == b.cells[i].(revealed := cells[i].revealed))
    && (forall i :: 0 <= i < |cells| && b.cells[i].revealed ==> cells[i].revealed)
    && (forall i :: i in NewlyRevealed(b.cells, cells) ==> !cells[i].isMine && !cells[i].flagged)
    && (forall k :: 0 <= k < |stack| ==> stack[k].0 < w && stack[k].1 < h)
    && remaining == |HiddenSafe(cells)|
    && remaining + |NewlyRevealed(b.cells, cells)| == b.remainingSafe
    && ((stack == [(x, y)] && cells == b.cells)
        || cells[s].revealed || cells[s].flagged || cells[s].isMine)
    && ZeroCellsSettled(w, h, b.cells, cells, stack)
    && WithinSpread(w, h, b.cells, cells, s, stack)
  }

  /** flood_reveal from (x, y): pop a position, skip it if it is revealed,
      flagged or a mine, otherwise reveal it, decrement remaining_safe while
      positive, and if its count is zero push every neighbour that is
      neither revealed nor a mine. The measure is the number of hidden safe
      cells, then the stack length. */
  method FloodReveal(b: Board, x: nat, y: nat) returns (b': Board)
    requires Shaped(b) && x < b.width && y < b.height
    requires b.remainingSafe == |HiddenSafe(b.cells)|
    ensures b' == b.(cells := b'.cells, remainingSafe := b'.remainingSafe)
    ensures |b'.cells| == |b.cells|
    // only the revealed bits change, and only from false to true
    ensures forall i :: 0 <= i < |b.cells| ==>
      b'.cells[i] == b.cells[i].(revealed := b'.cells[i].revealed)
    ensures forall i :: 0 <= i < |b.cells| && b.cells[i].revealed ==> b'.cells[i].revealed
    // it never reveals a mine or a flagged cell
    ensures forall i :: i in NewlyRevealed(b.cells, b'.cells) ==>
      !b.cells[i].isMine && !b.cells[i].flagged
    // it reveals the start cell when that is safe, unflagged and hidden
    ensures var s := Idx(b.width, x, y);
      s < |b.cells| &&
      (!b.cells[s].isMine && !b.cells[s].flagged ==> b'.cells[s].revealed)
    // every zero-count cell it reveals ends with no hidden, unflagged, safe neighbour
    ensures ZeroCellsSettled(b.width, b.height, b.cells, b'.cells, [])
    // remaining_safe drops by exactly the number of cells it reveals
    ensures b'.remainingSafe == b.remainingSafe - |NewlyRevealed(b.cells, b'.cells)|
    ensures b'.remainingSafe == |HiddenSafe(b'.cells)|
    // it reveals nothing outside the region the start cell spreads to
    ensures forall S :: Idx(b.width, x, y) in S && SpreadClosed(b.width, b.height, b.cells, b.cells, S) ==>
      NewlyRevealed(b.cells, b'.cells) <= S
    ensures var s := Idx(b.width, x, y);
      s < |b.cells| && b.cells[s].adjacent != 0 ==> NewlyRevealed(b.cells, b'.cells) <= {s}
  {
    var w, h := b.width, b.height;
    var cells, remaining := b.cells, b.remainingSafe;
    var stack := [(x, y)];
    FloodStart(b, x, y);
    while |stack| > 0
      invariant FloodInv(b, x, y, cells, remaining, stack)
      decreases |HiddenSafe(cells)|, |stack|
    {
      var (cx, cy) := stack[|stack| - 1];
      var rest := stack[..|stack| - 1];
      var i := Idx(w, cx, cy);
      IdxDecode(w, h, cx, cy);
      if cells[i].revealed || cells[i].flagged || cells[i].isMine {
        SkipStep(b, x, y, cells, remaining, stack);
        stack := rest;
      } else {
        cells, remaining, stack := RevealTop(b, x, y, cells, remaining, stack);
      }
    }
    b' := b.(cells := cells, remainingSafe := remaining);
    FloodDone(b, x, y, cells, remaining);
  }

  /** The invariant holds with only the start position on the stack and
      nothing revealed yet. */
  lemma FloodStart(b: Board, x: nat, y: nat)
    requires Shaped(b) && x < b.width && y < b.height
    requires b.remainingSafe == |HiddenSafe(b.cells)|
    ensures FloodInv(b, x, y, b.cells, b.remainingSafe, [(x, y)])
  {
    IdxDecode(b.width, b.height, x, y);
    assert NewlyRevealed(b.cells, b.cells) == {};
  }

  /** When the stack is empty, the cells revealed lie inside every closed
      set around the start cell, and inside the start cell alone when its
      count is not zero. */
  lemma FloodDone(b: Board, x: nat, y: nat, cells: seq<Cell>, remaining: nat)
    requires Shaped(b) && x < b.width && y < b.height
    requires FloodInv(b, x, y, cells, remaining, [])
    ensures forall S :: Idx(b.width, x, y) in S && SpreadClosed(b.width, b.height, b.cells, b.cells, S) ==>
      NewlyRevealed(b.cells, cells) <= S
    ensures var s := Idx(b.width, x, y);
      b.cells[s].adjacent != 0 ==> NewlyRevealed(b.cells, cells) <= {s}
  {
    var s := Idx(b.width, x, y);
    if b.cells[s].adjacent != 0 {
      SingletonClosed(b.width, b.height, b.cells, b.cells, s);
    }
  }

  /** One iteration on a safe, hidden, unflagged top position: reveal it,
      decrement remaining_safe while positive, and push its neighbours that
      are neither revealed nor mines when its count is zero. */
  method RevealTop(b: Board, x: nat, y: nat, cells: seq<Cell>, remaining: nat, stack: seq<(nat, nat)>)
    returns (cells': seq<Cell>, remaining': nat, stack': seq<(nat, nat)>)
    requires Shaped(b) && x < b.width && y < b.height
    requires FloodInv(b, x, y, cells, remaining, stack) && |stack| > 0
    requires var (cx, cy) := stack[|stack| - 1]; var i := Idx(b.width, cx, cy);
      i < |cells| && !cells[i].revealed && !cells[i].flagged && !cells[i].isMine
    ensures FloodInv(b, x, y, cells', remaining', stack')
    ensures |HiddenSafe(cells')| < |HiddenSafe(cells)|
    ensures var (cx, cy) := stack[|stack| - 1]; var i := Idx(b.width, cx, cy);
      && cells' == cells[i := cells[i].(revealed := true)]
      && remaining' == remaining - 1
  {
    var w, h := b.width, b.height;
    var (cx, cy) := stack[|stack| - 1];
    var rest := stack[..|stack| - 1];
    var i := Idx(w, cx, cy);
    IdxDecode(w, h, cx, cy);
    RevealOne(b.cells, cells, i);
    cells' := cells[i := cells[i].(revealed := true)];
    remaining' := remaining;
    if remaining > 0 {
      remaining' := remaining - 1;
    }
    stack' := rest;
    if cells[i].adjacent == 0 {
      stack' := PushNeighbors(w, h, cells', rest, cx, cy);
    }
    RevealStep(b, x, y, cells, remaining, stack, stack');
  }

  /** Dropping a position that is already revealed, flagged or a mine keeps
      the invariant. */
  lemma SkipStep(b: Board, x: nat, y: nat, cells: seq<Cell>, remaining: nat, stack: seq<(nat, nat)>)
    requires Shaped(b) && x < b.width && y < b.height
    requires FloodInv(b, x, y, cells, remaining, stack) && |stack| > 0
    requires var (cx, cy) := stack[|stack| - 1]; var i := Idx(b.width, cx, cy);
      i < |cells| && (cells[i].revealed || cells[i].flagged || cells[i].isMine)
    ensures FloodInv(b, x, y, cells, remaining, stack[..|stack| - 1])
  {
    var w, h := b.width, b.height;
    var (cx, cy) := stack[|stack| - 1];
    var rest := stack[..|stack| - 1];
    assert stack == rest + [(cx, cy)];
    IdxDecode(w, h, cx, cy);
    IdxDecode(w, h, x, y);
    forall i, j | 0 <= i < |cells| && 0 <= j < |cells|
      && cells[i].revealed && !b.cells[i].revealed && cells[i].adjacent == 0
      && IsNeighbor(w, h, Col(w, i), Row(w, i), Col(w, j), Row(w, j))
      ensures Covered(w, cells, rest, j)
    {
      assert Covered(w, cells, stack, j);
      if (Col(w, j), Row(w, j)) == (cx, cy) {
        IdxEncode(w, h, j);
      }
    }
  }

  /** The cell at column nx, row ny exists and is neither revealed nor a mine. */
  predicate PushableAt(w: nat, cells: seq<Cell>, nx: nat, ny: nat) {
    Idx(w, nx, ny) < |cells| && !cells[Idx(w, nx, ny)].revealed && !cells[Idx(w, nx, ny)].isMine
  }

  /** The entries of ns that are neither revealed nor a mine, in order. */
  function Pushable(w: nat, cells: seq<Cell>, ns: seq<(nat, nat)>): (ps: seq<(nat, nat)>)
    ensures forall p :: p in ps <==> p in ns && PushableAt(w, cells, p.0, p.1)
  {
    if |ns| == 0 then []
    else
      var init, p := ns[..|ns| - 1], ns[|ns| - 1];
      assert ns == init + [p];
      Pushable(w, cells, init) + (if PushableAt(w, cells, p.0, p.1) then [p] else [])
  }

  /** The neighbour-pushing loop of flood_reveal: push every neighbour of
      (cx, cy) that is neither revealed nor a mine. */
  method PushNeighbors(w: nat, h: nat, cells: seq<Cell>, stack: seq<(nat, nat)>, cx: nat, cy: nat)
    returns (stack': seq<(nat, nat)>)
    requires w > 0 && |cells| == w * h
    requires forall k :: 0 <= k < |stack| ==> stack[k].0 < w && stack[k].1 < h
    ensures forall k :: 0 <= k < |stack'| ==> stack'[k].0 < w && stack'[k].1 < h
    ensures forall p :: p in stack ==> p in stack'
    ensures forall j :: 0 <= j < |cells| && IsNeighbor(w, h, cx, cy, Col(w, j), Row(w, j)) ==>
      (Col(w, j), Row(w, j)) in stack' || cells[j].revealed || cells[j].isMine
    ensures stack' == stack + Pushable(w, cells, Neighbors(w, h, cx, cy))
    ensures forall k :: 0 <= k < |stack'| ==>
      stack'[k] in stack || IsNeighbor(w, h, cx, cy, stack'[k].0, stack'[k].1)
  {
    var ns := Neighbors(w, h, cx, cy);
    stack' := PushAll(w, h, cells, stack, ns);
    forall m | 0 <= m < |stack'|
      ensures stack'[m].0 < w && stack'[m].1 < h
    {
      if m >= |stack| {
        assert stack'[m] in Pushable(w, cells, ns);
        assert stack'[m] in ns;
      }
    }
    PushedCovers(w, h, cells, stack', cx, cy);
  }

  /** The loop over the neighbour list: append, in order, every listed
      position that is neither revealed nor a mine. */
  method PushAll(w: nat, h: nat, cells: seq<Cell>, stack: seq<(nat, nat)>, ns: seq<(nat, nat)>)
    returns (stack': seq<(nat, nat)>)
    requires |cells| == w * h
    requires forall k :: 0 <= k < |ns| ==> ns[k].0 < w && ns[k].1 < h
    ensures stack' == stack + Pushable(w, cells, ns)
  {
    stack' := stack;
    var k := 0;
    while k < |ns|
      invariant k <= |ns|
      invariant stack' == stack + Pushable(w, cells, ns[..k])
    {
      var (nx, ny) := ns[k];
      IdxDecode(w, h, nx, ny);
      var ni := Idx(w, nx, ny);
      assert ns[..k + 1] == ns[..k] + [ns[k]];
      if !cells[ni].revealed && !cells[ni].isMine {
        stack' := stack' + [(nx, ny)];
      }
      k := k + 1;
    }
    assert ns[..k] == ns;
  }

  /** Once every pushable neighbour is on the stack, every neighbour is on
      the stack, revealed or a mine. */
  lemma PushedCovers(w: nat, h: nat, cells: seq<Cell>, stack: seq<(nat, nat)>, cx: nat, cy: nat)
    requires w > 0 && |cells| == w * h
    requires forall p :: p in Pushable(w, cells, Neighbors(w, h, cx, cy)) ==> p in stack
    ensures forall j :: 0 <= j < |cells| && IsNeighbor(w, h, cx, cy, Col(w, j), Row(w, j)) ==>
      (Col(w, j), Row(w, j)) in stack || cells[j].revealed || cells[j].isMine
  {
    var ns := Neighbors(w, h, cx, cy);
    forall j | 0 <= j < |cells| && IsNeighbor(w, h, cx, cy, Col(w, j), Row(w, j))
      ensures (Col(w, j), Row(w, j)) in stack || cells[j].revealed || cells[j].isMine
    {
      IdxEncode(w, h, j);
      assert (Col(w, j), Row(w, j)) in ns;
    }
  }

  /** Revealing the safe hidden unflagged top position, and pushing its
      neighbours when its count is zero, keeps the invariant and hides one
      safe cell fewer. */
  lemma RevealStep(b: Board, x: nat, y: nat, cells: seq<Cell>, remaining: nat,
                   stack: seq<(nat, nat)>, stack': seq<(nat, nat)>)
    requires Shaped(b) && x < b.width && y < b.height
    requires FloodInv(b, x, y, cells, remaining, stack) && |stack| > 0
    requires var (cx, cy) := stack[|stack| - 1]; var i := Idx(b.width, cx, cy);
      && i < |cells| && !cells[i].revealed && !cells[i].flagged && !cells[i].isMine
      && (forall k :: 0 <= k < |stack'| ==> stack'[k].0 < b.width && stack'[k].1 < b.height)
      && (forall p :: p in stack[..|stack| - 1] ==> p in stack')
      && (forall k :: 0 <= k < |stack'| ==>
           (stack'[k] in stack[..|stack| - 1]
            || (cells[i].adjacent == 0 && IsNeighbor(b.width, b.height, cx, cy, stack'[k].0, stack'[k].1))))
      && (cells[i].adjacent == 0 ==>
           forall j :: 0 <= j < |cells| && IsNeighbor(b.width, b.height, cx, cy, Col(b.width, j), Row(b.width, j)) ==>
             (Col(b.width, j), Row(b.width, j)) in stack' || j == i || cells[j].revealed || cells[j].isMine)
    ensures var (cx, cy) := stack[|stack| - 1]; var i := Idx(b.width, cx, cy);
      var cells' := cells[i := cells[i].(revealed := true)];
      && FloodInv(b, x, y, cells', if remaining > 0 then remaining - 1 else remaining, stack')
      && |HiddenSafe(cells')| < |HiddenSafe(cells)|
  {
    var w, h := b.width, b.height;
    var (cx, cy) := stack[|stack| - 1];
    var rest := stack[..|stack| - 1];
    assert stack == rest + [(cx, cy)];
    IdxDecode(w, h, cx, cy);
    IdxDecode(w, h, x, y);
    var i0 := Idx(w, cx, cy);
    var c' := cells[i0 := cells[i0].(revealed := true)];
    RevealOne(b.cells, cells, i0);
    forall i, j | 0 <= i < |c'| && 0 <= j < |c'|
      && c'[i].revealed && !b.cells[i].revealed && c'[i].adjacent == 0
      && IsNeighbor(w, h, Col(w, i), Row(w, i), Col(w, j), Row(w, j))
      ensures Covered(w, c', stack', j)
    {
      IdxEncode(w, h, j);
      if i == i0 {
        assert Col(w, i) == cx && Row(w, i) == cy;
      } else {
        assert Covered(w, cells, stack, j);
        if (Col(w, j), Row(w, j)) == (cx, cy) {
          assert j == i0;
        }
      }
    }
    SpreadStep(b, x, y, cells, stack, stack');
  }

  /** Revealing the top position and pushing only its neighbours, and only
      when its count is zero, stays inside every closed set around the
      start cell. */
  lemma SpreadStep(b: Board, x: nat, y: nat, cells: seq<Cell>, stack: seq<(nat, nat)>,
                   stack': seq<(nat, nat)>)
    requires Shaped(b) && x < b.width && y < b.height && |cells| == |b.cells| && |stack| > 0
    requires forall i :: 0 <= i < |cells| ==> cells[i] == b.cells[i].(revealed := cells[i].revealed)
    requires forall i :: 0 <= i < |cells| && b.cells[i].revealed ==> cells[i].revealed
    requires forall k :: 0 <= k < |stack| ==> stack[k].0 < b.width && stack[k].1 < b.height
    requires WithinSpread(b.width, b.height, b.cells, cells, Idx(b.width, x, y), stack)
    requires var (cx, cy) := stack[|stack| - 1]; var i := Idx(b.width, cx, cy);
      && i < |cells| && !cells[i].revealed && !cells[i].flagged && !cells[i].isMine
      && (forall k :: 0 <= k < |stack'| ==>
           (stack'[k] in stack[..|stack| - 1]
            || (cells[i].adjacent == 0 && IsNeighbor(b.width, b.height, cx, cy, stack'[k].0, stack'[k].1))))
    ensures var (cx, cy) := stack[|stack| - 1]; var i := Idx(b.width, cx, cy);
      WithinSpread(b.width, b.height, b.cells, cells[i := cells[i].(revealed := true)], Idx(b.width, x, y), stack')
  {
    var w, h := b.width, b.height;
    var (cx, cy) := stack[|stack| - 1];
    var i0 := Idx(w, cx, cy);
    var c' := cells[i0 := cells[i0].(revealed := true)];
    assert NewlyRevealed(b.cells, c') <= NewlyRevealed(b.cells, cells) + {i0};
    assert b.cells[i0] == cells[i0].(revealed := b.cells[i0].revealed);
    forall S | Idx(w, x, y) in S && SpreadClosed(w, h, b.cells, b.cells, S)
      ensures NewlyRevealed(b.cells, c') <= S
      ensures forall k :: 0 <= k < |stack'| ==> Idx(w, stack'[k].0, stack'[k].1) in S
    {
      SpreadPush(w, h, b.cells, S, stack, stack');
    }
  }

  /** For one closed set S holding every stacked position: the positions
      that replace the top one (the rest of the stack, and the neighbours of
      a hidden safe unflagged zero) stay in S. */
  lemma SpreadPush(w: nat, h: nat, cells0: seq<Cell>, S: set<nat>, stack: seq<(nat, nat)>,
                   stack': seq<(nat, nat)>)
    requires w > 0 && |cells0| == w * h && |stack| > 0
    requires SpreadClosed(w, h, cells0, cells0, S)
    requires forall k :: 0 <= k < |stack| ==>
      stack[k].0 < w && stack[k].1 < h && Idx(w, stack[k].0, stack[k].1) in S
    requires var (cx, cy) := stack[|stack| - 1]; var i := Idx(w, cx, cy);
      && i < |cells0| && !cells0[i].revealed && !cells0[i].flagged && !cells0[i].isMine
      && (forall k :: 0 <= k < |stack'| ==>
           (stack'[k] in stack[..|stack| - 1]
            || (cells0[i].adjacent == 0 && IsNeighbor(w, h, cx, cy, stack'[k].0, stack'[k].1))))
    ensures forall k :: 0 <= k < |stack'| ==> Idx(w, stack'[k].0, stack'[k].1) in S
  {
    var (cx, cy) := stack[|stack| - 1];
    var i0 := Idx(w, cx, cy);
    IdxDecode(w, h, cx, cy);
    forall k | 0 <= k < |stack'|
      ensures Idx(w, stack'[k].0, stack'[k].1) in S
    {
      if stack'[k] in stack[..|stack| - 1] {
        var m :| 0 <= m < |stack| - 1 && stack[m] == stack'[k];
      } else {
        var (nx, ny) := stack'[k];
        IdxDecode(w, h, nx, ny);
        assert IsNeighbor(w, h, Col(w, i0), Row(w, i0), Col(w, Idx(w, nx, ny)), Row(w, Idx(w, nx, ny)));
      }
    }
  }

}
