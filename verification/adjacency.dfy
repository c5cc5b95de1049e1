/** Counting the mines around each safe cell once placement is done
    (src/engine.rs, compute_adjacency). */
module Adjacency {
  import opened Seqs
  import opened Grid
  import opened State

  /** How many of the positions ns hold a mine, counted front to back. */
  function CountMines(w: nat, cells: seq<Cell>, ns: seq<(nat, nat)>): (n: nat)
    ensures n <= |ns|
  {
    if |ns| == 0 then 0
    else
      var p := ns[|ns| - 1];
      CountMines(w, cells, ns[..|ns| - 1]) + (if MineAt(w, cells, p.0, p.1) then 1 else 0)
  }

  /** Counting a list without repeats counts its set of mine positions. */
  lemma {:induction false} CountIsCard(w: nat, cells: seq<Cell>, ns: seq<(nat, nat)>)
    requires Distinct(ns)
    ensures CountMines(w, cells, ns) == |set p | p in ns && MineAt(w, cells, p.0, p.1)|
  {
    if |ns| > 0 {
      var t, p := ns[..|ns| - 1], ns[|ns| - 1];
      CountIsCard(w, cells, t);
      var st := set q | q in t && MineAt(w, cells, q.0, q.1);
      var sn := set q | q in ns && MineAt(w, cells, q.0, q.1);
      assert p !in t;
      assert ns == t + [p];
      if MineAt(w, cells, p.0, p.1) {
        assert sn == st + {p};
      } else {
        assert sn == st;
      }
    }
  }

  /** The count over neighbors equals the reference mine count, which is
      therefore at most eight. */
  lemma NeighborCountIsMineNeighbors(w: nat, h: nat, cells: seq<Cell>, x: nat, y: nat)
    ensures CountMines(w, cells, Neighbors(w, h, x, y)) == |MineNeighbors(w, h, cells, x, y)|
    ensures |MineNeighbors(w, h, cells, x, y)| <= 8
  {
    var ns := Neighbors(w, h, x, y);
    CountIsCard(w, cells, ns);
    var s := set p | p in ns && MineAt(w, cells, p.0, p.1);
    forall p: (nat, nat)
      ensures p in s <==> p in MineNeighbors(w, h, cells, x, y)
    {
      assert p == (p.0, p.1);
    }
    assert s == MineNeighbors(w, h, cells, x, y);
  }

  /** The mine count around a cell depends only on the mine bits. */
  lemma MineNeighborsSameMines(w: nat, h: nat, a: seq<Cell>, b: seq<Cell>, x: nat, y: nat)
    requires |a| == |b|
    requires forall i :: 0 <= i < |a| ==> a[i].isMine == b[i].isMine
    ensures MineNeighbors(w, h, a, x, y) == MineNeighbors(w, h, b, x, y)
  {
    assert forall nx: nat, ny: nat :: MineAt(w, a, nx, ny) == MineAt(w, b, nx, ny);
  }

  /** The inner loop of compute_adjacency: count the mines among the
      neighbours of (x, y) in a u8 that cannot overflow. */
  method CountAround(w: nat, h: nat, cells: seq<Cell>, x: nat, y: nat) returns (count: U8)
    requires |cells| == w * h
    ensures count as int == |MineNeighbors(w, h, cells, x, y)|
  {
    var ns := Neighbors(w, h, x, y);
    count := CountListed(w, h, cells, ns);
    NeighborCountIsMineNeighbors(w, h, cells, x, y);
  }

  /** Count, in a u8, the mines at the listed in-grid positions (at most
      eight of them). */
  method CountListed(w: nat, h: nat, cells: seq<Cell>, ns: seq<(nat, nat)>) returns (count: U8)
    requires |cells| == w * h && |ns| <= 8
    requires forall k :: 0 <= k < |ns| ==> ns[k].0 < w && ns[k].1 < h
    ensures count as int == CountMines(w, cells, ns)
  {
    count := 0;
    var k := 0;
    while k < |ns|
      invariant k <= |ns|
      invariant count as int == CountMines(w, cells, ns[..k])
    {
      var (nx, ny) := ns[k];
      IdxDecode(w, h, nx, ny);
      CountMinesStep(w, cells, ns, k);
      if cells[Idx(w, nx, ny)].isMine {
        count := count + 1;
      }
      k := k + 1;
    }
    assert ns[..k] == ns;
  }

  /** Counting one more neighbour adds one exactly when it holds a mine. */
  lemma CountMinesStep(w: nat, cells: seq<Cell>, ns: seq<(nat, nat)>, k: nat)
    requires k < |ns|
    ensures CountMines(w, cells, ns[..k + 1])
      == CountMines(w, cells, ns[..k]) + (if MineAt(w, cells, ns[k].0, ns[k].1) then 1 else 0)
  {
    assert ns[..k + 1][..k] == ns[..k];
  }

  /** compute_adjacency: row by row, store in every safe cell the number of
      mines among its neighbours; mine cells keep their value. */
  method ComputeAdjacency(w: nat, h: nat, cells: seq<Cell>) returns (c: seq<Cell>)
    requires w > 0 && h > 0 && |cells| == w * h
    ensures |c| == |cells|
    ensures forall i :: 0 <= i < |c| ==>
      && c[i].isMine == cells[i].isMine
      && c[i].revealed == cells[i].revealed
      && c[i].flagged == cells[i].flagged
    ensures forall i :: 0 <= i < |c| && cells[i].isMine ==> c[i] == cells[i]
    ensures AdjacencyCorrect(w, h, c)
  {
    c := cells;
    var y := 0;
    while y < h
      invariant y <= h && |c| == |cells|
      invariant forall i :: 0 <= i < |c| ==>
        c[i] == cells[i].(adjacent := c[i].adjacent)
      invariant forall i :: 0 <= i < |c| && (y * w <= i || cells[i].isMine) ==> c[i] == cells[i]
      invariant forall i :: 0 <= i < |c| && i < y * w && !cells[i].isMine ==>
        c[i].adjacent as int == |MineNeighbors(w, h, cells, Col(w, i), Row(w, i))|
    {
      var x := 0;
      while x < w
        invariant x <= w && |c| == |cells|
        invariant forall i :: 0 <= i < |c| ==>
          c[i] == cells[i].(adjacent := c[i].adjacent)
        invariant forall i :: 0 <= i < |c| && (y * w + x <= i || cells[i].isMine) ==> c[i] == cells[i]
        invariant forall i :: 0 <= i < |c| && i < y * w + x && !cells[i].isMine ==>
          c[i].adjacent as int == |MineNeighbors(w, h, cells, Col(w, i), Row(w, i))|
      {
        var i0 := Idx(w, x, y);
        IdxDecode(w, h, x, y);
        if !c[i0].isMine {
          var count := CountAround(w, h, cells, x, y);
          c := c[i0 := c[i0].(adjacent := count)];
        }
        x := x + 1;
      }
      assert y * w + w == (y + 1) * w;
      y := y + 1;
    }
    forall i | 0 <= i < |c| && !c[i].isMine
      ensures c[i].adjacent as int == |MineNeighbors(w, h, c, Col(w, i), Row(w, i))|
    {
      MineNeighborsSameMines(w, h, c, cells, Col(w, i), Row(w, i));
    }
  }
}
