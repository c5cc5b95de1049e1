/** Row-major cell addressing and the clipped 8-neighbourhood
    (src/engine.rs, idx and neighbors). */
module Grid {
  import opened Seqs

  /** idx: the flat position of column x, row y on a board w cells wide. */
  function Idx(w: nat, x: nat, y: nat): (i: nat)
    ensures x < w ==> y * w <= i < y * w + w
  {
    y * w + x
  }

  /** Column and row of a flat position, the inverse of Idx. */
  function Col(w: nat, i: nat): nat
    requires w > 0
  {
    i % w
  }

  function Row(w: nat, i: nat): nat
    requires w > 0
  {
    i / w
  }

  /** A column/row pair inside the grid addresses a cell of the flat vector,
      and Col/Row recover the pair. */
  lemma IdxDecode(w: nat, h: nat, x: nat, y: nat)
    requires x < w && y < h
    ensures Idx(w, x, y) < w * h
    ensures Col(w, Idx(w, x, y)) == x && Row(w, Idx(w, x, y)) == y
  {
    var i := y * w + x;
    assert i < (y + 1) * w by {
      assert (y + 1) * w == y * w + w;
    }
    assert (y + 1) * w <= h * w by {
      MulMonotone(y + 1, h, w);
    }
    DivModUnique(w, i, y, x);
  }

  /** Every flat position of the grid is Idx of its column and row. */
  lemma IdxEncode(w: nat, h: nat, i: nat)
    requires w > 0 && i < w * h
    ensures Col(w, i) < w && Row(w, i) < h
    ensures Idx(w, Col(w, i), Row(w, i)) == i
  {
    var q, r := i / w, i % w;
    assert i == q * w + r;
    if q >= h {
      MulMonotone(h, q, w);
      assert false;
    }
  }

  lemma MulMonotone(a: nat, b: nat, c: nat)
    requires a <= b
    ensures a * c <= b * c
  {
  }

  lemma DivModUnique(w: nat, i: nat, q: nat, r: nat)
    requires w > 0 && r < w && i == q * w + r
    ensures i / w == q && i % w == r
  {
    var q', r' := i / w, i % w;
    assert i == q' * w + r';
    if q' < q {
      assert (q' + 1) * w <= q * w by { MulMonotone(q' + 1, q, w); }
      assert false;
    } else if q' > q {
      assert (q + 1) * w <= q' * w by { MulMonotone(q + 1, q', w); }
      assert false;
    }
  }

  function Dist(a: nat, b: nat): nat
  {
    if a <= b then b - a else a - b
  }

  /** The reference notion of adjacency: a different cell of the grid at
      most one step away on each axis. */
  predicate IsNeighbor(w: nat, h: nat, x: nat, y: nat, nx: nat, ny: nat)
  {
    nx < w && ny < h && Dist(x, nx) <= 1 && Dist(y, ny) <= 1 && (nx != x || ny != y)
  }

  /** The offsets in the order neighbors visits them: dy outer, dx inner,
      each from -1 to 1, skipping (0, 0). */
  const Offsets: seq<(int, int)> :=
    [(-1, -1), (0, -1), (1, -1), (-1, 0), (1, 0), (-1, 1), (0, 1), (1, 1)]

  lemma OffsetsSpec(dx: int, dy: int)
    ensures (dx, dy) in Offsets <==> -1 <= dx <= 1 && -1 <= dy <= 1 && (dx != 0 || dy != 0)
  {
    if -1 <= dx <= 1 && -1 <= dy <= 1 && (dx != 0 || dy != 0) {
      var k := (dy + 1) * 3 + (dx + 1);
      var k' := if k < 4 then k else k - 1;
      assert Offsets[k'] == (dx, dy);
    }
  }

  lemma OffsetsDistinct()
    ensures Distinct(Offsets)
  {
  }

  /** The offsets ds applied to (x, y), keeping the results that stay inside
      the grid, in order. */
  function Clip(w: nat, h: nat, x: nat, y: nat, ds: seq<(int, int)>): (ns: seq<(nat, nat)>)
    ensures |ns| <= |ds|
    ensures forall p :: p in ns ==> p.0 < w && p.1 < h && (p.0 - x, p.1 - y) in ds
    ensures Distinct(ds) ==> Distinct(ns)
  {
    if |ds| == 0 then []
    else
      var px, py := x + ds[0].0, y + ds[0].1;
      var rest := Clip(w, h, x, y, ds[1..]);
      if 0 <= px < w && 0 <= py < h then
        assert Distinct(ds) ==> ds[0] !in ds[1..];
        [(px, py)] + rest
      else rest
  }

  /** An in-grid position is kept exactly when its offset from (x, y) is one
      of the offsets. */
  lemma {:induction false} ClipMember(w: nat, h: nat, x: nat, y: nat, ds: seq<(int, int)>, nx: nat, ny: nat)
    ensures (nx, ny) in Clip(w, h, x, y, ds) <==> nx < w && ny < h && (nx - x, ny - y) in ds
  {
    if |ds| > 0 {
      ClipMember(w, h, x, y, ds[1..], nx, ny);
      assert (nx - x, ny - y) in ds <==> (nx - x, ny - y) == ds[0] || (nx - x, ny - y) in ds[1..];
    }
  }

  lemma NeighborMember(w: nat, h: nat, x: nat, y: nat, nx: nat, ny: nat)
    ensures (nx, ny) in Clip(w, h, x, y, Offsets) <==> IsNeighbor(w, h, x, y, nx, ny)
  {
    ClipMember(w, h, x, y, Offsets, nx, ny);
    OffsetsSpec(nx - x, ny - y);
  }

  /** neighbors: the in-grid cells around (x, y), in the source's order. */
  function Neighbors(w: nat, h: nat, x: nat, y: nat): (ns: seq<(nat, nat)>)
    ensures |ns| <= 8
    ensures Distinct(ns)
    ensures forall nx: nat, ny: nat :: (nx, ny) in ns <==> IsNeighbor(w, h, x, y, nx, ny)
    ensures forall p :: p in ns ==> p.0 < w && p.1 < h
  {
    var ns := Clip(w, h, x, y, Offsets);
    OffsetsDistinct();
    forall nx: nat, ny: nat
      ensures (nx, ny) in ns <==> IsNeighbor(w, h, x, y, nx, ny)
    {
      NeighborMember(w, h, x, y, nx, ny);
    }
    ns
  }
}
