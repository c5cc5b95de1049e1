/** The screen geometry of the terminal front end (src/tui.rs,
    centered_grid_area, inner_area and pos_to_cell): placing the board in a
    rectangle of the terminal and mapping a mouse position back to a cell.
    All arithmetic is on u16. */
module Tui {
  import opened Wrappers

  /** Rust's u16. */
  newtype U16 = x: int | 0 <= x < 0x1_0000

  const U16Max: int := 0xFFFF

  /** ratatui's Rect: top-left corner and size, in terminal cells. */
  datatype Rect = Rect(x: U16, y: U16, width: U16, height: U16)

  function Min(a: int, b: int): int
  {
    if a <= b then a else b
  }

  /** u16::saturating_add: the sum, clamped at the largest u16. */
  function SatAdd(a: U16, b: U16): (r: U16)
    ensures a <= r
    ensures a as int + b as int <= U16Max ==> r as int == a as int + b as int
    ensures a as int + b as int > U16Max ==> r as int == U16Max
  {
    if a as int + b as int <= U16Max then a + b else U16Max as U16
  }

  /** u16::saturating_sub: the difference, clamped at zero. */
  function SatSub(a: U16, b: U16): (r: U16)
    ensures r <= a
    ensures b <= a ==> r as int == a as int - b as int
    ensures a < b ==> r == 0
  {
    if b <= a then a - b else 0
  }

  /** A u16 product as a release build computes it: modulo 2^16. */
  function WrapMul(a: U16, k: nat): (r: U16)
    ensures a as int * k <= U16Max ==> r as int == a as int * k
    ensures (r as int - a as int * k) % 0x1_0000 == 0
  {
    ((a as int * k) % 0x1_0000) as U16
  }

  /** The point (px, py) lies in rectangle r. */
  predicate InRect(r: Rect, px: U16, py: U16)
  {
    r.x <= px && px as int < r.x as int + r.width as int
    && r.y <= py && py as int < r.y as int + r.height as int
  }

  /** Columns of screen used by one board cell: its glyph and a space. */
  const CellWidth: U16 := 2

  /** centered_grid_area: a rectangle two columns per board column and one
      row per board row, centered in parent and cut to its size. */
  function CenteredGridArea(parent: Rect, cols: U16, rows: U16): (r: Rect)
    // grid size: the grid, cut to the parent
    ensures cols as int * 2 <= U16Max ==> r.width as int == Min(2 * cols as int, parent.width as int)
    ensures r.height as int == Min(rows as int, parent.height as int)
    // grid placement: never left of or above the parent
    ensures parent.x <= r.x && parent.y <= r.y
    // a grid that fits a parent clear of the u16 edge stays inside it
    ensures cols as int * 2 <= parent.width as int && parent.x as int + parent.width as int <= U16Max ==>
      r.x as int + r.width as int <= parent.x as int + parent.width as int
    ensures rows <= parent.height && parent.y as int + parent.height as int <= U16Max ==>
      r.y as int + r.height as int <= parent.y as int + parent.height as int
  {
    var gridW := WrapMul(cols, CellWidth as nat);
    var gridH := WrapMul(rows, 1);
    var x := SatAdd(parent.x, SatSub(parent.width, gridW) / 2);
    var y := SatAdd(parent.y, SatSub(parent.height, gridH) / 2);
    Rect(x, y, Min(gridW as int, parent.width as int) as U16, Min(gridH as int, parent.height as int) as U16)
  }

  /** A grid that fits is centered: the margin on its left is half the spare
      width rounded down, so the margins on either side differ by at most
      one column; likewise for rows. */
  lemma CenteredMargins(parent: Rect, cols: U16, rows: U16)
    requires cols as int * 2 <= parent.width as int && parent.x as int + parent.width as int <= U16Max
    requires rows <= parent.height && parent.y as int + parent.height as int <= U16Max
    ensures var r := CenteredGridArea(parent, cols, rows);
      var left, right := r.x as int - parent.x as int, parent.x as int + parent.width as int - (r.x as int + r.width as int);
      var top, bottom := r.y as int - parent.y as int, parent.y as int + parent.height as int - (r.y as int + r.height as int);
      && r.width as int == 2 * cols as int && r.height == rows
      && left <= right <= left + 1
      && top <= bottom <= top + 1
  {
  }

  /** inner_area: the rectangle inside a one-cell border, every step
      saturating. */
  function InnerArea(area: Rect): (r: Rect)
    ensures area.x as int < U16Max ==> r.x as int == area.x as int + 1
    ensures area.x as int == U16Max ==> r.x == area.x
    ensures area.y as int < U16Max ==> r.y as int == area.y as int + 1
    ensures area.y as int == U16Max ==> r.y == area.y
    ensures r.width as int == if area.width < 2 then 0 else area.width as int - 2
    ensures r.height as int == if area.height < 2 then 0 else area.height as int - 2
  {
    Rect(SatAdd(area.x, 1), SatAdd(area.y, 1), SatSub(area.width, 2), SatSub(area.height, 2))
  }

  /** The inner rectangle of an area clear of the u16 edge lies inside it,
      one cell in from every side. */
  lemma InnerInside(area: Rect, px: U16, py: U16)
    requires area.x as int + area.width as int <= U16Max && area.y as int + area.height as int <= U16Max
    requires InRect(InnerArea(area), px, py)
    ensures InRect(area, px, py)
    ensures area.x < px && px as int + 1 < area.x as int + area.width as int
    ensures area.y < py && py as int + 1 < area.y as int + area.height as int
  {
  }

  /** pos_to_cell: the board cell under the mouse at (mx, my), measuring
      from the top-left of inner at two columns per cell; None left of or
      above inner, or past the last column or row of the board. */
  function PosToCell(mx: U16, my: U16, inner: Rect, cols: U16, rows: U16): (r: Option<(U16, U16)>)
    ensures mx < inner.x || my < inner.y ==> r.None?
    ensures r.Some? ==> r.value.0 < cols && r.value.1 < rows
    ensures r.Some? ==>
      && inner.x as int + 2 * r.value.0 as int <= mx as int <= inner.x as int + 2 * r.value.0 as int + 1
      && my as int == inner.y as int + r.value.1 as int
  {
    if mx < inner.x || my < inner.y then None
    else
      var relX, relY := mx - inner.x, my - inner.y;
      var cx, cy := relX / CellWidth, relY / 1;
      if cx < cols && cy < rows then Some((cx, cy)) else None
  }

  /** Round trip: both screen columns of cell (c, r) map back to it. */
  lemma PosToCellRoundTrip(inner: Rect, cols: U16, rows: U16, c: U16, r: U16, dx: U16)
    requires c < cols && r < rows && dx < CellWidth
    requires inner.x as int + 2 * c as int + dx as int <= U16Max
    requires inner.y as int + r as int <= U16Max
    ensures PosToCell((inner.x as int + 2 * c as int + dx as int) as U16,
                      (inner.y as int + r as int) as U16, inner, cols, rows) == Some((c, r))
  {
  }

  /** Conversely, a position maps to a cell exactly when it is one of that
      cell's two screen columns in its screen row. */
  lemma PosToCellExactly(mx: U16, my: U16, inner: Rect, cols: U16, rows: U16)
    ensures PosToCell(mx, my, inner, cols, rows).Some? <==>
      && inner.x <= mx && inner.y <= my
      && (mx as int - inner.x as int) / 2 < cols as int
      && my as int - inner.y as int < rows as int
  {
  }

  /** As written, the board area has no room for its border: inside the
      border of a 9x9 board centered in an 80x24 parent only 7 rows and 16
      columns remain, and a click on the bottom border still maps to row 7,
      which is drawn outside the visible inner area. */
  lemma BorderClickAsWritten()
    ensures var area := CenteredGridArea(Rect(0, 0, 80, 24), 9, 9);
      var inner := InnerArea(area);
      && area == Rect(31, 7, 18, 9)
      && inner == Rect(32, 8, 16, 7)
      && inner.height < 9 && inner.width < 18
      && PosToCell(32, 15, inner, 9, 9) == Some((0, 7))
      && !InRect(inner, 32, 15)
  {
  }

  /** The area the border needs: the grid plus one cell on every side,
      centered like centered_grid_area. */
  function BorderedGridArea(parent: Rect, cols: U16, rows: U16): (r: Rect)
    ensures parent.x <= r.x && parent.y <= r.y
  {
    var gridW := SatAdd(WrapMul(cols, CellWidth as nat), 2);
    var gridH := SatAdd(rows, 2);
    var x := SatAdd(parent.x, SatSub(parent.width, gridW) / 2);
    var y := SatAdd(parent.y, SatSub(parent.height, gridH) / 2);
    Rect(x, y, Min(gridW as int, parent.width as int) as U16, Min(gridH as int, parent.height as int) as U16)
  }

  /** With the border reserved and a parent that holds it, the inner area is
      exactly the board's size, and a position maps to a cell exactly when
      it lies inside the inner area. */
  lemma BorderedGridExact(parent: Rect, cols: U16, rows: U16, mx: U16, my: U16)
    requires 2 * cols as int + 2 <= parent.width as int && parent.x as int + parent.width as int <= U16Max
    requires rows as int + 2 <= parent.height as int && parent.y as int + parent.height as int <= U16Max
    ensures var area := BorderedGridArea(parent, cols, rows);
      var inner := InnerArea(area);
      && inner.width as int == 2 * cols as int && inner.height == rows
      && area.x as int + area.width as int <= parent.x as int + parent.width as int
      && area.y as int + area.height as int <= parent.y as int + parent.height as int
      && (PosToCell(mx, my, inner, cols, rows).Some? <==> InRect(inner, mx, my))
  {
    var area := BorderedGridArea(parent, cols, rows);
    var inner := InnerArea(area);
    PosToCellExactly(mx, my, inner, cols, rows);
  }
}
