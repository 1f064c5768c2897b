/** The choice of tile centres in src/mapnik.cpp: snapping to a lattice, with hysteresis. */
module MapnikTiles {
  import opened Common
  import opened Reals
  import opened Projection
  import View

  const WIDTH := 1280
  const HEIGHT := 1024

  /** Metres per pixel at a scale. */
  function Resolution(scale: real): real {
    scale * PIXEL_SIZE
  }

  /** One axis of the snapping formula; extent is WidthInt or HeightInt reduced by 512. */
  function Snap(x: real, extent: int, res: real): real
    requires extent >= 2 && res > 0.0
  {
    PositiveProduct(extent as real, res);
    var cell, half := Times(extent as real, res), Times((extent / 2) as real, res);
    Times(cell, Trunc(Over(x, cell)) as real) + (if x < 0.0 then -half else half)
  }

  /** The position has left the inner part of the current tile. */
  predicate OffTile(center: Point, border: int, res: real, pt: Point) {
    || center.x + (0.5 * WIDTH as real - border as real) * res < pt.x
    || center.x - (0.5 * WIDTH as real - border as real) * res > pt.x
    || center.y + (0.5 * HEIGHT as real - border as real) * res < pt.y
    || center.y - (0.5 * HEIGHT as real - border as real) * res > pt.y
  }

  /** The lattice point that a position is snapped to. */
  function Lattice(scale: real, pt: Point): Point
    requires scale > 0.0
  {
    PositiveProduct(scale, PIXEL_SIZE);
    var res := Resolution(scale);
    Point(Snap(pt.x, WIDTH - 2 * 256, res), Snap(pt.y, HEIGHT - 2 * 256, res))
  }

  /** get_best_tile_center: scale is NewScaleDbl, center is CenterPt. */
  function BestTileCenter(center: Point, scale: real, border: int, pt: Point, force: bool): Point
    requires scale > 0.0
  {
    if OffTile(center, border, Resolution(scale), pt) || force then Lattice(scale, pt) else center
  }

  // ---------------------------------------------------------------- the lattice

  /** Index of the cell of x on the lattice of odd multiples of half a cell. */
  function Cell(x: real, half: real): (m: int)
    requires half > 0.0
    ensures m % 2 == 1
  {
    var k := Trunc(Over(x, 2.0 * half));
    if x < 0.0 then 2 * k - 1 else 2 * k + 1
  }

  /** x lies in cell m: cells are closed on the side nearer to zero, except that zero belongs to cell 1. */
  predicate InCell(x: real, half: real, m: int) {
    if x < 0.0 then Times((m - 1) as real, half) < x <= Times((m + 1) as real, half)
    else Times((m - 1) as real, half) <= x < Times((m + 1) as real, half)
  }

  lemma OverSign(x: real, c: real)
    requires c > 0.0
    ensures x < 0.0 <==> Over(x, c) < 0.0
  {
    hide Over;
    var q := Over(x, c);
    OverTimes(x, c);
    Scale(c, q, 0.0);
    Scale(c, 0.0, q);
    TimesSigns(0.0, c);
  }

  lemma TwoHalves(k: int, half: real)
    ensures Times(k as real, 2.0 * half) == Times((2 * k) as real, half)
  {
  }

  lemma {:induction false} CellHoldsPosition(x: real, half: real)
    requires half > 0.0
    ensures InCell(x, half, Cell(x, half))
  {
    hide Times, Over, Trunc;
    var c := 2.0 * half;
    var q := Over(x, c);
    var k := Trunc(q);
    OverSign(x, c);
    OverTimes(x, c);
    TwoHalves(k, half);
    TwoHalves(k + 1, half);
    TwoHalves(k - 1, half);
    TruncBounds(q);
    if x < 0.0 {
      Scale(c, (k - 1) as real, q);
      Scale(c, q, k as real);
    } else {
      Scale(c, k as real, q);
      Scale(c, q, (k + 1) as real);
    }
  }

  lemma TruncBounds(q: real)
    ensures q >= 0.0 ==> Trunc(q) as real <= q < (Trunc(q) + 1) as real
    ensures q <= 0.0 ==> (Trunc(q) - 1) as real < q <= Trunc(q) as real
  {
  }

  lemma CellIsTwoHalves(extent: int, res: real)
    requires extent >= 2 && extent % 2 == 0 && res > 0.0
    ensures var half := Times((extent / 2) as real, res); half > 0.0 && Times(extent as real, res) == 2.0 * half
  {
    PositiveProduct((extent / 2) as real, res);
    assert extent as real == 2.0 * (extent / 2) as real;
  }

  /** Snapping goes to the odd multiple of half a cell that belongs to the position's cell. */
  lemma SnapIsCellCentre(x: real, extent: int, res: real)
    requires extent >= 2 && extent % 2 == 0 && res > 0.0
    ensures var half := Times((extent / 2) as real, res);
      half > 0.0 && Snap(x, extent, res) == Times(Cell(x, half) as real, half)
  {
    CellIsTwoHalves(extent, res);
    hide Times, Over, Trunc;
    var half := Times((extent / 2) as real, res);
    var k := Trunc(Over(x, 2.0 * half));
    TimesOrder(2.0 * half, k as real, 0.0);
    TwoHalves(k, half);
    Distribute((2 * k) as real, 1.0, half);
    One(half);
  }

  lemma One(half: real)
    ensures Times(1.0, half) == half
  {
  }

  /** A position is within half a cell of its cell's centre. */
  lemma NearCentre(x: real, half: real, m: int)
    requires half > 0.0 && InCell(x, half, m)
    ensures -half <= x - Times(m as real, half) <= half
  {
    hide Times;
    Distribute(m as real, 1.0, half);
    One(half);
  }

  lemma CellSign(x: real, half: real)
    requires half > 0.0
    ensures x < 0.0 <==> Cell(x, half) < 0
  {
    hide Over;
    OverSign(x, 2.0 * half);
  }

  /** Cells with different indices are disjoint, so a position lies in exactly one. */
  lemma CellsAreDisjoint(x: real, half: real, m: int)
    requires half > 0.0 && m % 2 == 1
    ensures InCell(x, half, m) <==> Cell(x, half) == m
  {
    var n := Cell(x, half);
    CellHoldsPosition(x, half);
    CellSign(x, half);
    if InCell(x, half, m) { CellSide(x, half, m); }
    if InCell(x, half, m) && m != n {
      hide Times;
      if m < n {
        Scale(half, (m + 1) as real, (n - 1) as real);
      } else {
        Scale(half, (n + 1) as real, (m - 1) as real);
      }
      assert false;
    }
  }

  /** No position is in a cell on the other side of zero. */
  lemma CellSide(x: real, half: real, m: int)
    requires half > 0.0 && m % 2 == 1 && InCell(x, half, m)
    ensures x < 0.0 <==> m < 0
  {
    hide Times;
    TimesSigns(0.0, half);
    Scale(half, 0.0, (m - 1) as real);
    Scale(half, (m + 1) as real, 0.0);
  }

  /** Two positions get the same coordinate exactly when they lie in the same cell. */
  lemma SameCentreSameCell(x: real, y: real, extent: int, res: real)
    requires extent >= 2 && extent % 2 == 0 && res > 0.0
    ensures var half := Times((extent / 2) as real, res);
      half > 0.0 && (Snap(x, extent, res) == Snap(y, extent, res) <==> Cell(x, half) == Cell(y, half))
  {
    var half := Times((extent / 2) as real, res);
    SnapIsCellCentre(x, extent, res);
    SnapIsCellCentre(y, extent, res);
    hide Times, Snap;
    var m, n := Cell(x, half) as real, Cell(y, half) as real;
    Scale(half, m, n);
    Scale(half, n, m);
  }

  /** A re-centred tile is within 384 and 256 pixels of the position. */
  lemma SnapIsNear(x: real, extent: int, res: real)
    requires extent >= 2 && extent % 2 == 0 && res > 0.0
    ensures var half := (extent / 2) as real * res; -half <= x - Snap(x, extent, res) <= half
  {
    var half := Times((extent / 2) as real, res);
    SnapIsCellCentre(x, extent, res);
    CellHoldsPosition(x, half);
    NearCentre(x, half, Cell(x, half));
  }

  // ---------------------------------------------------------------- hysteresis

  lemma WithinInnerPart(d: real, half: int, extent: int, border: int, res: real)
    requires res > 0.0 && border <= extent - half
    requires -(half as real * res) <= d <= half as real * res
    ensures var inner := (extent as real - border as real) * res; -inner <= d <= inner
  {
    assert half as real * res == Times(half as real, res);
    assert (extent as real - border as real) * res == Times(extent as real - border as real, res);
    Scale(res, half as real, extent as real - border as real);
  }

  /** With a border of at most 256 pixels, a re-centred tile is kept by the next unforced call at that position. */
  lemma RecentredIsKept(scale: real, border: int, pt: Point, center: Point)
    requires scale > 0.0 && border <= 256
    ensures var tile := BestTileCenter(center, scale, border, pt, true);
      && BestTileCenter(tile, scale, border, pt, false) == tile
      && -384.0 * Resolution(scale) <= pt.x - tile.x <= 384.0 * Resolution(scale)
      && -256.0 * Resolution(scale) <= pt.y - tile.y <= 256.0 * Resolution(scale)
  {
    var res := Resolution(scale);
    PositiveProduct(scale, PIXEL_SIZE);
    var tile := BestTileCenter(center, scale, border, pt, true);
    SnapIsNear(pt.x, 768, res);
    SnapIsNear(pt.y, 512, res);
    hide Snap, Resolution;
    WithinInnerPart(pt.x - tile.x, 384, 640, border, res);
    WithinInnerPart(pt.y - tile.y, 256, 512, border, res);
    assert 0.5 * WIDTH as real == 640.0 && 0.5 * HEIGHT as real == 512.0;
  }

  /** The border that set_mapviewsize_cb computes is always narrow enough. */
  lemma RecentredIsKeptInEveryView(st: View.State, width: int, height: int, scale: real, pt: Point, center: Point)
    requires scale > 0.0
    ensures var border := View.Resized(st, width, height).border;
      var tile := BestTileCenter(center, scale, border, pt, true);
      BestTileCenter(tile, scale, border, pt, false) == tile
  {
    View.ResizingSizes(st, width, height);
    RecentredIsKept(scale, View.Resized(st, width, height).border, pt, center);
  }

  /** The bound on the border is sharp: with a wider one, the tile chosen for the origin is left at once. */
  lemma WiderBorderLeavesTile(scale: real, border: int, center: Point)
    requires scale > 0.0 && border > 256
    ensures var origin := Point(0.0, 0.0);
      OffTile(BestTileCenter(center, scale, border, origin, true), border, Resolution(scale), origin)
  {
    var res := Resolution(scale);
    PositiveProduct(scale, PIXEL_SIZE);
    var tile := BestTileCenter(center, scale, border, Point(0.0, 0.0), true);
    SnapOrigin(res);
    hide Snap, Resolution;
    Scale(res, 512.0 - border as real, 256.0);
    assert tile.y - (512.0 - border as real) * res > 0.0 by {
      assert (512.0 - border as real) * res == Times(512.0 - border as real, res) && 256.0 * res == Times(256.0, res);
    }
  }

  lemma SnapOrigin(res: real)
    requires res > 0.0
    ensures Snap(0.0, 512, res) == 256.0 * res
  {
    CellIsTwoHalves(512, res);
    OverTimes(0.0, Times(512.0, res));
  }
}
