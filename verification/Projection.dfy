/**
 Screen positions and geographic positions: the Mapnik formulas of src/mapnik.cpp, and the longitude
 axis of the proj_top and proj_googlesat branches of src/map_projection.c. gdouble is an exact real;
 conversions to int truncate as in C.
 */
module Projection {
  import opened Common
  import opened Reals

  // ---------------------------------------------------------------- Mapnik

  datatype Point = Point(x: real, y: real)

  /** Metres per pixel at scale 1. */
  const PIXEL_SIZE := 0.00028

  /** The fields of MapnikMap that the formulas read, and the view they are given. */
  datatype Frame = Frame(center: Point, scale: real, zoom: int, xoff: int, yoff: int, mapx2: int, mapy2: int)

  /** Screen pixels as metres on the map, and back. */
  function Metres(f: Frame, pixels: int): real
    requires f.zoom != 0
  {
    pixels as real * f.scale * PIXEL_SIZE / f.zoom as real
  }

  function Pixels(f: Frame, metres: real): real
    requires f.scale != 0.0
  {
    metres * f.zoom as real / (f.scale * PIXEL_SIZE)
  }

  function CalcXyToPos(f: Frame, inverse: Point -> Point, px: int, py: int): Point
    requires f.zoom != 0
  {
    var xdbl, ydbl := Metres(f, f.mapx2 - px - f.xoff), Metres(f, f.mapy2 - py - f.yoff);
    inverse(Point(f.center.x - xdbl, f.center.y + ydbl))
  }

  function CalcXy(f: Frame, forward: Point -> Point, pos: Point): (int, int)
    requires f.scale != 0.0
  {
    var p := forward(pos);
    var x, y := p.x - f.center.x, p.y - f.center.y;
    (Trunc(0.5 + (f.mapx2 as real + Pixels(f, x)) - f.xoff as real),
     Trunc(0.5 + (f.mapy2 as real - Pixels(f, y)) - f.yoff as real))
  }

  lemma MetresBack(f: Frame, n: int)
    requires f.scale != 0.0 && f.zoom != 0
    ensures Pixels(f, Metres(f, n)) == n as real && Pixels(f, -Metres(f, n)) == -(n as real)
  {
    var a, s, z := n as real, f.scale * PIXEL_SIZE, f.zoom as real;
    var d := Over(Times(a, s), z);
    assert d == Metres(f, n);
    OverTimes(Times(a, s), z);
    OverTimes(a, s);
    OverTimes(-a, s);
    TimesSigns(d, z);
    TimesSigns(a, s);
    assert Pixels(f, d) == Over(Times(d, z), s) && Pixels(f, -d) == Over(Times(-d, z), s);
  }

  /** Rounding by adding a half and truncating. */
  lemma HalfTrunc(n: int)
    ensures Trunc(0.5 + n as real) == if n >= 0 then n else n + 1
  {
  }

  /**
   From a pixel to a position and back. The projection enters only through forward undoing inverse.
   The same pixel comes back exactly when it is not negative; a negative one moves by one.
   */
  lemma PixelRoundTrip(f: Frame, forward: Point -> Point, inverse: Point -> Point, px: int, py: int)
    requires f.scale != 0.0 && f.zoom != 0
    requires forall p :: forward(inverse(p)) == p
    ensures CalcXy(f, forward, CalcXyToPos(f, inverse, px, py))
         == (if px >= 0 then px else px + 1, if py >= 0 then py else py + 1)
  {
    hide Trunc, Metres, Pixels;
    var ax, ay := f.mapx2 - px - f.xoff, f.mapy2 - py - f.yoff;
    MetresBack(f, ax);
    MetresBack(f, ay);
    HalfTrunc(px);
    HalfTrunc(py);
    var p := forward(CalcXyToPos(f, inverse, px, py));
    assert p.x - f.center.x == -Metres(f, ax) && p.y - f.center.y == Metres(f, ay);
    assert 0.5 + (f.mapx2 as real + -(ax as real)) - f.xoff as real == 0.5 + px as real;
    assert 0.5 + (f.mapy2 as real - ay as real) - f.yoff as real == 0.5 + py as real;
  }

  /** A pixel is scale * 0.00028 / zoom metres: so far apart are neighbouring columns from west to east, and rows
      from north to south, around the centre at (mapx2 - xoff, mapy2 - yoff). */
  lemma PixelsAreMetres(f: Frame, inverse: Point -> Point, px: int, py: int)
    requires f.zoom != 0
    ensures var pixel := f.scale * 0.00028 / f.zoom as real;
      CalcXyToPos(f, inverse, px, py) == inverse(Point(
        f.center.x + Times((px - (f.mapx2 - f.xoff)) as real, pixel),
        f.center.y - Times((py - (f.mapy2 - f.yoff)) as real, pixel)))
  {
    MetresOfPixels(f, f.mapx2 - px - f.xoff);
    MetresOfPixels(f, f.mapy2 - py - f.yoff);
    hide Metres;
    var pixel := f.scale * 0.00028 / f.zoom as real;
    TimesSigns((px - (f.mapx2 - f.xoff)) as real, pixel);
    hide Times;
    assert (f.mapx2 - px - f.xoff) as real == -((px - (f.mapx2 - f.xoff)) as real);
    assert (f.mapy2 - py - f.yoff) as real == -((py - (f.mapy2 - f.yoff)) as real);
    TimesSigns((py - (f.mapy2 - f.yoff)) as real, pixel);
  }

  lemma MetresOfPixels(f: Frame, n: int)
    requires f.zoom != 0
    ensures Metres(f, n) == Times(n as real, f.scale * 0.00028 / f.zoom as real)
  {
    OverMoves(n as real, f.scale * PIXEL_SIZE, f.zoom as real);
    assert n as real * f.scale * PIXEL_SIZE == Times(n as real, f.scale * PIXEL_SIZE);
  }

  // ---------------------------------------------------------------- longitude axis

  /** What the two functions read: half the view width, xoff, pixelfact, zoom, coords.zero_lon,
      lat2radius_pi_180 (0). */
  datatype Axis = Axis(mapx2: int, xoff: int, pixelfact: real, zoom: int, zeroLon: real, k: real) {
    predicate Valid() {
      pixelfact > 0.0 && zoom > 0 && k != 0.0
    }
  }

  /** Screen columns as map units, and map units as screen columns. */
  function MapUnits(ax: Axis, columns: int): real
    requires ax.Valid()
  {
    columns as real * ax.pixelfact / ax.zoom as real
  }

  function Columns(ax: Axis, units: int): real
    requires ax.Valid()
  {
    (units * ax.zoom) as real / ax.pixelfact
  }

  /** Map units as degrees of longitude, and back; k is lat2radius_pi_180 (0). */
  function Degrees(ax: Axis, units: int): real
    requires ax.Valid()
  {
    ax.zeroLon - units as real / ax.k
  }

  function UnitsAt(ax: Axis, lon: real): real {
    ax.k * (lon - ax.zeroLon)
  }

  /** calcxytopos, longitude. */
  function LonOfX(ax: Axis, posx: int): real
    requires ax.Valid()
  {
    Degrees(ax, Trunc(MapUnits(ax, ax.mapx2 - posx - ax.xoff)))
  }

  /** calcxy, longitude: two conversions to int. */
  function XOfLon(ax: Axis, lon: real): int
    requires ax.Valid()
  {
    var posx := Trunc(0.5 + UnitsAt(ax, lon));
    Trunc((ax.mapx2 as real + Columns(ax, posx)) - ax.xoff as real)
  }

  lemma DegreesBack(ax: Axis, units: int)
    requires ax.Valid()
    ensures UnitsAt(ax, Degrees(ax, units)) == -(units as real)
  {
    var k, px := ax.k, units as real;
    var q := Over(px, k);
    OverTimes(px, k);
    TimesOrder(k, q, 0.0);
    TimesSigns(k, q);
    assert Degrees(ax, units) - ax.zeroLon == -q;
    assert UnitsAt(ax, Degrees(ax, units)) == Times(k, -q);
  }

  /** A column is pixelfact / zoom map units east of the one before, and k map units are a degree, around zero_lon at
      column mapx2 - xoff; the conversion to int loses less than one unit. */
  lemma ColumnIsLongitude(ax: Axis, posx: int)
    requires ax.Valid()
    ensures var units := (posx - (ax.mapx2 - ax.xoff)) as real * ax.pixelfact / ax.zoom as real;
      -1.0 < (LonOfX(ax, posx) - ax.zeroLon) * ax.k - units < 1.0
  {
    var a := ax.mapx2 - posx - ax.xoff;
    var u := MapUnits(ax, a);
    OppositeUnits(ax, a);
    assert -a == posx - (ax.mapx2 - ax.xoff);
    TruncNear(u);
    DegreesBack(ax, Trunc(u));
    UnitsSpelled(ax, LonOfX(ax, posx));
    hide Trunc, MapUnits, Degrees, UnitsAt;
    var units := (posx - (ax.mapx2 - ax.xoff)) as real * ax.pixelfact / ax.zoom as real;
    assert units == -u;
    assert (LonOfX(ax, posx) - ax.zeroLon) * ax.k == -(Trunc(u) as real);
  }

  lemma UnitsSpelled(ax: Axis, lon: real)
    ensures (lon - ax.zeroLon) * ax.k == UnitsAt(ax, lon)
  {
  }

  lemma OppositeUnits(ax: Axis, a: int)
    requires ax.Valid()
    ensures (-a) as real * ax.pixelfact / ax.zoom as real == -MapUnits(ax, a)
  {
    var f, z := ax.pixelfact, ax.zoom as real;
    TimesSigns(a as real, f);
    OverMoves(Times(a as real, f), 1.0, z);
    assert (-a) as real * f == -(a as real * f);
  }

  /** What the two integer conversions lose, in units of zoom/pixelfact. */
  lemma ConversionLoss(u: real)
    ensures var loss := u + Trunc(0.5 + -(Trunc(u) as real)) as real;
      -1.0 < loss < 2.0
  {
    HalfTrunc(-Trunc(u));
    assert 0.5 + -(Trunc(u) as real) == 0.5 + (-Trunc(u)) as real;
  }

  lemma TruncNear(w: real)
    ensures -1.0 < Trunc(w) as real - w < 1.0
  {
  }

  lemma LossInColumns(ax: Axis, a: int, n: int)
    requires ax.Valid() && -1.0 < MapUnits(ax, a) + n as real < 2.0
    ensures var step := ax.zoom as real / ax.pixelfact;
      step > 0.0 && -step < Columns(ax, n) + a as real < 2.0 * step
  {
    var f, z, w := ax.pixelfact, ax.zoom as real, n as real;
    var u, step := Over(Times(a as real, f), z), Over(z, f);
    assert u == MapUnits(ax, a) && Over(Times(w, z), f) == Columns(ax, n);
    LossTimesStep(a as real, w, z, f);
  }

  lemma LossTimesStep(a: real, w: real, z: real, f: real)
    requires z > 0.0 && f > 0.0 && -1.0 < Over(Times(a, f), z) + w < 2.0
    ensures Over(z, f) > 0.0 && -Over(z, f) < Over(Times(w, z), f) + a < 2.0 * Over(z, f)
  {
    hide Over, Times;
    var u, step := Over(Times(a, f), z), Over(z, f);
    OverPositive(z, f);
    OverTimes(Times(a, f), z);
    OverTimes(a, f);
    OverMoves(u, z, f);
    OverMoves(w, z, f);
    Distribute(u, w, step);
    Scale(step, -1.0, u + w);
    Scale(step, u + w, 2.0);
    Numerals(step);
  }

  lemma Numerals(step: real)
    ensures Times(-1.0, step) == -step && Times(2.0, step) == 2.0 * step
  {
  }

  /** From a screen column to a longitude and back: the column moves by less than 2 * zoom / pixelfact + 1. */
  lemma ColumnRoundTrip(ax: Axis, posx: int)
    requires ax.Valid()
    ensures var step := ax.zoom as real / ax.pixelfact;
      -(step + 1.0) < (XOfLon(ax, LonOfX(ax, posx)) - posx) as real < 2.0 * step + 1.0
  {
    hide Trunc, MapUnits, Columns, Degrees, UnitsAt;
    var a := ax.mapx2 - posx - ax.xoff;
    var u := MapUnits(ax, a);
    DegreesBack(ax, Trunc(u));
    var n := Trunc(0.5 + -(Trunc(u) as real));
    ConversionLoss(u);
    LossInColumns(ax, a, n);
    TruncNear((ax.mapx2 as real + Columns(ax, n)) - ax.xoff as real);
  }
}
