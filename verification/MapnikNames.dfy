/** The file names of the tile cache: which tiles share one. */
module MapnikNames {
  import opened Common
  import opened Decimal
  import opened Reals
  import opened Projection
  import opened MapnikTiles
  import opened MapnikHandoff
  import opened MapnikExact

  /** "%.0f/%f_%f.png" of a scale and a position in degrees, below the cache directory. */
  function NameText(scale: int, pos: Point): string {
    IntText(scale) + "/" + (FixedText(pos.x, 6) + "_" + (FixedText(pos.y, 6) + ".png"))
  }

  /** The name of a tile: its centre goes through the projection's inverse. */
  function FileName(inverse: Point -> Point): TileName {
    (center: Point, scale: int) => NameText(scale, inverse(center))
  }

  // ---------------------------------------------------------------- equal names

  /** Texts without the separator can be told apart before it. */
  lemma SameUpTo(a: string, b: string, s: string, t: string, c: char)
    requires c !in a && c !in b
    ensures a + [c] + s == b + [c] + t <==> a == b && s == t
  {
    var u, v := a + [c] + s, b + [c] + t;
    assert u[|a|] == c && v[|b|] == c;
    assert |a| < |b| ==> v[|a|] == b[|a|];
    assert |b| < |a| ==> u[|b|] == a[|b|];
    if u == v {
      assert u[..|a|] == a && v[..|b|] == b;
      assert u[|a| + 1..] == s && v[|b| + 1..] == t;
    }
  }

  lemma SameBefore(a: string, b: string, s: string)
    ensures a + s == b + s <==> a == b
  {
    if a + s == b + s { assert (a + s)[..|a|] == a && (b + s)[..|b|] == b; }
  }

  lemma NumbersHaveNoSeparator(x: real, n: int)
    ensures '_' !in FixedText(x, 6) && '/' !in IntText(n)
  {
    hide NatText, PaddedText, Units;
    assert AllDigits(NatText(if n >= 0 then n else -n));
  }

  /** Two names are equal exactly when the scales are, and both coordinates print alike with six places. */
  lemma SameNameExactlyWhen(s: int, t: int, p: Point, q: Point)
    ensures NameText(s, p) == NameText(t, q)
      <==> s == t && FixedText(p.x, 6) == FixedText(q.x, 6) && FixedText(p.y, 6) == FixedText(q.y, 6)
  {
    hide FixedText, IntText;
    NumbersHaveNoSeparator(p.x, s);
    NumbersHaveNoSeparator(q.x, t);
    var px, py, qx, qy := FixedText(p.x, 6), FixedText(p.y, 6) + ".png", FixedText(q.x, 6), FixedText(q.y, 6) + ".png";
    SameBefore(FixedText(p.y, 6), FixedText(q.y, 6), ".png");
    SameUpTo(px, qx, py, qy, '_');
    assert px + "_" + py == px + ("_" + py) && qx + "_" + qy == qx + ("_" + qy);
    SameUpTo(IntText(s), IntText(t), px + "_" + py, qx + "_" + qy, '/');
    AtoiPrinted(s);
    AtoiPrinted(t);
  }

  predicate PrintAlike(p: Point, q: Point) {
    FixedText(p.x, 6) == FixedText(q.x, 6) && FixedText(p.y, 6) == FixedText(q.y, 6)
  }

  /** The position in degrees of the tile for a place. */
  function Degrees(inverse: Point -> Point, place: Place): Point
    requires place.scale > 0
  {
    inverse(TileAt(place).center)
  }

  lemma NameOfPlace(inverse: Point -> Point, p: Place, q: Place)
    requires p.scale > 0 && q.scale > 0
    ensures SameName(FileName(inverse), TileAt(p), TileAt(q))
      <==> p.scale == q.scale && PrintAlike(Degrees(inverse, p), Degrees(inverse, q))
  {
    hide Lattice, FixedText, NameText;
    SameNameExactlyWhen(p.scale, q.scale, Degrees(inverse, p), Degrees(inverse, q));
  }

  // ---------------------------------------------------------------- distinct names

  /** Every image left in the cache by earlier sessions is the tile of one of the places. */
  ghost predicate CacheFrom(cache: map<string, Image>, places: iset<Place>) {
    forall key :: key in cache && cache[key].Rendered? ==>
      exists place :: place in places && place.scale > 0 && TileAt(place) == TileOf(cache[key])
  }

  /** Two of the places, of one scale. */
  ghost predicate OneScale(places: iset<Place>, p: Place, q: Place) {
    p in places && q in places && p.scale == q.scale && p.scale > 0
  }

  /** Different tiles of one scale print differently. */
  ghost predicate NoTwoAlike(inverse: Point -> Point, places: iset<Place>) {
    forall p, q :: OneScale(places, p, q) && PrintAlike(Degrees(inverse, p), Degrees(inverse, q)) ==>
      TileAt(p) == TileAt(q)
  }

  /** Names are distinct exactly when no two tiles of one scale have centres that print alike. */
  lemma NamesDistinctExactlyWhen(inverse: Point -> Point, cache: map<string, Image>, places: iset<Place>)
    requires CacheFrom(cache, places)
    ensures NamesDistinct(FileName(inverse), cache, places) <==> NoTwoAlike(inverse, places)
  {
    hide FileName, TileAt, PrintAlike, Degrees, SameName;
    var name := FileName(inverse);
    if NamesDistinct(name, cache, places) {
      forall p, q | OneScale(places, p, q) && PrintAlike(Degrees(inverse, p), Degrees(inverse, q))
        ensures TileAt(p) == TileAt(q)
      {
        NameOfPlace(inverse, p, q);
        assert InPlay(cache, places, TileAt(p)) && InPlay(cache, places, TileAt(q));
      }
    }
    if NoTwoAlike(inverse, places) {
      forall a, b | InPlay(cache, places, a) && InPlay(cache, places, b) && SameName(name, a, b) ensures a == b {
        var p := PlaceInPlay(cache, places, a);
        var q := PlaceInPlay(cache, places, b);
        NameOfPlace(inverse, p, q);
      }
    }
  }

  lemma PlaceInPlay(cache: map<string, Image>, places: iset<Place>, tile: Tile) returns (place: Place)
    requires CacheFrom(cache, places) && InPlay(cache, places, tile)
    ensures place in places && place.scale > 0 && TileAt(place) == tile
  {
    hide TileAt;
    place :| place in places && place.scale > 0 && TileAt(place) == tile;
  }

  /** Two places whose tiles differ and print alike lead to a run that shows the wrong tile. */
  lemma AlikeCollide(inverse: Point -> Point, places: iset<Place>, s: State, p: Place, q: Place)
    returns (moves: seq<Move>)
    requires OneScale(places, p, q) && TileAt(p) != TileAt(q)
    requires PrintAlike(Degrees(inverse, p), Degrees(inverse, q))
    requires Init(FileName(inverse), s)
    ensures Inv(FileName(inverse), s) && CallsOnly(moves, places)
    ensures !ImageExact(Run(FileName(inverse), s, moves))
  {
    hide FileName, TileAt, Run, PrintAlike, Degrees, SameName;
    var name, cache := FileName(inverse), s.shared.cache;
    NameOfPlace(inverse, p, q);
    assert InPlay(cache, places, TileAt(p)) && InPlay(cache, places, TileAt(q));
    moves := DistinctNamesAreNeeded(name, s, places);
  }

  // ---------------------------------------------------------------- projections that keep tiles apart

  function Gap(x: real, y: real): (d: real)
    ensures d >= 0.0 && (d == 0.0 <==> x == y)
  {
    if x < y then y - x else x - y
  }

  /** More than a millionth of a degree apart on an axis. */
  predicate Apart(p: Point, q: Point) {
    Gap(p.x, q.x) > 0.000001 || Gap(p.y, q.y) > 0.000001
  }

  /** Numbers more than a millionth apart print differently. */
  lemma ApartPrintsApart(x: real, y: real)
    requires Gap(x, y) > 0.000001
    ensures FixedText(x, 6) != FixedText(y, 6)
  {
    hide FixedText, Rounded, Strtod, Pow10;
    StrtodPrinted(x, 6);
    StrtodPrinted(y, 6);
    RoundedIsNear(x, 6);
    RoundedIsNear(y, 6);
    Million();
  }

  lemma Million()
    ensures Pow10(6) == 1000000
  {
    assert Pow10(2) == 10 * Pow10(1);
    assert Pow10(4) == 10 * Pow10(3);
    assert Pow10(6) == 10 * Pow10(5);
  }

  /** Different tiles of one scale are moved more than a millionth of a degree apart. */
  ghost predicate KeepsApart(inverse: Point -> Point, places: iset<Place>) {
    forall p, q :: OneScale(places, p, q) && TileAt(p) != TileAt(q) ==>
      Apart(Degrees(inverse, p), Degrees(inverse, q))
  }

  /** A projection that does so gives every tile a name of its own. */
  lemma KeptApartIsDistinct(inverse: Point -> Point, cache: map<string, Image>, places: iset<Place>)
    requires CacheFrom(cache, places) && KeepsApart(inverse, places)
    ensures NamesDistinct(FileName(inverse), cache, places)
  {
    hide FileName, TileAt, FixedText, Degrees, NamesDistinct, CacheFrom, Gap;
    forall p, q | OneScale(places, p, q) && PrintAlike(Degrees(inverse, p), Degrees(inverse, q))
      ensures TileAt(p) == TileAt(q)
    {
      var a, b := Degrees(inverse, p), Degrees(inverse, q);
      if TileAt(p) != TileAt(q) {
        if Gap(a.x, b.x) > 0.000001 { ApartPrintsApart(a.x, b.x); } else { ApartPrintsApart(a.y, b.y); }
      }
    }
    NamesDistinctExactlyWhen(inverse, cache, places);
  }

  /** Within the region no degree, of longitude or of latitude, has more than this number of metres. */
  ghost predicate AtMostMetres(inverse: Point -> Point, region: iset<Point>, metres: real) {
    forall p, q :: p in region && q in region ==>
      && Gap(p.x, q.x) <= Times(Gap(inverse(p).x, inverse(q).x), metres)
      && Gap(p.y, q.y) <= Times(Gap(inverse(p).y, inverse(q).y), metres)
  }

  /** The centres of two tiles of one scale are the same along an axis, or at least 512 pixels apart. */
  lemma CentresAreApart(x: real, y: real, extent: int, res: real)
    requires extent >= 512 && extent % 2 == 0 && res > 0.0
    ensures var a, b := Snap(x, extent, res), Snap(y, extent, res);
      a == b || Gap(a, b) >= Times(512.0, res)
  {
    var half := Times((extent / 2) as real, res);
    SnapIsCellCentre(x, extent, res);
    SnapIsCellCentre(y, extent, res);
    var m, n := Cell(x, half), Cell(y, half);
    HalfCell(extent, res);
    hide Times, Snap, Cell;
    if m < n {
      OddNumbersApart(m, n, half);
    } else if n < m {
      OddNumbersApart(n, m, half);
    }
  }

  lemma HalfCell(extent: int, res: real)
    requires extent >= 512 && res > 0.0
    ensures Times(2.0, Times((extent / 2) as real, res)) >= Times(512.0, res)
  {
    var h := (extent / 2) as real;
    Scale(res, 512.0, 2.0 * h);
    assert Times(2.0, Times(h, res)) == Times(2.0 * h, res);
  }

  lemma OddNumbersApart(m: int, n: int, half: real)
    requires m % 2 == 1 && n % 2 == 1 && m < n && half > 0.0
    ensures Times(n as real, half) - Times(m as real, half) >= Times(2.0, half)
  {
    hide Times;
    Distribute(n as real, m as real, half);
    Scale(half, 2.0, (n - m) as real);
    assert n as real - m as real == (n - m) as real;
  }

  lemma TilesAreApart(p: Place, q: Place)
    requires p.scale > 0 && q.scale == p.scale
    ensures var a, b := TileAt(p).center, TileAt(q).center;
      var size := 0.14336 * p.scale as real;
      (a.x == b.x || Gap(a.x, b.x) >= size) && (a.y == b.y || Gap(a.y, b.y) >= size)
  {
    hide Snap, Gap;
    var res := Resolution(p.scale as real);
    assert Times(512.0, res) == 0.14336 * p.scale as real;
    CentresAreApart(p.pt.x, q.pt.x, 768, res);
    CentresAreApart(p.pt.y, q.pt.y, 512, res);
  }

  /** A distance of one cell is more than a millionth of a degree. */
  lemma CellInDegrees(distance: real, degrees: real, metres: real, scale: int)
    requires 0.0 < metres < 143360.0 * scale as real
    requires distance >= 0.14336 * scale as real && distance <= Times(degrees, metres)
    ensures degrees > 0.000001
  {
    hide Times;
    Scale(metres, degrees, 0.000001);
    Millionth(metres);
  }

  lemma Millionth(metres: real)
    ensures Times(0.000001, metres) == metres / 1000000.0
  {
  }

  lemma SameScale(p: Place, q: Place)
    requires p.scale == q.scale && p.scale > 0
    ensures TileAt(p).scale == TileAt(q).scale
  {
    hide Lattice;
  }

  /** Tiles of scale s stay apart up to s * 143360 metres to the degree. */
  lemma FewMetresKeepApart(inverse: Point -> Point, region: iset<Point>, metres: real, places: iset<Place>)
    requires metres > 0.0 && AtMostMetres(inverse, region, metres)
    requires forall p :: p in places && p.scale > 0 ==>
      TileAt(p).center in region && metres < 143360.0 * p.scale as real
    ensures KeepsApart(inverse, places)
  {
    hide TileAt, Times, Gap;
    forall p, q | OneScale(places, p, q) && TileAt(p) != TileAt(q)
      ensures Apart(Degrees(inverse, p), Degrees(inverse, q))
    {
      var a, b, da, db := TileAt(p).center, TileAt(q).center, Degrees(inverse, p), Degrees(inverse, q);
      TilesAreApart(p, q);
      SameScale(p, q);
      if a.x != b.x {
        CellInDegrees(Gap(a.x, b.x), Gap(da.x, db.x), metres, p.scale);
      } else {
        CellInDegrees(Gap(a.y, b.y), Gap(da.y, db.y), metres, p.scale);
      }
    }
  }

  /** The smallest scale that the slider offers. */
  const SMALLEST_SCALE := 1000

  /** With the slider's scales every tile has a name of its own, up to 143360000 metres to the degree. */
  lemma DistinctOnSlider(inverse: Point -> Point, region: iset<Point>, metres: real, cache: map<string, Image>,
                         places: iset<Place>)
    requires 0.0 < metres < 143360000.0 && AtMostMetres(inverse, region, metres) && CacheFrom(cache, places)
    requires forall p :: p in places ==> p.scale >= SMALLEST_SCALE && TileAt(p).center in region
    ensures NamesDistinct(FileName(inverse), cache, places)
  {
    hide AtMostMetres, FileName, TileAt, NamesDistinct, CacheFrom, KeepsApart;
    FewMetresKeepApart(inverse, region, metres, places);
    KeptApartIsDistinct(inverse, cache, places);
  }

  /** Metres in a degree of longitude everywhere in the Mercator projection, and in a degree of latitude at the
      equator. */
  const AT_EQUATOR := 111319.49

  /** The inverse of a projection with that many metres in every degree. */
  function Equatorial(): Point -> Point {
    (p: Point) => Point(p.x / AT_EQUATOR, p.y / AT_EQUATOR)
  }

  lemma EquatorialGap(x: real, y: real)
    ensures Gap(x, y) == Times(Gap(x / AT_EQUATOR, y / AT_EQUATOR), AT_EQUATOR)
  {
  }

  lemma EquatorialMetres(region: iset<Point>)
    ensures AtMostMetres(Equatorial(), region, AT_EQUATOR)
  {
    hide Times, Gap;
    forall p, q | p in region && q in region
      ensures Gap(p.x, q.x) <= Times(Gap(Equatorial()(p).x, Equatorial()(q).x), AT_EQUATOR)
      ensures Gap(p.y, q.y) <= Times(Gap(Equatorial()(p).y, Equatorial()(q).y), AT_EQUATOR)
    {
      EquatorialGap(p.x, q.x);
      EquatorialGap(p.y, q.y);
    }
  }

  /** At the equator tiles of every scale have names of their own. */
  lemma DistinctAtEquator(cache: map<string, Image>, places: iset<Place>)
    requires CacheFrom(cache, places)
    ensures NamesDistinct(FileName(Equatorial()), cache, places)
  {
    hide Equatorial, AtMostMetres, FileName, TileAt, NamesDistinct, CacheFrom, KeepsApart;
    var region := iset p | p in places && p.scale > 0 :: TileAt(p).center;
    EquatorialMetres(region);
    FewMetresKeepApart(Equatorial(), region, AT_EQUATOR, places);
    KeptApartIsDistinct(Equatorial(), cache, places);
  }

  // ---------------------------------------------------------------- where they do not stay apart

  /** Northing of 83.6 degrees in the Mercator projection, and metres in a degree of latitude there. */
  const NORTHING := 18394774.4057
  const FAR_NORTH := 998659.3447

  /** The inverse of the Mercator projection near 83.6 degrees north: its tangent. */
  function FarNorth(): Point -> Point {
    (p: Point) => Point(p.x / AT_EQUATOR, 83.6 + (p.y - NORTHING) / FAR_NORTH)
  }

  const LOWER := Place(Point(0.0, 18394774.4), 1)
  const UPPER := Place(Point(0.0, 18394774.5), 1)

  lemma LowerAndUpper()
    ensures TileAt(LOWER).center.y == 18394774.41536 && TileAt(UPPER).center.y == 18394774.55872
    ensures TileAt(LOWER).center.x == TileAt(UPPER).center.x
  {
    assert Resolution(1.0) == 0.00028;
    assert Times(512.0, 0.00028) == 0.14336 && Times(256.0, 0.00028) == 0.07168;
    assert Trunc(Over(18394774.4, 0.14336)) == 128311763;
    assert Trunc(Over(18394774.5, 0.14336)) == 128311764;
  }

  lemma PrintsAs83Point6(x: real)
    requires 83.5999996 <= x <= 83.6000004
    ensures FixedText(x, 6) == UnitsText(83600000, 6)
  {
    Million();
    hide Pow10, UnitsText;
  }

  lemma LowerAndUpperPrintAlike()
    ensures TileAt(LOWER) != TileAt(UPPER) && PrintAlike(Degrees(FarNorth(), LOWER), Degrees(FarNorth(), UPPER))
  {
    LowerAndUpper();
    hide FixedText, Lattice, UnitsText;
    PrintsAs83Point6(Degrees(FarNorth(), LOWER).y);
    PrintsAs83Point6(Degrees(FarNorth(), UPPER).y);
  }

  /** At 83.6 degrees two neighbouring tiles of scale 1 print the same name, so some run shows the wrong one. */
  lemma CollidesFarNorth(places: iset<Place>, s: State) returns (moves: seq<Move>)
    requires LOWER in places && UPPER in places && Init(FileName(FarNorth()), s)
    ensures Inv(FileName(FarNorth()), s) && CallsOnly(moves, places)
    ensures !ImageExact(Run(FileName(FarNorth()), s, moves))
  {
    hide FileName, FarNorth, TileAt, Run, PrintAlike;
    LowerAndUpperPrintAlike();
    moves := AlikeCollide(FarNorth(), places, s, LOWER, UPPER);
  }
}
