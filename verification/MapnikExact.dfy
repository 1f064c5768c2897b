/**
 When the image shown is exactly the one for CenterPt and ScaleDbl: the tile cache is keyed by file
 names, so everything depends on which tiles share a name.
 */
module MapnikExact {
  import opened Projection
  import opened MapnikTiles
  import opened MapnikHandoff
  import opened MapnikCalls

  datatype Tile = Tile(center: Point, scale: int)

  /** A position (projected) and a scale that a map may be asked for. */
  datatype Place = Place(pt: Point, scale: int)

  /** The tile that a new map for this place is centred on. */
  function TileAt(place: Place): Tile
    requires place.scale > 0
  {
    Tile(Lattice(place.scale as real, place.pt), place.scale)
  }

  function PlaceOf(req: Request): Place {
    Place(req.pt, req.scale)
  }

  function TileOf(image: Image): Tile
    requires image.Rendered?
  {
    Tile(image.center, image.scale)
  }

  /** The tiles in play: those that the places lead to, and those left in the cache by earlier sessions. */
  ghost predicate InPlay(cache: map<string, Image>, places: iset<Place>, tile: Tile) {
    || (exists place :: place in places && place.scale > 0 && TileAt(place) == tile)
    || (exists key :: key in cache && cache[key].Rendered? && TileOf(cache[key]) == tile)
  }

  predicate SameName(name: TileName, a: Tile, b: Tile) {
    name(a.center, a.scale) == name(b.center, b.scale)
  }

  /** Different tiles in play have different file names. */
  ghost predicate NamesDistinct(name: TileName, cache: map<string, Image>, places: iset<Place>) {
    forall a, b :: InPlay(cache, places, a) && InPlay(cache, places, b) && SameName(name, a, b) ==> a == b
  }

  /** Every call is for one of the places, forced or not, with any border. */
  ghost predicate CallsOnly(moves: seq<Move>, places: iset<Place>) {
    forall i :: 0 <= i < |moves| && moves[i].Call? ==> PlaceOf(moves[i].req) in places
  }

  /** When neither thread is writing and a map was shown, the pixbuf is the image for CenterPt and ScaleDbl. */
  predicate ImageExact(s: State) {
    !s.shared.renderYsn && !MainWrites(s) && s.shared.scale != -1
    ==> s.shared.pixbuf == Rendered(s.shared.center, s.shared.scale)
  }

  // ---------------------------------------------------------------- distinct names suffice

  predicate ImageIn(image: Image, tiles: iset<Tile>) {
    image.Rendered? ==> TileOf(image) in tiles
  }

  /** The request that a running call still carries. */
  ghost predicate RequestIn(s: State, tiles: iset<Tile>) {
    match s.main
    case CheckToken(req) => req.scale > 0 && TileAt(PlaceOf(req)) in tiles
    case CompareScale(req) => req.scale > 0 && TileAt(PlaceOf(req)) in tiles
    case ChooseCenter(req) => req.scale > 0 && TileAt(PlaceOf(req)) in tiles && s.shared.newScale == req.scale
    case _ => true
  }

  /** The new centre and scale name a tile that was asked for. */
  predicate TargetIsSet(s: State) {
    var m := s.shared;
    m.renderYsn || s.main in {LookUpTile, HitCenter, HitScale, HitNewMap, AskRender}
    || (m.scale != -1 && !(s.main.ChooseCenter? && s.main.req.force))
  }

  /** Only these tiles are shown, cached, or asked for. */
  ghost predicate TilesIn(s: State, tiles: iset<Tile>) {
    var m := s.shared;
    && (forall key :: key in m.cache ==> ImageIn(m.cache[key], tiles))
    && ImageIn(m.pixbuf, tiles)
    && RequestIn(s, tiles)
    && (TargetIsSet(s) ==> Tile(m.newCenter, m.newScale) in tiles)
  }

  /** A forced choice, or one made off the tile, is the lattice point; any other keeps the centre. */
  lemma BestIsLattice(center: Point, scale: real, border: int, pt: Point, force: bool)
    requires scale > 0.0
    ensures var best := BestTileCenter(center, scale, border, pt, force);
      best == Lattice(scale, pt) || (!force && best == center)
  {
    hide Lattice;
  }

  lemma MainStepKeepsTiles(name: TileName, s: State, caching: bool, tiles: iset<Tile>)
    requires Inv(name, s) && TilesIn(s, tiles)
    ensures TilesIn(MainStep(name, s, caching), tiles)
  {
    hide BestTileCenter, Lattice;
    if s.main.ChooseCenter? {
      var req := s.main.req;
      BestIsLattice(s.shared.center, s.shared.newScale as real, req.border, req.pt, req.force);
    }
  }

  lemma RenderMoveKeepsTiles(name: TileName, s: State, caching: bool, canSave: bool, tiles: iset<Tile>)
    requires Inv(name, s) && TilesIn(s, tiles)
    ensures TilesIn(RenderMove(name, s, caching, canSave), tiles)
  {
    hide BestTileCenter, Lattice;
  }

  lemma StepKeepsTiles(name: TileName, s: State, move: Move, tiles: iset<Tile>)
    requires Inv(name, s) && TilesIn(s, tiles)
    requires move.Call? && move.req.scale > 0 ==> TileAt(PlaceOf(move.req)) in tiles
    ensures TilesIn(Step(name, s, move), tiles)
  {
    hide MainStep, RenderMove, Lattice;
    match move
    case MainGo(caching) => MainStepKeepsTiles(name, s, caching, tiles);
    case RenderGo(caching, canSave) => RenderMoveKeepsTiles(name, s, caching, canSave, tiles);
    case Call(_) =>
    case AcknowledgeMap =>
  }

  lemma {:induction false} RunKeepsTiles(name: TileName, s: State, moves: seq<Move>, tiles: iset<Tile>)
    requires Inv(name, s) && TilesIn(s, tiles)
    requires forall i :: 0 <= i < |moves| && moves[i].Call? && moves[i].req.scale > 0 ==>
      TileAt(PlaceOf(moves[i].req)) in tiles
    ensures TilesIn(Run(name, s, moves), tiles)
    decreases |moves|
  {
    hide Inv, TilesIn, Step, TileAt;
    if moves != [] {
      MovesArePossible(name, s);
      StepKeepsInv(name, s, moves[0]);
      StepKeepsTiles(name, s, moves[0], tiles);
      RunKeepsTiles(name, Step(name, s, moves[0]), moves[1..], tiles);
    }
  }

  /** What is shown is exact as soon as no two of the tiles share a name. */
  lemma ShownIsExact(name: TileName, s: State, tiles: iset<Tile>)
    requires Inv(name, s) && TilesIn(s, tiles)
    requires forall a, b :: a in tiles && b in tiles && SameName(name, a, b) ==> a == b
    ensures ImageExact(s)
  {
    var m := s.shared;
    if !m.renderYsn && !MainWrites(s) && m.scale != -1 {
      assert Shown(name, m) && TileOf(m.pixbuf) in tiles && Tile(m.newCenter, m.newScale) in tiles;
      assert SameName(name, TileOf(m.pixbuf), Tile(m.newCenter, m.newScale));
    }
  }

  lemma DistinctNamesSuffice(name: TileName, s: State, places: iset<Place>, moves: seq<Move>)
    requires Init(name, s) && NamesDistinct(name, s.shared.cache, places) && CallsOnly(moves, places)
    ensures Inv(name, s) && ImageExact(Run(name, s, moves))
  {
    hide TileAt, Run;
    EveryInterleaving(name, s, []);
    var tiles := iset tile: Tile | InPlay(s.shared.cache, places, tile);
    forall key | key in s.shared.cache ensures ImageIn(s.shared.cache[key], tiles) {
      if s.shared.cache[key].Rendered? { assert InPlay(s.shared.cache, places, TileOf(s.shared.cache[key])); }
    }
    forall i | 0 <= i < |moves| && moves[i].Call? && moves[i].req.scale > 0
      ensures TileAt(PlaceOf(moves[i].req)) in tiles
    {
      assert InPlay(s.shared.cache, places, TileAt(PlaceOf(moves[i].req)));
    }
    assert TilesIn(s, tiles);
    RunKeepsTiles(name, s, moves, tiles);
    ShownIsExact(name, Run(name, s, moves), tiles);
  }

  // ---------------------------------------------------------------- distinct names are needed

  /** A forced call for a place, made in one piece with caching on. */
  function Ask(place: Place): seq<Move> {
    [Call(Request(place.pt, true, place.scale, 0))] + Repeated(MainGo(true), 7)
  }

  /** One pass of the render thread that stores its image. */
  const RENDER: seq<Move> := Repeated(RenderGo(true, true), 9)

  predicate Quiet(s: State) {
    s.main == Away && s.render == Waiting && !s.shared.renderYsn
  }

  /** Asking for a place whose tile has a file shows the image in that file. */
  lemma AskingHits(name: TileName, s: State, place: Place)
    requires Inv(name, s) && Quiet(s) && place.scale > 0
    requires var tile := TileAt(place); name(tile.center, tile.scale) in s.shared.cache
    ensures var tile := TileAt(place);
      var r := Run(name, s, Ask(place));
      && Quiet(r) && r.shared.cache == s.shared.cache
      && r.shared.center == tile.center && r.shared.scale == tile.scale
      && r.shared.pixbuf == s.shared.cache[name(tile.center, tile.scale)]
  {
    hide Inv, Run, Lattice;
    CallIsItsMoves(name, s.shared, Request(place.pt, true, place.scale, 0), true);
    QuietScale(name, s);
  }

  lemma QuietScale(name: TileName, s: State)
    requires Inv(name, s) && Quiet(s)
    ensures s.shared.scale == -1 || s.shared.newScale == s.shared.scale > 0
  {
  }

  /** Asking for a place whose tile has no file renders it and stores it. */
  lemma AskingRenders(name: TileName, s: State, place: Place)
    requires Inv(name, s) && Quiet(s) && place.scale > 0
    requires var tile := TileAt(place); name(tile.center, tile.scale) !in s.shared.cache
    ensures var tile := TileAt(place);
      var r := Run(name, s, Ask(place) + RENDER);
      && Quiet(r)
      && r.shared.cache == s.shared.cache[name(tile.center, tile.scale) := Rendered(tile.center, tile.scale)]
  {
    hide Inv, Run, Lattice, Step;
    var req := Request(place.pt, true, place.scale, 0);
    CallIsItsMoves(name, s.shared, req, true);
    QuietScale(name, s);
    RunInParts(name, s, Ask(place), RENDER);
    PassIsItsMoves(name, WholeCall(name, s.shared, req, true), true, true);
  }

  lemma AskCallsOnly(place: Place, places: iset<Place>)
    requires place in places
    ensures CallsOnly(Ask(place), places) && CallsOnly(RENDER, places) && CallsOnly([], places)
  {
    RepeatedIsNoCall(MainGo(true), 7);
    RepeatedIsNoCall(RenderGo(true, true), 9);
  }

  lemma {:induction false} RepeatedIsNoCall(move: Move, n: nat)
    requires !move.Call?
    ensures forall i :: 0 <= i < |Repeated(move, n)| ==> !Repeated(move, n)[i].Call?
  {
    if n > 0 { RepeatedIsNoCall(move, n - 1); }
  }

  lemma CallsOnlyConcat(a: seq<Move>, b: seq<Move>, places: iset<Place>)
    requires CallsOnly(a, places) && CallsOnly(b, places)
    ensures CallsOnly(a + b, places)
  {
  }

  /** A file that already holds another tile's image is shown for the place. */
  lemma OtherTileIsShown(name: TileName, s: State, places: iset<Place>, place: Place) returns (moves: seq<Move>)
    requires Inv(name, s) && Quiet(s) && place in places && place.scale > 0
    requires var tile := TileAt(place);
      var key := name(tile.center, tile.scale);
      key in s.shared.cache && s.shared.cache[key] != Rendered(tile.center, tile.scale)
    ensures CallsOnly(moves, places) && !ImageExact(Run(name, s, moves))
  {
    hide Inv, Run, Lattice;
    moves := Ask(place);
    AskCallsOnly(place, places);
    AskingHits(name, s, place);
  }

  /** Two places whose different tiles share a name: some run shows a wrong image. */
  lemma SharedNameShowsWrongTile(name: TileName, s: State, places: iset<Place>, p: Place, q: Place)
    returns (moves: seq<Move>)
    requires Inv(name, s) && Quiet(s) && p in places && q in places && p.scale > 0 && q.scale > 0
    ensures TileAt(p) != TileAt(q) && SameName(name, TileAt(p), TileAt(q)) ==>
      CallsOnly(moves, places) && !ImageExact(Run(name, s, moves))
  {
    hide Inv, Run, TileAt;
    var a, b := TileAt(p), TileAt(q);
    var key := name(a.center, a.scale);
    moves := [];
    if a != b && SameName(name, a, b) {
      if key in s.shared.cache {
        if s.shared.cache[key] != Rendered(a.center, a.scale) {
          moves := OtherTileIsShown(name, s, places, p);
        } else {
          moves := OtherTileIsShown(name, s, places, q);
        }
      } else {
        var first := Ask(p) + RENDER;
        AskingRenders(name, s, p);
        AskCallsOnly(p, places);
        CallsOnlyConcat(Ask(p), RENDER, places);
        var more := OtherTileIsShown(name, Run(name, s, first), places, q);
        RunInParts(name, s, first, more);
        CallsOnlyConcat(first, more, places);
        moves := first + more;
      }
    }
  }

  /** A tile in play that no place leads to is in the cache, under its own name. */
  lemma CachedUnderItsName(name: TileName, cache: map<string, Image>, places: iset<Place>, tile: Tile)
    requires CacheAgrees(name, cache) && InPlay(cache, places, tile)
    requires !exists place :: place in places && place.scale > 0 && TileAt(place) == tile
    ensures var key := name(tile.center, tile.scale); key in cache && cache[key] == Rendered(tile.center, tile.scale)
  {
    hide TileAt;
  }

  lemma DistinctNamesAreNeeded(name: TileName, s: State, places: iset<Place>) returns (moves: seq<Move>)
    requires Init(name, s)
    ensures Inv(name, s)
    ensures !NamesDistinct(name, s.shared.cache, places) ==>
      CallsOnly(moves, places) && !ImageExact(Run(name, s, moves))
  {
    hide Run, TileAt;
    EveryInterleaving(name, s, []);
    var cache := s.shared.cache;
    moves := [];
    if a, b :| InPlay(cache, places, a) && InPlay(cache, places, b) && SameName(name, a, b) && a != b {
      hide Inv, InPlay, CacheAgrees;
      if p :| p in places && p.scale > 0 && TileAt(p) == a {
        if q :| q in places && q.scale > 0 && TileAt(q) == b {
          moves := SharedNameShowsWrongTile(name, s, places, p, q);
        } else {
          CachedUnderItsName(name, cache, places, b);
          moves := OtherTileIsShown(name, s, places, p);
        }
      } else {
        CachedUnderItsName(name, cache, places, a);
        if !exists q :: q in places && q.scale > 0 && TileAt(q) == b { CachedUnderItsName(name, cache, places, b); }
        var q :| q in places && q.scale > 0 && TileAt(q) == b;
        moves := OtherTileIsShown(name, s, places, q);
      }
    }
  }

  /**
   For calls at any set of places, in every interleaving the image shown is exactly the one for CenterPt
   and ScaleDbl, if and only if no two tiles in play share a file name.
   */
  lemma ExactImagesExactlyWhen(name: TileName, s: State, places: iset<Place>)
    requires Init(name, s)
    ensures Inv(name, s)
    ensures (forall moves :: CallsOnly(moves, places) ==> ImageExact(Run(name, s, moves)))
      <==> NamesDistinct(name, s.shared.cache, places)
  {
    hide Run, NamesDistinct;
    EveryInterleaving(name, s, []);
    if NamesDistinct(name, s.shared.cache, places) {
      forall moves | CallsOnly(moves, places) ensures ImageExact(Run(name, s, moves)) {
        DistinctNamesSuffice(name, s, places, moves);
      }
    } else {
      var moves := DistinctNamesAreNeeded(name, s, places);
      assert CallsOnly(moves, places) && !ImageExact(Run(name, s, moves));
    }
  }
}
