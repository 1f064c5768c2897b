/** The functions of src/mapnik.cpp that take part in the hand-off, and that they are sequences of its moves. */
module MapnikCalls {
  import opened Projection
  import opened MapnikTiles
  import opened MapnikHandoff

  // ---------------------------------------------------------------- calls as sequences of moves

  /** The same move n times. */
  function Repeated(move: Move, n: nat): seq<Move> {
    if n == 0 then [] else [move] + Repeated(move, n - 1)
  }

  lemma {:induction false} RunInParts(name: TileName, s: State, a: seq<Move>, b: seq<Move>)
    requires Inv(name, s)
    ensures Run(name, s, a + b) == Run(name, Run(name, s, a), b)
    decreases |a|
  {
    hide Step, Inv;
    if a == [] {
      assert a + b == b;
    } else {
      MovesArePossible(name, s);
      StepKeepsInv(name, s, a[0]);
      assert (a + b)[1..] == a[1..] + b;
      RunInParts(name, Step(name, s, a[0]), a[1..], b);
    }
  }

  lemma RunRepeated(name: TileName, s: State, move: Move, n: nat)
    requires Inv(name, s)
    ensures s.main.ChooseCenter? ==> s.shared.newScale > 0
    ensures Inv(name, Step(name, s, move))
    ensures Run(name, s, Repeated(move, n + 1)) == Run(name, Step(name, s, move), Repeated(move, n))
  {
    hide Step, Inv;
    MovesArePossible(name, s);
    StepKeepsInv(name, s, move);
    assert Repeated(move, n + 1)[1..] == Repeated(move, n);
  }

  /** set_mapnik_map_ysn as one undisturbed piece. */
  function WholeCall(name: TileName, m: Shared, req: Request, caching: bool): Shared
    requires req.scale > 0 && (req.scale == m.scale ==> m.newScale > 0)
  {
    if m.renderYsn then m
    else
      var asked := if req.scale != m.scale then m.(newScale := req.scale) else m;
      var force := req.force || req.scale != m.scale;
      var best := BestTileCenter(m.center, asked.newScale as real, req.border, req.pt, force);
      if best == m.center && !force then asked
      else
        var placed := asked.(newCenter := best);
        var key := name(best, placed.newScale);
        if caching && key in m.cache
        then placed.(pixbuf := m.cache[key], center := best, scale := placed.newScale, newMap := true)
        else placed.(renderYsn := true)
  }

  /** The body of render_thread's loop as one undisturbed piece. */
  function WholePass(name: TileName, m: Shared, caching: bool, canSave: bool): Shared {
    if !m.renderYsn then m
    else
      var image := Rendered(m.newCenter, m.newScale);
      m.(pixbuf := image, center := m.newCenter, scale := m.newScale, newMap := true, renderYsn := false,
         cache := if caching && canSave then m.cache[name(m.newCenter, m.newScale) := image] else m.cache)
  }

  lemma AwayStays(name: TileName, m: Shared, caching: bool, n: nat)
    requires Inv(name, State(m, Away, Waiting))
    ensures Run(name, State(m, Away, Waiting), Repeated(MainGo(caching), n)) == State(m, Away, Waiting)
  {
    hide Run, Inv;
    if n == 0 {
      RunNone(name, State(m, Away, Waiting));
    } else {
      RunRepeated(name, State(m, Away, Waiting), MainGo(caching), n - 1);
      AwayStays(name, m, caching, n - 1);
    }
  }

  /** From the cache look-up on. */
  lemma LookUpMoves(name: TileName, m: Shared, caching: bool)
    requires Inv(name, State(m, LookUpTile, Waiting))
    ensures var key := name(m.newCenter, m.newScale);
      Run(name, State(m, LookUpTile, Waiting), Repeated(MainGo(caching), 4)) ==
        State(if caching && key in m.cache
              then m.(pixbuf := m.cache[key], center := m.newCenter, scale := m.newScale, newMap := true)
              else m.(renderYsn := true), Away, Waiting)
  {
    hide Run, Inv;
    var go := MainGo(caching);
    var s := State(m, LookUpTile, Waiting);
    RunRepeated(name, s, go, 3);
    var s1 := Step(name, s, go);
    RunRepeated(name, s1, go, 2);
    var s2 := Step(name, s1, go);
    if s1.main == AskRender {
      AwayStays(name, s2.shared, caching, 2);
    } else {
      RunRepeated(name, s2, go, 1);
      var s3 := Step(name, s2, go);
      RunRepeated(name, s3, go, 0);
      RunNone(name, Step(name, s3, go));
    }
  }

  /** From the choice of the tile on. */
  lemma ChooseMoves(name: TileName, m: Shared, req: Request, caching: bool)
    requires Inv(name, State(m, ChooseCenter(req), Waiting)) && m.newScale > 0
    ensures var best := BestTileCenter(m.center, m.newScale as real, req.border, req.pt, req.force);
      var key := name(best, m.newScale);
      Run(name, State(m, ChooseCenter(req), Waiting), Repeated(MainGo(caching), 5)) ==
        State(if best == m.center && !req.force then m
              else if caching && key in m.cache
              then m.(newCenter := best, pixbuf := m.cache[key], center := best, scale := m.newScale, newMap := true)
              else m.(newCenter := best, renderYsn := true), Away, Waiting)
  {
    hide Run, Inv, BestTileCenter;
    var s := State(m, ChooseCenter(req), Waiting);
    RunRepeated(name, s, MainGo(caching), 4);
    var s1 := Step(name, s, MainGo(caching));
    if s1.main == Away {
      AwayStays(name, m, caching, 4);
    } else {
      LookUpMoves(name, s1.shared, caching);
    }
  }

  /** A call of set_mapnik_map_ysn is its moves run one after another. */
  lemma CallIsItsMoves(name: TileName, m: Shared, req: Request, caching: bool)
    requires Inv(name, State(m, Away, Waiting)) && !m.renderYsn && req.scale > 0
    ensures Run(name, State(m, Away, Waiting), [Call(req)] + Repeated(MainGo(caching), 7))
         == State(WholeCall(name, m, req, caching), Away, Waiting)
  {
    hide Run, Inv, BestTileCenter;
    var s := State(m, Away, Waiting);
    var go := MainGo(caching);
    RunOne(name, s, Call(req));
    RunInParts(name, s, [Call(req)], Repeated(go, 7));
    var s1 := Step(name, s, Call(req));
    RunRepeated(name, s1, go, 6);
    var s2 := Step(name, s1, go);
    RunRepeated(name, s2, go, 5);
    var s3 := Step(name, s2, go);
    MovesArePossible(name, s3);
    ChooseMoves(name, s3.shared, s3.main.req, caching);
  }

  lemma RunNone(name: TileName, s: State)
    requires Inv(name, s)
    ensures Run(name, s, []) == s
  {
  }

  lemma RunOne(name: TileName, s: State, move: Move)
    requires Inv(name, s)
    ensures s.main.ChooseCenter? ==> s.shared.newScale > 0
    ensures Inv(name, Step(name, s, move)) && Run(name, s, [move]) == Step(name, s, move)
  {
    hide Step, Inv;
    MovesArePossible(name, s);
    StepKeepsInv(name, s, move);
    RunNone(name, Step(name, s, move));
    assert [move][1..] == [];
  }

  /** A pass of the render thread is its moves run one after another. */
  lemma PassIsItsMoves(name: TileName, m: Shared, caching: bool, canSave: bool)
    requires Inv(name, State(m, Away, Waiting))
    ensures Run(name, State(m, Away, Waiting), Repeated(RenderGo(caching, canSave), 9))
         == State(WholePass(name, m, caching, canSave), Away, Waiting)
  {
    hide Run, Inv;
    var s := State(m, Away, Waiting);
    var go := RenderGo(caching, canSave);
    if m.renderYsn {
      RunRepeated(name, s, go, 8);
      RunRepeated(name, Step(name, s, go), go, 7);
      var image := Rendered(m.newCenter, m.newScale);
      SwapMoves(name, m.(pixbuf := HalfWritten), caching, canSave);
    } else {
      WaitingStays(name, m, go, 9);
    }
  }

  lemma WaitingStays(name: TileName, m: Shared, go: Move, n: nat)
    requires Inv(name, State(m, Away, Waiting)) && !m.renderYsn && go.RenderGo?
    ensures Run(name, State(m, Away, Waiting), Repeated(go, n)) == State(m, Away, Waiting)
  {
    hide Run, Inv;
    if n == 0 {
      RunNone(name, State(m, Away, Waiting));
    } else {
      RunRepeated(name, State(m, Away, Waiting), go, n - 1);
      WaitingStays(name, m, go, n - 1);
    }
  }

  /** From the new pixbuf to the new scale. */
  lemma SwapMoves(name: TileName, m: Shared, caching: bool, canSave: bool)
    requires var image := Rendered(m.newCenter, m.newScale); Inv(name, State(m, Away, SwapPixbuf(image)))
    ensures var image := Rendered(m.newCenter, m.newScale);
      var shown := m.(pixbuf := image, center := m.newCenter, scale := m.newScale, newMap := true, renderYsn := false,
         cache := if caching && canSave then m.cache[name(m.newCenter, m.newScale) := image] else m.cache);
      Run(name, State(m, Away, SwapPixbuf(image)), Repeated(RenderGo(caching, canSave), 7))
        == State(shown, Away, Waiting)
  {
    hide Run, Inv;
    var go := RenderGo(caching, canSave);
    var image := Rendered(m.newCenter, m.newScale);
    var s := State(m, Away, SwapPixbuf(image));
    RunRepeated(name, s, go, 6);
    var s1 := Step(name, s, go);
    RunRepeated(name, s1, go, 5);
    var s2 := Step(name, s1, go);
    RunRepeated(name, s2, go, 4);
    var s3 := Step(name, s2, go);
    assert s3 == State(m.(pixbuf := image, center := m.newCenter), Away, WriteScale);
    WriteMoves(name, s3.shared, caching, canSave);
  }

  /** From the new scale to giving back the token. */
  lemma WriteMoves(name: TileName, m: Shared, caching: bool, canSave: bool)
    requires Inv(name, State(m, Away, WriteScale))
    ensures var shown := m.(scale := m.newScale, newMap := true, renderYsn := false,
         cache := if caching && canSave then m.cache[name(m.center, m.newScale) := m.pixbuf] else m.cache);
      Run(name, State(m, Away, WriteScale), Repeated(RenderGo(caching, canSave), 4)) == State(shown, Away, Waiting)
  {
    hide Run, Inv;
    var go := RenderGo(caching, canSave);
    var s := State(m, Away, WriteScale);
    RunRepeated(name, s, go, 3);
    var s1 := Step(name, s, go);
    RunRepeated(name, s1, go, 2);
    var s2 := Step(name, s1, go);
    RunRepeated(name, s2, go, 1);
    var s3 := Step(name, s2, go);
    RunRepeated(name, s3, go, 0);
    RunNone(name, Step(name, s3, go));
  }

  // ---------------------------------------------------------------- the functions themselves

  /** The global MapnikMap, with the files of the tile cache. */
  class MapnikMap {
    const name: TileName
    var newMapYsn: bool
    var scaleDbl: int
    var newScaleDbl: int
    var centerPt: Point
    var newCenterPt: Point
    var pixbuf: Image
    var renderYsn: bool
    var cache: map<string, Image>

    ghost function Now(): Shared
      reads this
    {
      Shared(newMapYsn, scaleDbl, newScaleDbl, centerPt, newCenterPt, pixbuf, renderYsn, cache)
    }

    /** init_mapnik's values; static fields start at zero. */
    constructor (name: TileName, tiles: map<string, Image>)
      ensures this.name == name && cache == tiles
      ensures CacheAgrees(name, tiles) ==> Init(name, State(Now(), Away, Waiting))
    {
      this.name := name;
      newMapYsn, renderYsn := false, false;
      scaleDbl, newScaleDbl := -1, 0;
      centerPt, newCenterPt := Point(0.0, 0.0), Point(0.0, 0.0);
      pixbuf := NoImage;
      cache := tiles;
    }

    /** try_read_tile_from_cache. */
    method TryReadTileFromCache(caching: bool) returns (found: bool)
      modifies this`pixbuf, this`centerPt, this`scaleDbl, this`newMapYsn
      ensures found <==> caching && name(newCenterPt, newScaleDbl) in cache
      ensures Now() == if !found then old(Now()) else
        old(Now()).(pixbuf := cache[name(newCenterPt, newScaleDbl)], center := newCenterPt, scale := newScaleDbl,
          newMap := true)
    {
      if !caching { return false; }
      var filename := name(newCenterPt, newScaleDbl);
      if filename in cache {
        pixbuf := cache[filename];
        centerPt := newCenterPt;
        scaleDbl := newScaleDbl;
        newMapYsn := true;
        return true;
      }
      return false;
    }

    /** add_current_tile_to_cache. */
    method AddCurrentTileToCache(caching: bool, canSave: bool)
      modifies this`cache
      ensures cache == if caching && canSave then old(cache)[name(centerPt, scaleDbl) := pixbuf] else old(cache)
    {
      if !caching { return; }
      var filename := name(centerPt, scaleDbl);
      if !canSave { return; }
      cache := cache[filename := pixbuf];
    }

    /** set_mapnik_map_ysn, up to its unconditional return. */
    method SetMapnikMapYsn(req: Request, caching: bool)
      requires req.scale > 0 && (req.scale == scaleDbl ==> newScaleDbl > 0)
      modifies this
      ensures Now() == WholeCall(name, old(Now()), req, caching)
    {
      if renderYsn { return; }
      var force := req.force;
      if req.scale != scaleDbl {
        newScaleDbl := req.scale;
        force := true;
      }
      var bestPt := BestTileCenter(centerPt, newScaleDbl as real, req.border, req.pt, force);
      if bestPt.x != centerPt.x || bestPt.y != centerPt.y || force {
        newCenterPt := bestPt;
        var found := TryReadTileFromCache(caching);
        if !found {
          renderYsn := true;
        }
      }
    }

    /** One turn of render_thread's loop after its sleep. */
    method RenderPass(caching: bool, canSave: bool)
      modifies this
      ensures Now() == WholePass(name, old(Now()), caching, canSave)
    {
      if renderYsn {
        pixbuf := Rendered(newCenterPt, newScaleDbl);
        centerPt := newCenterPt;
        scaleDbl := newScaleDbl;
        newMapYsn := true;
        AddCurrentTileToCache(caching, canSave);
        renderYsn := false;
      }
    }
  }
}
