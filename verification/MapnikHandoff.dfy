/**
 The hand-off between the main thread and the render thread of src/mapnik.cpp, and the tile cache.

 Every step makes at most one assignment to what the threads share, so runs of steps are all
 interleavings. RenderYsn is the token: the main thread writes only while it is clear, the render
 thread only while it is set. Scales are integers: ScaleDbl and NewScaleDbl are doubles in the source,
 but they hold nothing else than -1, 0 and values of the int parameter of set_mapnik_map_ysn.
 */
module MapnikHandoff {
  import opened Projection
  import opened MapnikTiles

  /** Content of a pixbuf: none yet, half written, or the rendering of a tile at a scale. */
  datatype Image = NoImage | HalfWritten | Rendered(center: Point, scale: int)

  /** MapnikMapStruct, as far as the two threads share it, and the files of the tile cache. */
  datatype Shared = Shared(
    newMap: bool,
    scale: int,
    newScale: int,
    center: Point,
    newCenter: Point,
    pixbuf: Image,
    renderYsn: bool,
    cache: map<string, Image>)

  /** A call of set_mapnik_map_ysn: the projected position, the force flag, the scale wanted, borderlimit. */
  datatype Request = Request(pt: Point, force: bool, scale: int, border: int)

  datatype MainPc =
    | Away
    | CheckToken(req: Request)
    | CompareScale(req: Request)
    | ChooseCenter(req: Request)
    | LookUpTile
    | HitCenter | HitScale | HitNewMap
    | AskRender

  datatype RenderPc =
    | Waiting
    | Render
    | SwapPixbuf(img: Image)
    | WriteCenterX(img: Image) | WriteCenterY(img: Image)
    | WriteScale | WriteNewMap | SaveTile | DropToken

  datatype State = State(shared: Shared, main: MainPc, render: RenderPc)

  /** Who moves: the main thread starts a call, acknowledges a new map, or goes on; or the render thread goes on.
      The flags are the caching setting at that moment, and whether the cache directory could be made. */
  datatype Move = Call(req: Request) | AcknowledgeMap | MainGo(caching: bool) | RenderGo(caching: bool, canSave: bool)

  /** File name of a tile: it depends on the projected centre and the printed scale. */
  type TileName = (Point, int) -> string

  // ---------------------------------------------------------------- steps

  /** The request with force set when the scale is new. */
  function Forced(req: Request, scale: int): Request {
    if req.scale != scale then req.(force := true) else req
  }

  function MainStep(name: TileName, s: State, caching: bool): State
    requires s.main.ChooseCenter? ==> s.shared.newScale > 0
  {
    var m := s.shared;
    match s.main
    case Away => s
    case CheckToken(req) => if m.renderYsn then s.(main := Away) else s.(main := CompareScale(req))
    case CompareScale(req) =>
      if req.scale != m.scale then s.(shared := m.(newScale := req.scale), main := ChooseCenter(Forced(req, m.scale)))
      else s.(main := ChooseCenter(req))
    case ChooseCenter(req) =>
      var best := BestTileCenter(m.center, m.newScale as real, req.border, req.pt, req.force);
      if best != m.center || req.force then s.(shared := m.(newCenter := best), main := LookUpTile)
      else s.(main := Away)
    case LookUpTile =>
      var key := name(m.newCenter, m.newScale);
      if caching && key in m.cache then s.(shared := m.(pixbuf := m.cache[key]), main := HitCenter)
      else s.(main := AskRender)
    case HitCenter => s.(shared := m.(center := m.newCenter), main := HitScale)
    case HitScale => s.(shared := m.(scale := m.newScale), main := HitNewMap)
    case HitNewMap => s.(shared := m.(newMap := true), main := Away)
    case AskRender => s.(shared := m.(renderYsn := true), main := Away)
  }

  /** The raw data that the old pixbuf may share is overwritten before the pixbuf is replaced. */
  function RenderMove(name: TileName, s: State, caching: bool, canSave: bool): State {
    var m := s.shared;
    match s.render
    case Waiting => if m.renderYsn then s.(render := Render) else s
    case Render => s.(shared := m.(pixbuf := HalfWritten), render := SwapPixbuf(Rendered(m.newCenter, m.newScale)))
    case SwapPixbuf(img) => s.(shared := m.(pixbuf := img), render := WriteCenterX(img))
    case WriteCenterX(img) =>
      var x := if img.Rendered? then img.center.x else 0.0;
      s.(shared := m.(center := Point(x, m.center.y)), render := WriteCenterY(img))
    case WriteCenterY(img) =>
      var y := if img.Rendered? then img.center.y else 0.0;
      s.(shared := m.(center := Point(m.center.x, y)), render := WriteScale)
    case WriteScale => s.(shared := m.(scale := m.newScale), render := WriteNewMap)
    case WriteNewMap => s.(shared := m.(newMap := true), render := SaveTile)
    case SaveTile =>
      if caching && canSave then s.(shared := m.(cache := m.cache[name(m.center, m.scale) := m.pixbuf]),
        render := DropToken)
      else s.(render := DropToken)
    case DropToken => s.(shared := m.(renderYsn := false), render := Waiting)
  }

  function Step(name: TileName, s: State, move: Move): State
    requires s.main.ChooseCenter? ==> s.shared.newScale > 0
  {
    match move
    case Call(req) => if s.main == Away && req.scale > 0 then s.(main := CheckToken(req)) else s
    case AcknowledgeMap => if s.main == Away then s.(shared := s.shared.(newMap := false)) else s
    case MainGo(caching) => MainStep(name, s, caching)
    case RenderGo(caching, canSave) => RenderMove(name, s, caching, canSave)
  }

  // ---------------------------------------------------------------- the invariant

  /** The main thread is between its check of the token and its last write. */
  predicate MainWrites(s: State) {
    !s.main.Away? && !s.main.CheckToken?
  }

  predicate RenderWrites(s: State) {
    !s.render.Waiting?
  }

  /** An image that a tile file of this centre and scale may hold. */
  predicate ImageFor(name: TileName, image: Image, center: Point, scale: int) {
    image.Rendered? && name(image.center, image.scale) == name(center, scale)
  }

  ghost predicate CacheAgrees(name: TileName, cache: map<string, Image>) {
    forall key :: key in cache ==> cache[key].Rendered? && name(cache[key].center, cache[key].scale) == key
  }

  /** What is shown is what CenterPt and ScaleDbl say, or nothing was shown yet. */
  predicate Shown(name: TileName, m: Shared) {
    if m.scale == -1 then m.pixbuf == NoImage
    else m.scale > 0 && m.newScale == m.scale && m.newCenter == m.center && ImageFor(name, m.pixbuf, m.center, m.scale)
  }

  /** Where the main thread stands, and what it may rely on there. */
  predicate MainInvariant(name: TileName, s: State) {
    var m := s.shared;
    match s.main
    case Away => true
    case CheckToken(req) => req.scale > 0
    case CompareScale(req) => req.scale > 0 && Shown(name, m)
    case ChooseCenter(req) => m.newScale > 0 && (req.force || (Shown(name, m) && m.scale > 0))
    case LookUpTile | AskRender => m.newScale > 0
    case HitNewMap => m.scale > 0 && Shown(name, m)
    case HitCenter | HitScale =>
      && m.newScale > 0 && ImageFor(name, m.pixbuf, m.newCenter, m.newScale)
      && (s.main.HitScale? ==> m.center == m.newCenter)
  }

  /** The same for the render thread. */
  predicate RenderInvariant(name: TileName, s: State) {
    var m := s.shared;
    var job := Rendered(m.newCenter, m.newScale);
    match s.render
    case Waiting | Render => true
    case SwapPixbuf(img) => img == job
    case WriteCenterX(img) => img == job && m.pixbuf == job
    case WriteCenterY(img) => img == job && m.pixbuf == job && m.center.x == m.newCenter.x
    case WriteScale => m.pixbuf == job && m.center == m.newCenter
    case WriteNewMap | SaveTile | DropToken => m.pixbuf == job && m.center == m.newCenter && m.scale == m.newScale
  }

  /** What every interleaving keeps. */
  ghost predicate Inv(name: TileName, s: State) {
    && (MainWrites(s) ==> !s.shared.renderYsn)
    && (RenderWrites(s) ==> s.shared.renderYsn)
    && (s.shared.renderYsn ==> s.shared.newScale > 0)
    && (!s.shared.renderYsn && !MainWrites(s) ==> Shown(name, s.shared))
    && MainInvariant(name, s) && RenderInvariant(name, s)
    && CacheAgrees(name, s.shared.cache)
  }

  /** After init_mapnik, with whatever tiles earlier sessions left in the cache. */
  ghost predicate Init(name: TileName, s: State) {
    && s.main == Away && s.render == Waiting
    && s.shared.scale == -1 && s.shared.pixbuf == NoImage && !s.shared.renderYsn
    && CacheAgrees(name, s.shared.cache)
  }

  lemma MainStepKeepsInv(name: TileName, s: State, caching: bool)
    requires Inv(name, s)
    ensures Inv(name, MainStep(name, s, caching))
  {
    hide BestTileCenter;
  }

  lemma RenderMoveKeepsInv(name: TileName, s: State, caching: bool, canSave: bool)
    requires Inv(name, s)
    ensures Inv(name, RenderMove(name, s, caching, canSave))
  {
  }

  lemma StepKeepsInv(name: TileName, s: State, move: Move)
    requires Inv(name, s)
    ensures Inv(name, Step(name, s, move))
  {
    hide MainStep, RenderMove;
    match move
    case MainGo(caching) => MainStepKeepsInv(name, s, caching);
    case RenderGo(caching, canSave) => RenderMoveKeepsInv(name, s, caching, canSave);
    case Call(_) =>
    case AcknowledgeMap =>
  }

  function Run(name: TileName, s: State, moves: seq<Move>): (r: State)
    requires Inv(name, s)
    ensures Inv(name, r)
    decreases |moves|
  {
    if moves == [] then s
    else
      StepKeepsInv(name, s, moves[0]);
      Run(name, Step(name, s, moves[0]), moves[1..])
  }

  // ---------------------------------------------------------------- what runs guarantee

  /**
   In every interleaving from the start: the two threads are never both between their first and last
   write; when neither is, the pixbuf is the image for CenterPt and ScaleDbl (once there is one); and
   every cache entry is the image for its name.
   */
  lemma EveryInterleaving(name: TileName, s: State, moves: seq<Move>)
    requires Init(name, s)
    ensures Inv(name, s)
    ensures var r := Run(name, s, moves);
      && !(MainWrites(r) && RenderWrites(r))
      && (!r.shared.renderYsn && !MainWrites(r) ==>
          if r.shared.scale == -1 then r.shared.pixbuf == NoImage
          else ImageFor(name, r.shared.pixbuf, r.shared.center, r.shared.scale))
      && CacheAgrees(name, r.shared.cache)
  {
  }

  /** While RenderYsn is set, no step changes what was asked for; when it is cleared, exactly that is shown. */
  lemma RequestIsStableAndMet(name: TileName, s: State, move: Move)
    requires Inv(name, s) && s.shared.renderYsn
    ensures var m := Step(name, s, move).shared;
      && m.newCenter == s.shared.newCenter && m.newScale == s.shared.newScale
      && (!m.renderYsn ==>
          m.center == s.shared.newCenter && m.scale == s.shared.newScale && m.pixbuf == Rendered(m.center, m.scale))
  {
  }

  /** Moves the render thread still has to make before it clears RenderYsn. */
  function MovesLeft(pc: RenderPc): nat {
    match pc
    case Waiting => 9
    case Render => 8
    case SwapPixbuf(_) => 7
    case WriteCenterX(_) => 6
    case WriteCenterY(_) => 5
    case WriteScale => 4
    case WriteNewMap => 3
    case SaveTile => 2
    case DropToken => 1
  }

  function RenderMoves(moves: seq<Move>): nat {
    if moves == [] then 0 else (if moves[0].RenderGo? then 1 else 0) + RenderMoves(moves[1..])
  }

  lemma MovesArePossible(name: TileName, s: State)
    requires Inv(name, s)
    ensures s.main.ChooseCenter? ==> s.shared.newScale > 0
  {
  }

  /** A run during which RenderYsn stays set. */
  ghost predicate StaysSet(name: TileName, s: State, moves: seq<Move>)
    requires Inv(name, s)
  {
    forall k :: 0 <= k <= |moves| ==> Run(name, s, moves[..k]).shared.renderYsn
  }

  lemma StaysSetLater(name: TileName, s: State, moves: seq<Move>)
    requires Inv(name, s) && StaysSet(name, s, moves) && moves != []
    ensures s.main.ChooseCenter? ==> s.shared.newScale > 0
    ensures var next := Step(name, s, moves[0]);
      s.shared.renderYsn && Inv(name, next) && StaysSet(name, next, moves[1..])
  {
    hide Inv, Step;
    MovesArePossible(name, s);
    StepKeepsInv(name, s, moves[0]);
    var next, rest := Step(name, s, moves[0]), moves[1..];
    assert moves[..0] == [] && Run(name, s, moves[..0]).shared.renderYsn;
    forall k | 0 <= k <= |rest| ensures Run(name, next, rest[..k]).shared.renderYsn {
      assert moves[..k + 1][1..] == rest[..k];
      assert Run(name, s, moves[..k + 1]).shared.renderYsn;
    }
  }

  lemma OneMoveLess(name: TileName, s: State, move: Move)
    requires Inv(name, s) && s.shared.renderYsn && Step(name, s, move).shared.renderYsn
    ensures MovesLeft(Step(name, s, move).render) + (if move.RenderGo? then 1 else 0) <= MovesLeft(s.render)
  {
    hide BestTileCenter;
  }

  /** Whatever the main thread does, a request is met after at most nine moves of the render thread. */
  lemma {:induction false} RequestIsMetSoon(name: TileName, s: State, moves: seq<Move>)
    requires Inv(name, s) && StaysSet(name, s, moves)
    ensures RenderMoves(moves) < MovesLeft(s.render)
    decreases |moves|
  {
    hide Inv, Step;
    if moves != [] {
      StaysSetLater(name, s, moves);
      var next := Step(name, s, moves[0]);
      assert Run(name, next, moves[1..][..0]).shared.renderYsn;
      OneMoveLess(name, s, moves[0]);
      RequestIsMetSoon(name, next, moves[1..]);
    }
  }
}
