/**
 The map view: its size and border (src/main_gui.c), zooming (src/main_gui.c), and the scrolling and
 clamping of the shown window over the 1280x1024 map (src/gpsdrive.c).
 */
module View {
  import opened Common

  const MAPWIDTH := 1280
  const MAPHEIGHT := 1024
  const MIN_VIEW := 150
  const ZOOM_MIN := 1
  const ZOOM_MAX := 16
  const MAX_SCROLL_STEPS := 2000

  datatype ZoomRequest = ZoomIn | ZoomOut | NoZoom

  /** gui_status.mapview_x/y, borderlimit, current.zoom, xoff, yoff, iszoomed. */
  datatype State = State(viewX: int, viewY: int, border: int, zoom: int, xoff: int, yoff: int, iszoomed: bool)

  // ---------------------------------------------------------------- view size

  function Limit(size: int, max: int): int {
    if size > max then max else if size < MIN_VIEW then MIN_VIEW else size
  }

  function Resized(st: State, width: int, height: int): State {
    var vx, vy := Limit(width, MAPWIDTH), Limit(height, MAPHEIGHT);
    st.(viewX := vx, viewY := vy, border := DivC(if vx < vy then vx else vy, 5))
  }

  /** The view is at least five borders wide and high, and no larger than the map. */
  predicate Sized(st: State) {
    && MIN_VIEW <= st.viewX <= MAPWIDTH && MIN_VIEW <= st.viewY <= MAPHEIGHT
    && 30 <= st.border <= 204 && 5 * st.border <= st.viewX && 5 * st.border <= st.viewY
  }

  lemma ResizingSizes(st: State, width: int, height: int)
    ensures Sized(Resized(st, width, height))
  {
  }

  // ---------------------------------------------------------------- scrolling one axis

  /** A marker coordinate inside the border zone of an axis. */
  predicate Inside(x: int, view: int, border: int) {
    border <= x <= view - border
  }

  /** What one pass of the loop adds to the offset. */
  function Shift(x: int, view: int, border: int): int {
    (if x < border then -2 * border else 0) + (if x > view - border then 2 * border else 0)
  }

  /** The marker coordinate after at most n passes. */
  function Settle(x: int, view: int, border: int, n: nat): int
    decreases n
  {
    if n == 0 || Inside(x, view, border) then x else Settle(x - Shift(x, view, border), view, border, n - 1)
  }

  /** How far x lies outside the zone. */
  function Outside(x: int, view: int, border: int): int {
    if x < border then border - x else if x > view - border then x - (view - border) else 0
  }

  /** A pass moves by two borders toward the zone and never past it. */
  lemma PassNeverOvershoots(x: int, view: int, border: int)
    requires border > 0 && view >= 5 * border && !Inside(x, view, border)
    ensures var y := x - Shift(x, view, border);
      && (x < border ==> y == x + 2 * border && y < 3 * border)
      && (x > view - border ==> y == x - 2 * border && y > view - 3 * border)
      && Outside(y, view, border)
        == if Outside(x, view, border) > 2 * border then Outside(x, view, border) - 2 * border else 0
  {
  }

  lemma Borders(n: nat, border: int)
    requires n > 0
    ensures 2 * (n - 1) * border + 2 * border == 2 * n * border
  {
    assert 2 * n * border == (2 * (n - 1) + 2) * border;
  }

  /** n passes settle the marker exactly when it starts at most 2n borders outside; it then lies just inside. */
  lemma {:induction false} SettleLands(x: int, view: int, border: int, n: nat)
    requires border > 0 && view >= 5 * border
    ensures var y := Settle(x, view, border, n);
      && (Inside(y, view, border) <==> Outside(x, view, border) <= 2 * n * border)
      && (Inside(x, view, border) ==> y == x)
      && (x < border ==> x <= y < 3 * border)
      && (x > view - border ==> view - 3 * border < y <= x)
    decreases n
  {
    if n == 0 {
      assert 2 * n * border == 0;
    } else if !Inside(x, view, border) {
      PassNeverOvershoots(x, view, border);
      SettleLands(x - Shift(x, view, border), view, border, n - 1);
      Borders(n, border);
      NonNegative(n - 1, border);
    } else {
      NonNegative(n, border);
    }
  }

  lemma NonNegative(n: nat, border: int)
    requires border > 0
    ensures 2 * n * border >= 0
  {
  }

  /** One more pass at the end instead of the start. */
  lemma {:induction false} SettleOnce(x: int, view: int, border: int, n: nat)
    requires border > 0 && view >= 2 * border
    ensures var y := Settle(x, view, border, n);
      Settle(x, view, border, n + 1) == y - Shift(y, view, border)
    decreases n
  {
    if n > 0 && !Inside(x, view, border) {
      SettleOnce(x - Shift(x, view, border), view, border, n - 1);
    }
  }

  /** A settled marker stays where it is. */
  lemma {:induction false} SettledStays(x: int, view: int, border: int, n: nat, m: nat)
    requires border > 0 && view >= 2 * border
    requires n <= m && Inside(Settle(x, view, border, n), view, border)
    ensures Settle(x, view, border, m) == Settle(x, view, border, n)
    decreases m
  {
    if n < m {
      SettledStays(x, view, border, n, m - 1);
      SettleOnce(x, view, border, m - 1);
    }
  }

  lemma SettleNone(x: int, view: int, border: int)
    ensures Settle(x, view, border, 0) == x
  {
  }

  /** A loop that leaves after pass n has settled the marker for good. */
  lemma LoopEnd(x: int, view: int, border: int, n: nat)
    requires border > 0 && view >= 2 * border
    requires 1 <= n <= MAX_SCROLL_STEPS && Inside(Settle(x, view, border, n - 1), view, border)
    ensures var y := Settle(x, view, border, n);
      Inside(y, view, border) && Settle(x, view, border, MAX_SCROLL_STEPS + 1) == y
        && Settle(x, view, border, MAX_SCROLL_STEPS - 1) == y
  {
    hide Settle;
    SettledStays(x, view, border, n - 1, n);
    SettledStays(x, view, border, n - 1, MAX_SCROLL_STEPS - 1);
    SettledStays(x, view, border, n - 1, MAX_SCROLL_STEPS + 1);
  }

  // ---------------------------------------------------------------- clamping

  function OffsetMax(half: int, zoom: int, view: int): int {
    half * zoom - DivC(view, 2)
  }

  function Clamp(off: int, max: int): int {
    var lower := if off > max then max else off;
    if lower < -max then -max else lower
  }

  function Clamped(st: State): State {
    st.(xoff := Clamp(st.xoff, OffsetMax(640, st.zoom, st.viewX)),
      yoff := Clamp(st.yoff, OffsetMax(512, st.zoom, st.viewY)))
  }

  predicate WithinClamp(st: State) {
    && -OffsetMax(640, st.zoom, st.viewX) <= st.xoff <= OffsetMax(640, st.zoom, st.viewX)
    && -OffsetMax(512, st.zoom, st.viewY) <= st.yoff <= OffsetMax(512, st.zoom, st.viewY)
  }

  /** An offset within its limits stays, and any other goes to the nearer limit: half the scaled map less half the
      view. */
  lemma ClampedIsNearest(st: State)
    requires Sized(st) && st.zoom >= 1
    ensures var r := Clamped(st);
      var mx, my := 640 * st.zoom - st.viewX / 2, 512 * st.zoom - st.viewY / 2;
      && r == st.(xoff := r.xoff, yoff := r.yoff)
      && (-mx <= st.xoff <= mx ==> r.xoff == st.xoff) && (-my <= st.yoff <= my ==> r.yoff == st.yoff)
      && (st.xoff > mx ==> r.xoff == mx) && (st.xoff < -mx ==> r.xoff == -mx)
      && (st.yoff > my ==> r.yoff == my) && (st.yoff < -my ==> r.yoff == -my)
  {
    assert 640 * st.zoom >= 640 && 512 * st.zoom >= 512;
  }

  /** First column (or row) of the scaled map that is shown: the copy starts at half - view/2 of an
      image whose scaled map begins at half - off - half * zoom. */
  function ShownFrom(half: int, zoom: int, off: int, view: int): int {
    (half - DivC(view, 2)) - (half - off - half * zoom)
  }

  /**
   After the clamp the shown window starts inside the scaled map and ends inside it, except that an
   odd view at the largest offset shows one column (or row) beyond it.
   */
  lemma ShownWindow(half: int, zoom: int, off: int, view: int)
    requires half in {MAPWIDTH / 2, MAPHEIGHT / 2} && 0 <= view <= 2 * half && zoom >= 1
    requires -OffsetMax(half, zoom, view) <= off <= OffsetMax(half, zoom, view)
    ensures var start := ShownFrom(half, zoom, off, view);
      && 0 <= start && start + view <= 2 * half * zoom + 1
      && (start + view == 2 * half * zoom + 1 <==> view % 2 == 1 && off == OffsetMax(half, zoom, view))
  {
    if half == 640 { assert half * zoom == 640 * zoom; } else { assert half * zoom == 512 * zoom; }
  }

  // ---------------------------------------------------------------- zooming

  predicate ZoomValid(zoom: int) {
    zoom in {1, 2, 4, 8, 16}
  }

  function Zoomed(st: State, request: ZoomRequest): State {
    if !st.iszoomed then st
    else
      match request
      case ZoomIn =>
        if st.zoom >= ZOOM_MAX then st.(zoom := ZOOM_MAX)
        else st.(iszoomed := false, zoom := st.zoom * 2, xoff := st.xoff * 2, yoff := st.yoff * 2)
      case ZoomOut =>
        if st.zoom <= ZOOM_MIN then st.(zoom := ZOOM_MIN)
        else st.(iszoomed := false, zoom := DivC(st.zoom, 2), xoff := DivC(st.xoff, 2), yoff := DivC(st.yoff, 2))
      case NoZoom => st.(iszoomed := false)
  }

  /** Column and row of the scaled map in the middle of the view. */
  function Middle(st: State): (m: (int, int)) {
    (ShownFrom(640, st.zoom, st.xoff, st.viewX) + st.viewX / 2,
     ShownFrom(512, st.zoom, st.yoff, st.viewY) + st.viewY / 2)
  }

  /**
   Zooming in doubles the scale around the point of the map in the middle of the view; zooming out halves
   it, and the point moves by less than a pixel of the larger map on each axis. Nothing else changes, and nothing
   at all at the last zoom, or before the zoom that was asked for last has been shown.
   */
  lemma ZoomKeepsMiddle(st: State, request: ZoomRequest)
    requires ZoomValid(st.zoom) && st.viewX >= 0 && st.viewY >= 0
    ensures var z := Zoomed(st, request);
      var (x, y), (u, v) := Middle(st), Middle(z);
      && z.viewX == st.viewX && z.viewY == st.viewY && z.border == st.border
      && if st.iszoomed && request == ZoomIn && st.zoom < 16 then
           !z.iszoomed && z.zoom == 2 * st.zoom && u == 2 * x && v == 2 * y
         else if st.iszoomed && request == ZoomOut && st.zoom > 1 then
           !z.iszoomed && 2 * z.zoom == st.zoom && -1 <= 2 * u - x <= 1 && -1 <= 2 * v - y <= 1
         else z == st.(iszoomed := st.iszoomed && request != NoZoom)
  {
  }

  /** Zooming in keeps the offsets within the clamp. */
  lemma ZoomInKeepsClamp(st: State)
    requires Sized(st) && ZoomValid(st.zoom) && WithinClamp(st)
    ensures WithinClamp(Zoomed(st, ZoomIn))
  {
  }

  /** Zooming out may leave the clamp, by at most a quarter of the view; the next clamp brings it back. */
  lemma ZoomOutOvershoot(st: State)
    requires Sized(st) && ZoomValid(st.zoom) && WithinClamp(st)
    ensures var z := Zoomed(st, ZoomOut);
      && -OffsetMax(640, z.zoom, z.viewX) - z.viewX / 4 <= z.xoff <= OffsetMax(640, z.zoom, z.viewX) + z.viewX / 4
      && -OffsetMax(512, z.zoom, z.viewY) - z.viewY / 4 <= z.yoff <= OffsetMax(512, z.zoom, z.viewY) + z.viewY / 4
  {
  }

  /** Half the offset is within the smaller map exactly when the old one was within the larger, or little beyond. */
  lemma HalfOffset(off: int, max: int)
    requires max >= 0
    ensures -max <= DivC(off, 2) <= max <==> -2 * max - 1 <= off <= 2 * max + 1
  {
  }

  /** When zooming out keeps, or brings, the offsets within the clamp: an inequality on the old ones. */
  lemma ZoomOutKeepsClampExactlyWhen(st: State)
    requires Sized(st) && ZoomValid(st.zoom)
    ensures WithinClamp(Zoomed(st, ZoomOut)) <==>
      if !st.iszoomed || st.zoom == ZOOM_MIN then WithinClamp(st)
      else
        var mx, my := 640 * st.zoom - 2 * (st.viewX / 2) + 1, 512 * st.zoom - 2 * (st.viewY / 2) + 1;
        -mx <= st.xoff <= mx && -my <= st.yoff <= my
  {
    if st.iszoomed && st.zoom != ZOOM_MIN {
      var half := DivC(st.zoom, 2);
      HalfOffset(st.xoff, OffsetMax(640, half, st.viewX));
      HalfOffset(st.yoff, OffsetMax(512, half, st.viewY));
    }
  }

  /** It does leave it: full offset at zoom 2 in the largest view. */
  lemma ZoomOutCanLeaveClamp()
    ensures var st := State(1280, 1024, 204, 2, 640, 0, true);
      Sized(st) && WithinClamp(st) && !WithinClamp(Zoomed(st, ZoomOut))
  {
  }

  // ---------------------------------------------------------------- one exposure, and runs

  /** The window after scrolling toward the marker at (posX, posY) on the unshifted map. */
  function Scrolled(st: State, posX: int, posY: int): State {
    st.(xoff := posX - Settle(posX - st.xoff, st.viewX, st.border, MAX_SCROLL_STEPS + 1),
        yoff := posY - Settle(posY - st.yoff, st.viewY, st.border, MAX_SCROLL_STEPS + 1))
  }

  function Exposed(st: State, width: int, height: int, mapShown: bool, posX: int, posY: int): State {
    var sized := Resized(st, width, height);
    (if mapShown then Clamped(Scrolled(sized, posX, posY)) else sized).(iszoomed := true)
  }

  datatype Action = Zoom(request: ZoomRequest) | Expose(width: int, height: int, mapShown: bool, posX: int, posY: int)

  function Act(st: State, action: Action): State {
    match action
    case Zoom(request) => Zoomed(st, request)
    case Expose(w, h, shown, x, y) => Exposed(st, w, h, shown, x, y)
  }

  function Acts(st: State, actions: seq<Action>): State {
    if actions == [] then st else Act(Acts(st, actions[..|actions| - 1]), actions[|actions| - 1])
  }

  /** The window shows the map alone, up to the last column (or row) of an odd view. */
  predicate ShowsMap(st: State) {
    && WithinClamp(st)
    && 0 <= ShownFrom(640, st.zoom, st.xoff, st.viewX)
    && ShownFrom(640, st.zoom, st.xoff, st.viewX) + st.viewX <= 1280 * st.zoom + st.viewX % 2
    && 0 <= ShownFrom(512, st.zoom, st.yoff, st.viewY)
    && ShownFrom(512, st.zoom, st.yoff, st.viewY) + st.viewY <= 1024 * st.zoom + st.viewY % 2
  }

  lemma ClampedShowsMap(st: State)
    requires ZoomValid(st.zoom) && Sized(st)
    ensures ShowsMap(Clamped(st))
  {
    var end := Clamped(st);
    ShownWindow(640, end.zoom, end.xoff, end.viewX);
    ShownWindow(512, end.zoom, end.yoff, end.viewY);
  }

  /** In every run the zoom is a power of two in 1..16, and every exposure that shows the map shows only the map. */
  lemma {:induction false} EveryRun(st: State, actions: seq<Action>)
    requires ZoomValid(st.zoom)
    ensures ZoomValid(Acts(st, actions).zoom)
    ensures actions != [] && actions[|actions| - 1].Expose? ==>
      var end := Acts(st, actions);
      Sized(end) && (actions[|actions| - 1].mapShown ==> ShowsMap(end))
  {
    hide Resized, Clamped, Sized, Settle;
    if actions != [] {
      var before := Acts(st, actions[..|actions| - 1]);
      EveryRun(st, actions[..|actions| - 1]);
      match actions[|actions| - 1]
      case Zoom(_) =>
      case Expose(w, h, shown, x, y) => ExposureShowsMap(before, w, h, shown, x, y);
    }
  }

  lemma ExposureShowsMap(st: State, width: int, height: int, mapShown: bool, posX: int, posY: int)
    requires ZoomValid(st.zoom)
    ensures var end := Exposed(st, width, height, mapShown, posX, posY);
      ZoomValid(end.zoom) && Sized(end) && (mapShown ==> ShowsMap(end))
  {
    hide Settle;
    ResizingSizes(st, width, height);
    ClampedShowsMap(Scrolled(Resized(st, width, height), posX, posY));
  }

  /** The view's size is the window's, between 150 and the map's; the border is a fifth of the smaller side. */
  lemma SizeIsWindows(st: State, width: int, height: int)
    ensures var r := Resized(st, width, height);
      && r == st.(viewX := r.viewX, viewY := r.viewY, border := r.border)
      && (150 <= width <= 1280 ==> r.viewX == width) && (150 <= height <= 1024 ==> r.viewY == height)
      && (width < 150 ==> r.viewX == 150) && (height < 150 ==> r.viewY == 150)
      && (width > 1280 ==> r.viewX == 1280) && (height > 1024 ==> r.viewY == 1024)
      && var side := if r.viewX < r.viewY then r.viewX else r.viewY;
      5 * r.border <= side < 5 * r.border + 5
  {
  }

  /** On an axis the marker is at least a border from both edges, or the map's edge is reached. */
  predicate InViewOrAtEdge(x: int, view: int, border: int, off: int, max: int) {
    border <= x <= view - border || off == max || off == -max
  }

  /**
   An exposure that shows the map brings the marker into the view, as far as the map goes, if it starts at
   most 4002 borders outside; it scrolls nothing on an axis where the marker is in the view and the offset within
   its limits. One that does not show the map leaves the offsets.
   */
  lemma ExposureFollowsMarker(st: State, width: int, height: int, mapShown: bool, posX: int, posY: int)
    requires ZoomValid(st.zoom)
    ensures var e := Exposed(st, width, height, mapShown, posX, posY);
      var mx, my := 640 * st.zoom - e.viewX / 2, 512 * st.zoom - e.viewY / 2;
      && e.zoom == st.zoom && e.iszoomed
      && (!mapShown ==> e.xoff == st.xoff && e.yoff == st.yoff)
      && (mapShown && -4002 * e.border <= posX - st.xoff - e.border && posX - st.xoff <= e.viewX + 4001 * e.border ==>
          InViewOrAtEdge(posX - e.xoff, e.viewX, e.border, e.xoff, mx))
      && (mapShown && -4002 * e.border <= posY - st.yoff - e.border && posY - st.yoff <= e.viewY + 4001 * e.border ==>
          InViewOrAtEdge(posY - e.yoff, e.viewY, e.border, e.yoff, my))
      && (e.border <= posX - st.xoff <= e.viewX - e.border && -mx <= st.xoff <= mx ==> e.xoff == st.xoff)
      && (e.border <= posY - st.yoff <= e.viewY - e.border && -my <= st.yoff <= my ==> e.yoff == st.yoff)
  {
    hide Settle, Resized, Sized, Clamp, InViewOrAtEdge;
    var sized := Resized(st, width, height);
    ResizingSizes(st, width, height);
    ResizingKeeps(st, width, height);
    BordersFit(sized);
    AxisFollowsMarker(posX, st.xoff, sized.viewX, sized.border, 640 * st.zoom - sized.viewX / 2);
    AxisFollowsMarker(posY, st.yoff, sized.viewY, sized.border, 512 * st.zoom - sized.viewY / 2);
  }

  lemma ResizingKeeps(st: State, width: int, height: int)
    ensures var r := Resized(st, width, height);
      r.zoom == st.zoom && r.xoff == st.xoff && r.yoff == st.yoff && r.iszoomed == st.iszoomed
  {
  }

  lemma BordersFit(st: State)
    requires Sized(st)
    ensures st.border > 0 && 5 * st.border <= st.viewX <= 1280 && 5 * st.border <= st.viewY <= 1024
  {
  }

  lemma ClampCases(off: int, max: int)
    requires max >= 0
    ensures -max <= off <= max ==> Clamp(off, max) == off
    ensures !(-max <= off <= max) ==> Clamp(off, max) in {max, -max}
  {
  }

  /** One axis: the passes of the loop, then the clamp. */
  lemma AxisFollowsMarker(pos: int, off: int, view: int, border: int, max: int)
    requires border > 0 && view >= 5 * border && max >= 0
    ensures var x := pos - off;
      var end := Clamp(pos - Settle(x, view, border, 2001), max);
      && (-4002 * border <= x - border && x <= view + 4001 * border ==>
          InViewOrAtEdge(pos - end, view, border, end, max))
      && (border <= x <= view - border && -max <= off <= max ==> end == off)
  {
    hide Settle, Clamp;
    SettledInView(pos - off, view, border);
    ClampCases(pos - Settle(pos - off, view, border, 2001), max);
  }

  lemma SettledInView(x: int, view: int, border: int)
    requires border > 0 && view >= 5 * border
    ensures var y := Settle(x, view, border, 2001);
      && (-4002 * border <= x - border && x <= view + 4001 * border ==> border <= y <= view - border)
      && (border <= x <= view - border ==> y == x)
  {
    hide Settle;
    var n := 2001;
    SettleLands(x, view, border, n);
    assert 2 * n * border == 4002 * border;
  }

  // ---------------------------------------------------------------- the callbacks

  class MapView {
    var mapviewX: int
    var mapviewY: int
    var borderlimit: int
    var zoom: int
    var xoff: int
    var yoff: int
    var iszoomed: bool

    constructor ()
      ensures Now() == State(0, 0, 100, 1, 0, 0, false)
    {
      mapviewX, mapviewY, borderlimit, zoom, xoff, yoff, iszoomed := 0, 0, 100, 1, 0, 0, false;
    }

    ghost function Now(): State
      reads this
    {
      State(mapviewX, mapviewY, borderlimit, zoom, xoff, yoff, iszoomed)
    }

    /** set_mapviewsize_cb. */
    method SetMapviewSize(width: int, height: int)
      modifies this`mapviewX, this`mapviewY, this`borderlimit
      ensures Now() == Resized(old(Now()), width, height)
      ensures Sized(Now())
    {
      mapviewX, mapviewY := width, height;
      if mapviewX > MAPWIDTH { mapviewX := MAPWIDTH; }
      if mapviewY > MAPHEIGHT { mapviewY := MAPHEIGHT; }
      if mapviewX < MIN_VIEW { mapviewX := MIN_VIEW; }
      if mapviewY < MIN_VIEW { mapviewY := MIN_VIEW; }
      if mapviewX < mapviewY {
        borderlimit := DivC(mapviewX, 5);
      } else {
        borderlimit := DivC(mapviewY, 5);
      }
    }

    /** zoom_cb. */
    method ZoomCb(request: ZoomRequest)
      modifies this`zoom, this`xoff, this`yoff, this`iszoomed
      ensures Now() == Zoomed(old(Now()), request)
      ensures ZoomValid(old(zoom)) ==> ZoomValid(zoom)
    {
      if !iszoomed { return; }
      iszoomed := false;
      if request == ZoomIn {
        if zoom >= ZOOM_MAX {
          zoom := ZOOM_MAX;
          iszoomed := true;
        } else {
          zoom := zoom * 2;
          xoff := xoff * 2;
          yoff := yoff * 2;
        }
      } else if request == ZoomOut {
        if zoom <= ZOOM_MIN {
          zoom := ZOOM_MIN;
          iszoomed := true;
        } else {
          zoom := DivC(zoom, 2);
          xoff := DivC(xoff, 2);
          yoff := DivC(yoff, 2);
        }
      }
    }

    /** One pass of the do-while loop of expose_cb. */
    method ScrollPass(posX: int, posY: int) returns (ok: bool)
      modifies this`xoff, this`yoff
      ensures posX - xoff == posX - old(xoff) - Shift(posX - old(xoff), mapviewX, borderlimit)
      ensures posY - yoff == posY - old(yoff) - Shift(posY - old(yoff), mapviewY, borderlimit)
      ensures ok <==> Inside(posX - old(xoff), mapviewX, borderlimit) && Inside(posY - old(yoff), mapviewY, borderlimit)
    {
      ok := true;
      var x, y := posX - xoff, posY - yoff;
      if x < borderlimit { xoff := xoff - 2 * borderlimit; }
      if x > mapviewX - borderlimit { xoff := xoff + 2 * borderlimit; }
      if y < borderlimit { yoff := yoff - 2 * borderlimit; }
      if y > mapviewY - borderlimit { yoff := yoff + 2 * borderlimit; }
      if x < borderlimit { ok := false; }
      if x > mapviewX - borderlimit { ok := false; }
      if y < borderlimit { ok := false; }
      if y > mapviewY - borderlimit { ok := false; }
    }

    /**
     The do-while loop of expose_cb. It ends with the marker inside the border zone unless the marker
     starts more than 3998 borders outside it; only then the "Loop detected" bail-out fires.
     */
    method ScrollToMarker(posX: int, posY: int) returns (loopDetected: bool)
      requires Sized(Now())
      modifies this`xoff, this`yoff
      ensures Now() == Scrolled(old(Now()), posX, posY)
      ensures !loopDetected ==> Inside(posX - xoff, mapviewX, borderlimit) && Inside(posY - yoff, mapviewY, borderlimit)
      ensures loopDetected <==>
        || Outside(posX - old(xoff), mapviewX, borderlimit) > 3998 * borderlimit
        || Outside(posY - old(yoff), mapviewY, borderlimit) > 3998 * borderlimit
    {
      hide Settle, Shift, Inside, Outside;
      var okcount := 0;
      var ok := false;
      loopDetected := false;
      ghost var x0, y0 := posX - xoff, posY - yoff;
      SettleNone(x0, mapviewX, borderlimit);
      SettleNone(y0, mapviewY, borderlimit);
      while !ok
        invariant 0 <= okcount <= MAX_SCROLL_STEPS + 1
        invariant posX - xoff == Settle(x0, mapviewX, borderlimit, okcount)
        invariant posY - yoff == Settle(y0, mapviewY, borderlimit, okcount)
        invariant loopDetected <==> okcount == MAX_SCROLL_STEPS + 1
        invariant ok ==> okcount > 0 && (loopDetected || Settled(x0, y0, okcount - 1))
        invariant !ok ==> okcount <= MAX_SCROLL_STEPS && (okcount > 0 ==> !Settled(x0, y0, okcount - 1))
        invariant loopDetected ==> !Settled(x0, y0, MAX_SCROLL_STEPS - 1)
        decreases MAX_SCROLL_STEPS + 1 - okcount
      {
        SettleOnce(x0, mapviewX, borderlimit, okcount);
        SettleOnce(y0, mapviewY, borderlimit, okcount);
        okcount := okcount + 1;
        ok := ScrollPass(posX, posY);
        if okcount > MAX_SCROLL_STEPS {
          loopDetected := true;
          ok := true;
        }
      }
      SettleLands(x0, mapviewX, borderlimit, MAX_SCROLL_STEPS - 1);
      SettleLands(y0, mapviewY, borderlimit, MAX_SCROLL_STEPS - 1);
      if !loopDetected {
        LoopEnd(x0, mapviewX, borderlimit, okcount);
        LoopEnd(y0, mapviewY, borderlimit, okcount);
      }
    }

    /** Both coordinates are inside the zone after n passes. */
    ghost predicate Settled(x0: int, y0: int, n: nat)
      reads this`mapviewX, this`mapviewY, this`borderlimit
    {
      && Inside(Settle(x0, mapviewX, borderlimit, n), mapviewX, borderlimit)
      && Inside(Settle(y0, mapviewY, borderlimit, n), mapviewY, borderlimit)
    }

    /** The clamp of expose_cb. */
    method ClampOffsets()
      modifies this`xoff, this`yoff
      ensures Now() == Clamped(old(Now()))
    {
      var xoffmax := 640 * zoom - DivC(mapviewX, 2);
      var yoffmax := 512 * zoom - DivC(mapviewY, 2);
      if xoff > xoffmax { xoff := xoffmax; }
      if xoff < -xoffmax { xoff := -xoffmax; }
      if yoff > yoffmax { yoff := yoffmax; }
      if yoff < -yoffmax { yoff := -yoffmax; }
    }

    /** expose_cb, as far as it changes the view. */
    method ExposeCb(width: int, height: int, mapShown: bool, posX: int, posY: int)
      modifies this
      ensures Now() == Exposed(old(Now()), width, height, mapShown, posX, posY)
      ensures Sized(Now()) && (mapShown && zoom >= ZOOM_MIN ==> WithinClamp(Now()))
    {
      SetMapviewSize(width, height);
      if mapShown {
        var _ := ScrollToMarker(posX, posY);
        ClampOffsets();
      }
      iszoomed := true;
    }
  }
}
