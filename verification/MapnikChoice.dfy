/** What a call of set_mapnik_map_ysn asks for, in coordinates; and that every change of what is shown is announced. */
module MapnikChoice {
  import opened Projection
  import opened MapnikTiles
  import opened MapnikHandoff
  import opened MapnikCalls
  import opened Reals

  // ---------------------------------------------------------------- the choice of a tile

  /** c is the middle of the lattice cell that p lies in; cells are two halves wide, and zero is a boundary. */
  predicate MiddleOf(c: real, p: real, half: real, m: int) {
    m % 2 == 1 && c == Times(m as real, half) && InCell(p, half, m)
  }

  ghost predicate CellMiddle(c: real, p: real, half: real) {
    exists m :: MiddleOf(c, p, half, m)
  }

  /** Tiles are 768 pixels apart from west to east and 512 from south to north. */
  ghost predicate LatticePoint(c: Point, scale: real, pt: Point) {
    CellMiddle(c.x, pt.x, 384.0 * (scale * 0.00028)) && CellMiddle(c.y, pt.y, 256.0 * (scale * 0.00028))
  }

  /** The position is at least a border away from the edges of the 1280x1024 image around c. */
  predicate Inner(c: Point, scale: real, border: int, pt: Point) {
    var res := scale * 0.00028;
    && -((640.0 - border as real) * res) <= pt.x - c.x <= (640.0 - border as real) * res
    && -((512.0 - border as real) * res) <= pt.y - c.y <= (512.0 - border as real) * res
  }

  lemma SnapIsMiddle(x: real, extent: int, res: real)
    requires extent >= 2 && extent % 2 == 0 && res > 0.0
    ensures CellMiddle(Snap(x, extent, res), x, (extent / 2) as real * res)
  {
    var half := Times((extent / 2) as real, res);
    SnapIsCellCentre(x, extent, res);
    CellHoldsPosition(x, half);
    hide Snap, Cell, InCell;
    assert MiddleOf(Snap(x, extent, res), x, half, Cell(x, half));
  }

  lemma MiddleIsUnique(c: real, d: real, p: real, half: real)
    requires half > 0.0 && CellMiddle(c, p, half) && CellMiddle(d, p, half)
    ensures c == d
  {
    hide InCell, Cell, Times;
    var m :| MiddleOf(c, p, half, m);
    var n :| MiddleOf(d, p, half, n);
    CellsAreDisjoint(p, half, m);
    CellsAreDisjoint(p, half, n);
  }

  lemma LatticeIsLatticePoint(scale: real, pt: Point, c: Point)
    requires scale > 0.0
    ensures LatticePoint(c, scale, pt) <==> c == Lattice(scale, pt)
  {
    var res := scale * 0.00028;
    PositiveProduct(scale, 0.00028);
    SnapIsMiddle(pt.x, 768, res);
    SnapIsMiddle(pt.y, 512, res);
    hide Snap, CellMiddle;
    if LatticePoint(c, scale, pt) {
      MiddleIsUnique(c.x, Lattice(scale, pt).x, pt.x, 384.0 * res);
      MiddleIsUnique(c.y, Lattice(scale, pt).y, pt.y, 256.0 * res);
    }
  }

  lemma OffTileIsOutside(center: Point, scale: real, border: int, pt: Point)
    ensures OffTile(center, border, Resolution(scale), pt) <==> !Inner(center, scale, border, pt)
  {
    var res := scale * 0.00028;
    var a, b := (640.0 - border as real) * res, (512.0 - border as real) * res;
    assert 0.5 * WIDTH as real == 640.0 && 0.5 * HEIGHT as real == 512.0;
  }

  /** The lattice point is never near the edge. */
  lemma LatticeIsInner(scale: real, border: int, pt: Point)
    requires scale > 0.0 && border <= 256
    ensures Inner(Lattice(scale, pt), scale, border, pt)
  {
    RecentredIsKept(scale, border, pt, Point(0.0, 0.0));
    OffTileIsOutside(Lattice(scale, pt), scale, border, pt);
    hide Lattice;
    var res := Resolution(scale);
    PositiveProduct(scale, PIXEL_SIZE);
    var c := Lattice(scale, pt);
    WithinInnerPart(pt.x - c.x, 384, 640, border, res);
    WithinInnerPart(pt.y - c.y, 256, 512, border, res);
  }

  /**
   With a border of at most 256 pixels the chosen tile has the position in its inner part. It is the old
   one exactly when that has it there, or is the lattice point itself, and nothing forces a new choice.
   */
  lemma ChosenTile(center: Point, scale: real, border: int, pt: Point, force: bool)
    requires scale > 0.0 && border <= 256
    ensures var c := BestTileCenter(center, scale, border, pt, force);
      && Inner(c, scale, border, pt)
      && (force || c != center ==> LatticePoint(c, scale, pt))
      && (!force ==> (c == center <==> Inner(center, scale, border, pt) || LatticePoint(center, scale, pt)))
  {
    var c := BestTileCenter(center, scale, border, pt, force);
    OffTileIsOutside(center, scale, border, pt);
    LatticeIsInner(scale, border, pt);
    LatticeIsLatticePoint(scale, pt, c);
    LatticeIsLatticePoint(scale, pt, center);
    hide OffTile, Lattice, Inner, LatticePoint;
  }

  /**
   One call, for any border: nothing changes while a render is pending, nor when the scale is the shown
   one, nothing is forced, and the position is in the inner part of the shown tile or in its lattice cell.
   Otherwise the tile of the position's cell is shown from the cache, or asked for.
   */
  lemma CallInCoordinates(name: TileName, m: Shared, req: Request, caching: bool, l: Point)
    requires req.scale > 0 && (req.scale == m.scale ==> m.newScale == m.scale)
    requires LatticePoint(l, req.scale as real, req.pt)
    ensures var r := WholeCall(name, m, req, caching);
      var key := name(l, req.scale);
      if m.renderYsn then r == m
      else if req.scale == m.scale && !req.force
        && (Inner(m.center, req.scale as real, req.border, req.pt) || l == m.center) then r == m
      else if caching && key in m.cache then
        r == m.(newScale := req.scale, newCenter := l, pixbuf := m.cache[key], center := l, scale := req.scale,
                newMap := true)
      else r == m.(newScale := req.scale, newCenter := l, renderYsn := true)
  {
    LatticeIsLatticePoint(req.scale as real, req.pt, l);
    OffTileIsOutside(m.center, req.scale as real, req.border, req.pt);
    hide OffTile, Lattice, Inner, LatticePoint;
  }

  // ---------------------------------------------------------------- changes are announced

  /** What a map is drawn from. */
  predicate SameMap(m: Shared, n: Shared) {
    m.pixbuf == n.pixbuf && m.center == n.center && m.scale == n.scale
  }

  /** Since m the map is the same, or a change was announced, or its announcement is still to come. */
  predicate AnnouncedSince(m: Shared, s: State) {
    || s.shared.newMap
    || s.main in {HitCenter, HitScale, HitNewMap}
    || !(s.render.Waiting? || s.render.Render? || s.render.SaveTile? || s.render.DropToken?)
    || SameMap(m, s.shared)
  }

  lemma StepAnnounces(name: TileName, m: Shared, s: State, move: Move)
    requires Inv(name, s) && AnnouncedSince(m, s) && !move.AcknowledgeMap?
    ensures s.main.ChooseCenter? ==> s.shared.newScale > 0
    ensures AnnouncedSince(m, Step(name, s, move))
  {
    hide BestTileCenter;
  }

  /**
   In every interleaving in which no new map is acknowledged: at a moment when neither thread is at work,
   the map is what it was at the start, or NewMapYsn is set.
   */
  lemma {:induction false} EveryChangeIsAnnounced(name: TileName, m: Shared, s: State, moves: seq<Move>)
    requires Inv(name, s) && AnnouncedSince(m, s) && forall i :: 0 <= i < |moves| ==> !moves[i].AcknowledgeMap?
    ensures AnnouncedSince(m, Run(name, s, moves))
    ensures var r := Run(name, s, moves);
      r.main == Away && r.render == Waiting ==> r.shared.newMap || SameMap(m, r.shared)
    decreases |moves|
  {
    hide Inv, Step;
    if moves != [] {
      StepAnnounces(name, m, s, moves[0]);
      StepKeepsInv(name, s, moves[0]);
      EveryChangeIsAnnounced(name, m, Step(name, s, moves[0]), moves[1..]);
    }
  }

  /** An acknowledgement takes the announcement back, and changes nothing else. */
  lemma AcknowledgedOnly(name: TileName, s: State)
    requires Inv(name, s) && s.main == Away
    ensures Step(name, s, AcknowledgeMap) == s.(shared := s.shared.(newMap := false))
  {
  }
}
