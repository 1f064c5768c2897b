/** What a track point means to the reader, child by child, and how far the writer rounds it. */
module GpxFields {
  import opened Common
  import opened Decimal
  import opened Gpx
  import opened GpxRoundTrip

  // ---------------------------------------------------------------- reading

  /** What stands inside a trkpt element: elements with a text, and text between them. */
  datatype Child = Child(tag: Tag, text: string) | Space(text: string)

  function ChildNodes(children: seq<Child>): seq<Node> {
    if children == [] then []
    else
      (match children[0]
       case Child(tag, text) => [Start(tag, "", "", false), Text(text), End(tag)]
       case Space(text) => [Text(text)]) + ChildNodes(children[1..])
  }

  /** The text of the last child of a name. */
  function Last(children: seq<Child>, tag: Tag): Option<string> {
    if children == [] then None
    else if Last(children[1..], tag).Some? then Last(children[1..], tag)
    else if children[0].Child? && children[0].tag == tag then Some(children[0].text)
    else None
  }

  function NumberIn(children: seq<Child>, tag: Tag, default: real): real {
    var text := Last(children, tag);
    if text.Some? then Strtod(text.value) else default
  }

  function FixIn(children: seq<Child>): int {
    var text := Last(children, Fix);
    if text == Some("2d") then 2 else if text == Some("3d") then 3 else if text == Some("dgps") then 4 else 0
  }

  function SatIn(children: seq<Child>): int {
    var text := Last(children, Sat);
    if text.Some? then Atoi(text.value) else 0
  }

  /** The first 29 characters of the time, or of the clock. */
  function TimeIn(children: seq<Child>, now: string): string {
    var text := if Last(children, Time).Some? then Last(children, Time).value else now;
    if |text| < 30 then text else text[..29]
  }

  /** The point that an element means, whatever the order of its children: the last of each name counts. */
  function Meant(lat: string, lon: string, children: seq<Child>, now: string): TrackPoint {
    TrackPoint(Strtod(lat), Strtod(lon), NumberIn(children, Ele, -99999.0), NumberIn(children, Course, 1001.0),
      NumberIn(children, Speed, -1.0), NumberIn(children, Hdop, -1.0), FixIn(children), SatIn(children),
      TimeIn(children, now))
  }

  /** The waypoint after some children agrees with what they mean, except for its type. */
  predicate Holds(w: Waypoint, children: seq<Child>, v: Waypoint) {
    && v.lat == w.lat && v.lon == w.lon
    && v.ele == NumberIn(children, Ele, w.ele) && v.course == NumberIn(children, Course, w.course)
    && v.speed == NumberIn(children, Speed, w.speed) && v.hdop == NumberIn(children, Hdop, w.hdop)
    && v.fix == (if Last(children, Fix).Some? then FixIn(children) else w.fix)
    && v.sat == (if Last(children, Sat).Some? then SatIn(children) else w.sat)
    && v.time == (if Last(children, Time).Some? then Last(children, Time) else w.time)
  }

  lemma {:induction false} ChildrenAreRead(w: Waypoint, children: seq<Child>, more: seq<Node>) returns (v: Waypoint)
    requires forall i :: 0 <= i < |children| && children[i].Child? ==> children[i].tag != Trkpt
    ensures PointLoop(ChildNodes(children) + more, Trkpt, w) == PointLoop(more, Trkpt, v)
    ensures Holds(w, children, v)
    decreases |children|
  {
    hide PointLoop, Holds, ChildNodes;
    if children == [] {
      NoChildren(w);
      assert ChildNodes(children) + more == more;
      v := w;
    } else {
      var first, rest := children[0], ChildNodes(children[1..]) + more;
      var u := ChildIsRead(w, first, rest);
      NodesOfMore(children);
      assert ChildNodes(children) + more == ChildNodes([first]) + rest;
      v := ChildrenAreRead(u, children[1..], more);
      OneMore(w, children, u, v);
    }
  }

  lemma NoChildren(w: Waypoint)
    ensures ChildNodes([]) == [] && Holds(w, [], w)
  {
  }

  lemma NodesOfMore(children: seq<Child>)
    requires children != []
    ensures ChildNodes(children) == ChildNodes([children[0]]) + ChildNodes(children[1..])
  {
    NodesOfOne(children[0]);
  }

  lemma LastOfOne(child: Child, tag: Tag)
    ensures Last([child], tag) == if child.Child? && child.tag == tag then Some(child.text) else None
  {
    assert [child][1..] == [];
  }

  lemma LastOfMore(children: seq<Child>, tag: Tag)
    requires children != []
    ensures Last(children, tag) ==
      if Last(children[1..], tag).Some? then Last(children[1..], tag) else Last([children[0]], tag)
  {
    LastOfOne(children[0], tag);
  }

  lemma NodesOfOne(child: Child)
    ensures ChildNodes([child]) ==
      if child.Child? then [Start(child.tag, "", "", false), Text(child.text), End(child.tag)] else [Text(child.text)]
  {
    assert [child][1..] == [];
  }

  lemma ChildIsRead(w: Waypoint, child: Child, rest: seq<Node>) returns (u: Waypoint)
    requires child.Child? ==> child.tag != Trkpt
    ensures PointLoop(ChildNodes([child]) + rest, Trkpt, w) == PointLoop(rest, Trkpt, u)
    ensures Holds(w, [child], u)
  {
    hide PointLoop, Strtod, Atoi;
    var nodes := ChildNodes([child]) + rest;
    NodesOfOne(child);
    PointCases(nodes, Trkpt, w);
    if child.Space? {
      assert nodes[1..] == rest;
      u := w;
      SpaceHolds(w, child);
    } else {
      var text, end := Text(child.text), End(child.tag);
      assert nodes[0] == Start(child.tag, "", "", false) && nodes[1] == text;
      assert nodes[2..] == [end] + rest && nodes[1..] == [text] + ([end] + rest);
      u := if TakesValue(child.tag, w) then Store(w, child.tag, Some(child.text)) else w;
      StoredHolds(w, child);
      PointCases([text] + ([end] + rest), Trkpt, w);
      PointCases([end] + rest, Trkpt, u);
      assert ([text] + ([end] + rest))[1..] == [end] + rest && ([end] + rest)[1..] == rest;
    }
  }

  lemma SpaceHolds(w: Waypoint, child: Child)
    requires child.Space?
    ensures Holds(w, [child], w)
  {
    hide Last;
    forall tag: Tag ensures Last([child], tag) == None { LastOfOne(child, tag); }
  }

  lemma StoredHolds(w: Waypoint, child: Child)
    requires child.Child?
    ensures Holds(w, [child], if TakesValue(child.tag, w) then Store(w, child.tag, Some(child.text)) else w)
  {
    hide Last, Strtod, Atoi;
    forall tag: Tag ensures Last([child], tag) == if child.tag == tag then Some(child.text) else None {
      LastOfOne(child, tag);
    }
  }

  lemma OneMore(w: Waypoint, children: seq<Child>, u: Waypoint, v: Waypoint)
    requires children != [] && Holds(w, [children[0]], u) && Holds(u, children[1..], v)
    ensures Holds(w, children, v)
  {
    hide Strtod, Atoi, Last;
    forall tag: Tag ensures Last(children, tag) ==
      if Last(children[1..], tag).Some? then Last(children[1..], tag) else Last([children[0]], tag)
    {
      LastOfMore(children, tag);
    }
  }

  /** A point of a track is read as what its children mean, and reading goes on behind it. */
  lemma PointIsMeant(lat: string, lon: string, children: seq<Child>, more: seq<Node>, mode: Tag, now: string)
    requires forall i :: 0 <= i < |children| && children[i].Child? ==> children[i].tag != Trkpt
    ensures SectionLoop([Start(Trkpt, lat, lon, false)] + (ChildNodes(children) + ([End(Trkpt)] + more)), mode, now)
      == Gpx.Before([Meant(lat, lon, children, now)], SectionLoop(more, mode, now))
  {
    hide PointLoop, SectionLoop, Strtod, Gpx.Before, Holds, Meant, PointOf, ChildNodes, EmptyWaypoint;
    var rest := ChildNodes(children) + ([End(Trkpt)] + more);
    var nodes := [Start(Trkpt, lat, lon, false)] + rest;
    assert nodes[1..] == rest;
    SectionCases(nodes, mode, now);
    var v := ChildrenAreRead(EmptyWaypoint(lat, lon), children, [End(Trkpt)] + more);
    PointCases([End(Trkpt)] + more, Trkpt, v);
    assert ([End(Trkpt)] + more)[1..] == more;
    HeldIsMeant(lat, lon, children, now, v);
  }

  lemma HeldIsMeant(lat: string, lon: string, children: seq<Child>, now: string, v: Waypoint)
    requires Holds(EmptyWaypoint(lat, lon), children, v)
    ensures PointOf(v, now) == Meant(lat, lon, children, now)
  {
    hide Strtod, Atoi, Last;
  }

  /** A segment adds its points and then the point that stands for a break, dated by the clock. */
  lemma SegmentIsMeant(lat: string, lon: string, inner: seq<Node>, now: string)
    ensures var r := SectionLoop(inner, Trkseg, now);
      var pause := TrackPoint(1001.0, 1001.0, 1001.0, 1001.0, -1.0, -1.0, 0, 0, if |now| < 30 then now else now[..29]);
      SectionLoop([Start(Trkseg, lat, lon, false)] + inner, Trk, now) == if r.None? then None
        else Gpx.Before(r.value.0 + [pause], SectionLoop(r.value.1, Trk, now))
  {
    hide SectionLoop, Gpx.Before;
    var nodes := [Start(Trkseg, lat, lon, false)] + inner;
    assert nodes[1..] == inner;
    SectionCases(nodes, Trk, now);
  }

  /**
   A child that closes itself and whose text is wanted takes the next node instead. If that is the end of
   the point, the reader misses it and runs on; a sym counts only while the point has no type.
   */
  lemma EndIsMissed(tag: Tag, w: Waypoint, more: seq<Node>) returns (u: Waypoint)
    requires tag in {Name, Cmt, Sym, Type, Ele, Time, Hdop, Course, Speed, Fix, Sat}
    ensures PointLoop([Start(tag, "", "", true), End(Trkpt)] + more, Trkpt, w) ==
      if tag == Sym && w.typ.Some? then Some((w, more)) else PointLoop(more, Trkpt, u)
  {
    var nodes := [Start(tag, "", "", true), End(Trkpt)] + more;
    assert nodes[1..] == [End(Trkpt)] + more && nodes[2..] == more && ([End(Trkpt)] + more)[1..] == more;
    PointCases(nodes, Trkpt, w);
    PointCases([End(Trkpt)] + more, Trkpt, w);
    hide PointLoop;
    u := Store(w, tag, None);
  }

  // ---------------------------------------------------------------- rounding

  /** A point that was written and read back: eight decimals of a degree, three of metres and of speed, two of
      course and precision; what is at a limit becomes the default. */
  lemma NormalIsNear(p: TrackPoint, now: string)
    ensures var q := Normal(p, now);
      && -0.000000005 <= q.lat - p.lat <= 0.000000005 && -0.000000005 <= q.lon - p.lon <= 0.000000005
      && (if p.alt < 1000.0 then -0.0005 <= q.alt - p.alt <= 0.0005 else q.alt == -99999.0)
      && (if p.course < 1000.0 then -0.005 <= q.course - p.course <= 0.005 else q.course == 1001.0)
      && (if p.speed > -1.0 then -0.0005 <= q.speed - p.speed <= 0.0005 else q.speed == -1.0)
      && (if p.hdop > -1.0 then -0.005 <= q.hdop - p.hdop <= 0.005 else q.hdop == -1.0)
      && q.fix == (if 2 <= p.fix <= 4 then p.fix else 0) && q.sat == p.sat
      && var time := if p.postime != "" then p.postime else now;
      q.postime == if |time| < 30 then time else time[..29]
  {
    Powers();
    hide Rounded, Pow10;
    RoundedIsNear(p.lat, 8);
    RoundedIsNear(p.lon, 8);
    RoundedIsNear(p.alt, 3);
    RoundedIsNear(p.course, 2);
    RoundedIsNear(p.speed, 3);
    RoundedIsNear(p.hdop, 2);
  }

  lemma Powers()
    ensures Pow10(2) == 100 && Pow10(3) == 1000 && Pow10(8) == 100000000
  {
    assert Pow10(1) == 10;
    assert Pow10(4) == 10 * Pow10(3);
    assert Pow10(6) == 10 * Pow10(5) && Pow10(5) == 10 * Pow10(4);
  }
}
