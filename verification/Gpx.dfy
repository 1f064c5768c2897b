/**
 The GPX track writer and reader of src/gpx.c over a stream of XML reader nodes. Numbers are written
 and read as text; a gdouble is an exact real.
 */
module Gpx {
  import opened Common
  import opened Decimal

  // ---------------------------------------------------------------- data

  /** Element names that the code compares with. */
  datatype Tag =
    | Trk | Trkseg | Trkpt | Rte | Rtept | Wpt
    | Ele | Time | Course | Speed | Fix | Sat | Hdop
    | Name | Cmt | Sym | Type | Desc | Src | Url | Urlname | Number
    | GpxRoot | Metadata | Author | Email | Link | LinkText | Keywords
    | Other(string)

  /** What xmlTextReaderRead delivers. A self-closing element is one Start with `empty` set, and no End. */
  datatype Node = Start(tag: Tag, lat: string, lon: string, empty: bool) | Text(value: string) | End(tag: Tag)

  /** trackdata_struct. */
  datatype TrackPoint = TrackPoint(
    lat: real, lon: real, alt: real, course: real, speed: real, hdop: real, fix: int, sat: int, postime: string)

  const NEWLINE := Text("\n")
  const POSTIME_SIZE := 30

  /** A point with a longitude above 1000 separates segments. */
  predicate IsBreak(p: TrackPoint) {
    p.lon > 1000.0
  }

  /** g_strlcpy into postime. */
  function Clip(s: string): (t: string)
    ensures |t| < POSTIME_SIZE && (s != "" ==> t != "")
  {
    if |s| < POSTIME_SIZE then s else s[..POSTIME_SIZE - 1]
  }

  /** The break that the reader adds after a segment; its time is the clock. */
  function Break(now: string): TrackPoint {
    TrackPoint(1001.0, 1001.0, 1001.0, 1001.0, -1.0, -1.0, 0, 0, Clip(now))
  }

  // ---------------------------------------------------------------- the writer

  function Element(tag: Tag, text: string): seq<Node> {
    [Start(tag, "", "", false), Text(text), End(tag)]
  }

  function Optional(write: bool, tag: Tag, text: string): seq<Node> {
    if write then Element(tag, text) else []
  }

  function FixText(fix: int): string {
    if fix == 2 then "2d" else if fix == 3 then "3d" else "dgps"
  }

  /** The children of a trkpt element, in the order of the schema. */
  function Children(p: TrackPoint): seq<Node> {
    Optional(p.alt < 1000.0, Ele, FixedText(p.alt, 3)) + (
    Optional(p.postime != "", Time, p.postime) + (
    Optional(p.course < 1000.0, Course, FixedText(p.course, 2)) + LaterChildren(p)))
  }

  function LaterChildren(p: TrackPoint): seq<Node> {
    Optional(p.speed > -1.0, Speed, FixedText(p.speed, 3)) + (
    Optional(p.fix in {2, 3, 4}, Fix, FixText(p.fix)) + (
    Optional(p.sat != 0, Sat, IntText(p.sat)) +
    Optional(p.hdop > -1.0, Hdop, FixedText(p.hdop, 2))))
  }

  /** The writer closes an element without content as a self-closing one. */
  function PointNodes(p: TrackPoint): seq<Node> {
    var lat, lon := FixedText(p.lat, 8), FixedText(p.lon, 8);
    if Children(p) == [] then [Start(Trkpt, lat, lon, true)]
    else [Start(Trkpt, lat, lon, false)] + Children(p) + [End(Trkpt)]
  }

  const OPEN_SEGMENT := [Start(Trkseg, "", "", false), NEWLINE]
  const CLOSE_SEGMENT := [End(Trkseg), NEWLINE]

  /** The nodes written for the points; j says that no point has been written since the last break. */
  function Body(track: seq<TrackPoint>, j: bool): seq<Node> {
    if track == [] then []
    else if IsBreak(track[0]) then (if j then [] else CLOSE_SEGMENT + OPEN_SEGMENT) + Body(track[1..], true)
    else PointNodes(track[0]) + ([NEWLINE] + Body(track[1..], false))
  }

  function TrackNodes(track: seq<TrackPoint>): seq<Node> {
    [Start(Trk, "", "", false), NEWLINE] + (OPEN_SEGMENT + (Body(track, true) + (CLOSE_SEGMENT + [End(Trk), NEWLINE])))
  }

  // ---------------------------------------------------------------- the reader

  /** wpt_struct, as far as it decides what is read or stored in a track point. */
  datatype Waypoint = Waypoint(
    lat: real, lon: real, ele: real, course: real, speed: real, hdop: real, fix: int, sat: int,
    typ: Option<string>, time: Option<string>)

  function EmptyWaypoint(lat: string, lon: string): Waypoint {
    Waypoint(Strtod(lat), Strtod(lon), -99999.0, 1001.0, -1.0, -1.0, 0, 0, None, None)
  }

  /** xmlTextReaderValue. */
  function Value(n: Node): Option<string> {
    if n.Text? then Some(n.value) else None
  }

  /** The reader takes the node after this start tag as its value. */
  predicate TakesValue(tag: Tag, w: Waypoint) {
    tag in {Name, Cmt, Type, Ele, Time, Hdop, Course, Speed, Fix, Sat} || (tag == Sym && w.typ.None?)
  }

  function NumberOf(v: Option<string>): real {
    if v.Some? then Strtod(v.value) else 0.0
  }

  function Store(w: Waypoint, tag: Tag, v: Option<string>): Waypoint {
    match tag
    case Sym => w.(typ := v)
    case Type => w.(typ := v)
    case Ele => w.(ele := NumberOf(v))
    case Time => w.(time := v)
    case Hdop => w.(hdop := NumberOf(v))
    case Course => w.(course := NumberOf(v))
    case Speed => w.(speed := NumberOf(v))
    case Fix =>
      w.(fix := if v == Some("2d") then 2 else if v == Some("3d") then 3 else if v == Some("dgps") then 4 else 0)
    case Sat => w.(sat := if v.Some? then Atoi(v.value) else 0)
    case _ => w
  }

  /** The loop of gpx_handle_point over the nodes still to read. None: it waits for an end that never comes. */
  function PointLoop(rest: seq<Node>, mode: Tag, w: Waypoint): (r: Option<(Waypoint, seq<Node>)>)
    ensures r.Some? ==> |r.value.1| < |rest|
    decreases |rest|
  {
    if rest == [] then None
    else
      match rest[0]
      case End(tag) => if tag == mode then Some((w, rest[1..])) else PointLoop(rest[1..], mode, w)
      case Text(_) => PointLoop(rest[1..], mode, w)
      case Start(tag, _, _, _) =>
        if !TakesValue(tag, w) then PointLoop(rest[1..], mode, w)
        else if |rest| == 1 then None
        else PointLoop(rest[2..], mode, Store(w, tag, Value(rest[1])))
  }

  /** One turn of the point loop, case by case. */
  lemma PointCases(rest: seq<Node>, mode: Tag, w: Waypoint)
    requires rest != []
    ensures PointLoop(rest, mode, w) ==
      if rest[0] == End(mode) then Some((w, rest[1..]))
      else if !(rest[0].Start? && TakesValue(rest[0].tag, w)) then PointLoop(rest[1..], mode, w)
      else if |rest| == 1 then None
      else PointLoop(rest[2..], mode, Store(w, rest[0].tag, Value(rest[1])))
  {
    hide TakesValue, Store;
  }

  lemma PointNothing(mode: Tag, w: Waypoint)
    ensures PointLoop([], mode, w) == None
  {
  }

  /** add_trackpoint's argument for a read point: without a time, the clock is used. */
  function PointOf(w: Waypoint, now: string): TrackPoint {
    var time := if w.time.Some? then w.time.value else now;
    TrackPoint(w.lat, w.lon, w.ele, w.course, w.speed, w.hdop, w.fix, w.sat, Clip(time))
  }

  /** The loop of gpx_handle_rte_trk: the points added, and the nodes left. */
  function SectionLoop(rest: seq<Node>, mode: Tag, now: string): (r: Option<(seq<TrackPoint>, seq<Node>)>)
    ensures r.Some? ==> |r.value.1| < |rest|
    decreases |rest|
  {
    if rest == [] then None
    else
      match rest[0]
      case End(tag) => if tag == mode then Some(([], rest[1..])) else SectionLoop(rest[1..], mode, now)
      case Text(_) => SectionLoop(rest[1..], mode, now)
      case Start(tag, lat, lon, empty) =>
        if tag == Rtept || tag == Trkpt then
          match PointLoop(rest[1..], tag, EmptyWaypoint(lat, lon))
          case None => None
          case Some((w, after)) => Before(if tag == Trkpt then [PointOf(w, now)] else [], SectionLoop(after, mode, now))
        else if tag == Trkseg && !empty then
          match SectionLoop(rest[1..], Trkseg, now)
          case None => None
          case Some((points, after)) => Before(points + [Break(now)], SectionLoop(after, mode, now))
        else if tag in {Name, Cmt, Desc, Src, Url, Urlname, Number} then
          if |rest| == 1 then None else SectionLoop(rest[2..], mode, now)
        else SectionLoop(rest[1..], mode, now)
  }

  function Before(points: seq<TrackPoint>, r: Option<(seq<TrackPoint>, seq<Node>)>)
    : Option<(seq<TrackPoint>, seq<Node>)>
  {
    match r
    case None => None
    case Some((more, after)) => Some((points + more, after))
  }

  /** One turn of the section loop, case by case. */
  lemma SectionCases(rest: seq<Node>, mode: Tag, now: string)
    requires rest != []
    ensures rest[0] == End(mode) ==> SectionLoop(rest, mode, now) == Some(([], rest[1..]))
    ensures rest[0].Text? || (rest[0].End? && rest[0].tag != mode) || Passed(rest[0])
      ==> SectionLoop(rest, mode, now) == SectionLoop(rest[1..], mode, now)
    ensures HasOneValue(rest[0]) ==>
      SectionLoop(rest, mode, now) == if |rest| == 1 then None else SectionLoop(rest[2..], mode, now)
    ensures rest[0].Start? && rest[0].tag in {Rtept, Trkpt} ==>
      var r := PointLoop(rest[1..], rest[0].tag, EmptyWaypoint(rest[0].lat, rest[0].lon));
      SectionLoop(rest, mode, now) == if r.None? then None
        else Before(if rest[0].tag == Trkpt then [PointOf(r.value.0, now)] else [], SectionLoop(r.value.1, mode, now))
    ensures rest[0].Start? && rest[0].tag == Trkseg && !rest[0].empty ==>
      var r := SectionLoop(rest[1..], Trkseg, now);
      SectionLoop(rest, mode, now) == if r.None? then None
        else Before(r.value.0 + [Break(now)], SectionLoop(r.value.1, mode, now))
  {
    hide PointLoop, Before;
  }

  lemma SectionNothing(mode: Tag, now: string)
    ensures SectionLoop([], mode, now) == None
  {
  }

  /** Start tags of a section that take the next node as their value, and those that are passed over. */
  predicate HasOneValue(n: Node) {
    n.Start? && n.tag in {Name, Cmt, Desc, Src, Url, Urlname, Number}
  }

  predicate Passed(n: Node) {
    n.Start? && n.tag !in {Rtept, Trkpt} && !(n.tag == Trkseg && !n.empty) && !HasOneValue(n)
  }

  lemma NothingBefore(r: Option<(seq<TrackPoint>, seq<Node>)>)
    ensures Before([], r) == r
  {
    if r.Some? { assert [] + r.value.0 == r.value.0; }
  }

  lemma BeforeOne(a: seq<TrackPoint>, b: seq<TrackPoint>, after: seq<Node>)
    ensures Before(a, Some((b, after))) == Some((a + b, after)) && Before(a, None) == None
  {
  }

  lemma BeforeTwice(a: seq<TrackPoint>, b: seq<TrackPoint>, r: Option<(seq<TrackPoint>, seq<Node>)>)
    ensures Before(a, Before(b, r)) == Before(a + b, r)
  {
    if r.Some? { assert a + (b + r.value.0) == a + b + r.value.0; }
  }

  /** Reading from just after a trk start tag. */
  function ReadTrack(nodes: seq<Node>, now: string): Option<seq<TrackPoint>>
    requires nodes != []
  {
    match SectionLoop(nodes[1..], Trk, now)
    case None => None
    case Some((points, _)) => Some(points)
  }

  // ---------------------------------------------------------------- the functions themselves

  /** The GPX_TRK branch of gpx_file_write. */
  method WriteTrack(trackcoord: seq<TrackPoint>) returns (nodes: seq<Node>, count: nat)
    ensures nodes == TrackNodes(trackcoord)
    ensures count == |Valid(trackcoord)|
  {
    hide PointNodes;
    nodes := [Start(Trk, "", "", false), NEWLINE] + OPEN_SEGMENT;
    count := 0;
    var j := true;
    var i := 0;
    ghost var start := nodes;
    while i < |trackcoord|
      invariant 0 <= i <= |trackcoord|
      invariant start + Body(trackcoord, true) == nodes + Body(trackcoord[i..], j)
      invariant count + |Valid(trackcoord[i..])| == |Valid(trackcoord)|
    {
      assert trackcoord[i..][1..] == trackcoord[i + 1..];
      ghost var was := nodes;
      if trackcoord[i].lon > 1000.0 {
        if !j {
          nodes := nodes + (CLOSE_SEGMENT + OPEN_SEGMENT);
          j := true;
        }
      } else {
        nodes := nodes + (PointNodes(trackcoord[i]) + [NEWLINE]);
        j := false;
        count := count + 1;
        assert was + Body(trackcoord[i..], false)
            == was + (PointNodes(trackcoord[i]) + [NEWLINE]) + Body(trackcoord[i + 1..], false);
      }
      i := i + 1;
    }
    assert trackcoord[i..] == [];
    assert start + Body(trackcoord, true) == nodes + [];
    nodes := nodes + (CLOSE_SEGMENT + [End(Trk), NEWLINE]);
    assert nodes == start + Body(trackcoord, true) + (CLOSE_SEGMENT + [End(Trk), NEWLINE]);
  }

  /** The points of a track that are not breaks. */
  function Valid(track: seq<TrackPoint>): seq<TrackPoint> {
    if track == [] then []
    else (if IsBreak(track[0]) then [] else [track[0]]) + Valid(track[1..])
  }

  /** An XML reader over a node stream, and the track it fills. */
  class Reader {
    const nodes: seq<Node>
    var pos: nat
    var trackcoord: seq<TrackPoint>
    var points: nat

    /** gpx_file_read in mode GPX_TRK, standing on the start tag of the track. */
    constructor (nodes: seq<Node>)
      requires nodes != []
      ensures this.nodes == nodes && pos == 0 && trackcoord == []
    {
      this.nodes := nodes;
      pos, trackcoord, points := 0, [], 0;
    }

    ghost predicate Standing()
      reads this`pos
    {
      pos < |nodes|
    }

    /** The nodes after the current one. */
    ghost function Rest(): seq<Node>
      requires Standing()
      reads this`pos
    {
      nodes[pos + 1..]
    }

    /** The body of gpx_handle_point's loop; ok is false when the loop would wait for ever. */
    method PointTurn(mode: Tag, wpt: Waypoint) returns (ok: bool, found: bool, next: Waypoint)
      requires Standing()
      modifies this`pos
      ensures var r := PointLoop(old(Rest()), mode, wpt);
        if !ok then r == None
        else Standing() && pos > old(pos) && r == if found then Some((next, Rest())) else PointLoop(Rest(), mode, next)
    {
      hide TakesValue, Store, PointLoop, Value;
      ghost var rest := Rest();
      ok, found, next := true, false, wpt;
      PointNothing(mode, wpt);
      if pos + 1 == |nodes| { return false, false, wpt; }
      PointCases(rest, mode, wpt);
      pos := pos + 1;
      var node := nodes[pos];
      assert rest[0] == node && rest[1..] == Rest();
      if node.Start? {
        if TakesValue(node.tag, wpt) {
          if pos + 1 == |nodes| { return false, false, wpt; }
          pos := pos + 1;
          assert rest[2..] == Rest();
          next := Store(wpt, node.tag, Value(nodes[pos]));
        }
      } else if node.End? && node.tag == mode {
        found := true;
      }
    }

    /** gpx_handle_point. */
    method HandlePoint(mode: Tag, now: string) returns (ok: bool)
      requires Standing() && nodes[pos].Start?
      modifies this
      ensures var r := PointLoop(old(Rest()), mode, EmptyWaypoint(old(nodes[pos].lat), old(nodes[pos].lon)));
        if !ok then r.None?
        else r.Some? && Standing() && pos > old(pos) && Rest() == r.value.1
             && trackcoord == old(trackcoord) + if mode == Trkpt then [PointOf(r.value.0, now)] else []
    {
      hide EmptyWaypoint, TakesValue, Store, PointOf, PointLoop;
      var wpt := EmptyWaypoint(nodes[pos].lat, nodes[pos].lon);
      points := points + 1;
      ghost var r := PointLoop(Rest(), mode, wpt);
      ghost var start := pos;
      var found := false;
      while !found
        invariant Standing() && pos >= start && (found ==> pos > start) && trackcoord == old(trackcoord)
        invariant r == if found then Some((wpt, Rest())) else PointLoop(Rest(), mode, wpt)
        decreases |nodes| - pos, !found
      {
        ok, found, wpt := PointTurn(mode, wpt);
        if !ok { return false; }
      }
      if mode == Trkpt {
        trackcoord := trackcoord + [PointOf(wpt, now)];
      }
      return true;
    }

    /** A trkseg element with content: its points, then one break. */
    method HandleSegment(now: string) returns (ok: bool, ghost added: seq<TrackPoint>)
      requires Standing()
      modifies this
      ensures var r := SectionLoop(old(Rest()), Trkseg, now);
        if !ok then r.None?
        else r.Some? && Standing() && pos > old(pos) && Rest() == r.value.1
             && added == r.value.0 + [Break(now)] && trackcoord == old(trackcoord) + added
      decreases |nodes| - pos, 2
    {
      hide SectionLoop;
      ghost var r := SectionLoop(Rest(), Trkseg, now);
      added := [];
      ok := HandleRteTrk(Trkseg, now);
      if ok {
        trackcoord := trackcoord + [Break(now)];
        added := r.value.0 + [Break(now)];
      }
    }

    /** The body of gpx_handle_rte_trk's loop. */
    method SectionTurn(mode: Tag, now: string) returns (ok: bool, found: bool, ghost more: seq<TrackPoint>)
      requires Standing()
      modifies this
      ensures var r := SectionLoop(old(Rest()), mode, now);
        if !ok then r == None
        else
          && Standing() && pos > old(pos) && trackcoord == old(trackcoord) + more
          && r == if found then Some((more, Rest())) else Before(more, SectionLoop(Rest(), mode, now))
      decreases |nodes| - pos, 0
    {
      hide Before, PointLoop, SectionLoop, PointOf, EmptyWaypoint, Break, Clip;
      ghost var rest := Rest();
      ok, found, more := true, false, [];
      SectionNothing(mode, now);
      if pos + 1 == |nodes| { return false, false, []; }
      SectionCases(rest, mode, now);
      pos := pos + 1;
      var node := nodes[pos];
      assert rest[0] == node && rest[1..] == Rest();
      if node.Start? {
        if node.tag == Rtept || node.tag == Trkpt {
          ok := HandlePoint(node.tag, now);
          more := if ok then trackcoord[|old(trackcoord)|..] else [];
        } else if node.tag == Trkseg && !node.empty {
          ok, more := HandleSegment(now);
        } else if node.tag in {Name, Cmt, Desc, Src, Url, Urlname, Number} {
          if pos + 1 == |nodes| { return false, false, []; }
          pos := pos + 1;
          assert rest[2..] == Rest();
          NothingBefore(SectionLoop(Rest(), mode, now));
        } else {
          NothingBefore(SectionLoop(Rest(), mode, now));
        }
      } else if node.End? && node.tag == mode {
        found := true;
      } else {
        NothingBefore(SectionLoop(Rest(), mode, now));
      }
    }

    /** gpx_handle_rte_trk. */
    method HandleRteTrk(mode: Tag, now: string) returns (ok: bool)
      requires Standing()
      modifies this
      ensures var r := SectionLoop(old(Rest()), mode, now);
        if !ok then r.None?
        else r.Some? && Standing() && pos > old(pos) && Rest() == r.value.1 && trackcoord == old(trackcoord) + r.value.0
      decreases |nodes| - pos, 1
    {
      hide Before, SectionLoop;
      ghost var r := SectionLoop(Rest(), mode, now);
      ghost var added: seq<TrackPoint> := [];
      NothingBefore(r);
      var found := false;
      ok := true;
      while !found
        invariant Standing() && pos >= old(pos) && (found ==> pos > old(pos)) && trackcoord == old(trackcoord) + added
        invariant r == if found then Some((added, Rest())) else Before(added, SectionLoop(Rest(), mode, now))
        decreases |nodes| - pos, !found
      {
        ghost var rest := Rest();
        ghost var more;
        BeforeOne(added, [], []);
        ok, found, more := SectionTurn(mode, now);
        if !ok { return; }
        if found {
          BeforeOne(added, more, Rest());
        } else {
          BeforeTwice(added, more, SectionLoop(Rest(), mode, now));
        }
        added := added + more;
      }
    }
  }
}
