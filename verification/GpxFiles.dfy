/** GPX files with any number of tracks, and waypoints, routes and older metadata between them. */
module GpxFiles {
  import opened Common
  import opened Gpx
  import opened GpxRoundTrip
  import opened GpxFile

  /** What may stand below the root: a track as it is written, a waypoint or route with content, blank text, and a
      field of the kind that version 1.0 of the format puts there. */
  datatype Part =
    | Track(points: seq<TrackPoint>)
    | Skipped(tag: Tag, lat: string, lon: string, inner: seq<Node>)
    | Blank(text: string)
    | Field(tag: Tag, text: string)

  function Nodes(part: Part): seq<Node> {
    match part
    case Track(points) => TrackNodes(points)
    case Skipped(tag, lat, lon, inner) => [Start(tag, lat, lon, false)] + inner + [End(tag)]
    case Blank(text) => [Text(text)]
    case Field(tag, text) => [Start(tag, "", "", false), Text(text), End(tag)]
  }

  ghost predicate Good(part: Part) {
    match part
    case Track(points) => forall p :: p in points && !IsBreak(p) ==> HasChild(p)
    case Skipped(tag, _, _, inner) => tag in {Wpt, Rte} && End(tag) !in inner
    case Blank(_) => true
    case Field(tag, _) => tag in {Name, Desc, Author, Email, Url, Urlname, Time, Keywords}
  }

  function AllNodes(parts: seq<Part>): seq<Node> {
    if parts == [] then [] else Nodes(parts[0]) + AllNodes(parts[1..])
  }

  /** The tracks' points, one track after another. */
  function AllExpected(parts: seq<Part>, now: string): seq<TrackPoint> {
    if parts == [] then []
    else (if parts[0].Track? then Expected(parts[0].points, now) else []) + AllExpected(parts[1..], now)
  }

  lemma {:induction false} SkipToEnd(inner: seq<Node>, tag: Tag, more: seq<Node>)
    requires End(tag) !in inner
    ensures SkipTo(inner + ([End(tag)] + more), tag) == Some(more)
    decreases |inner|
  {
    var all := inner + ([End(tag)] + more);
    if inner == [] {
      assert all == [End(tag)] + more && all[1..] == more;
    } else {
      assert all[1..] == inner[1..] + ([End(tag)] + more);
      SkipToEnd(inner[1..], tag, more);
    }
  }

  lemma PlainIsRead(node: Node, more: seq<Node>, now: string)
    requires !node.Start?
    ensures FileLoop([node] + more, now) == FileLoop(more, now)
  {
    hide FileLoop, Joined;
    FileStep(node, more, now);
    JoinedTwice([], [], FileLoop(more, now));
  }

  lemma SkippedIsRead(start: Node, inner: seq<Node>, more: seq<Node>, now: string)
    requires start.Start? && start.tag in {Wpt, Rte} && End(start.tag) !in inner
    ensures FileLoop([start] + inner + [End(start.tag)] + more, now) == FileLoop(more, now)
  {
    hide FileLoop, Joined, SkipTo;
    var rest := inner + ([End(start.tag)] + more);
    assert [start] + inner + [End(start.tag)] + more == [start] + rest;
    SkipToEnd(inner, start.tag, more);
    FileStep(start, rest, now);
    JoinedTwice([], [], FileLoop(more, now));
  }

  lemma FieldIsRead(tag: Tag, text: string, more: seq<Node>, now: string)
    requires tag in {Name, Desc, Author, Email, Url, Urlname, Time, Keywords}
    ensures FileLoop([Start(tag, "", "", false), Text(text), End(tag)] + more, now) == FileLoop(more, now)
  {
    hide FileLoop, Joined;
    var start, rest := Start(tag, "", "", false), [Text(text)] + ([End(tag)] + more);
    assert [start, Text(text), End(tag)] + more == [start] + rest && rest[1..] == [End(tag)] + more;
    FileStep(start, rest, now);
    PlainIsRead(End(tag), more, now);
    JoinedTwice([], [], FileLoop(more, now));
  }

  lemma PartIsRead(part: Part, more: seq<Node>, now: string)
    requires Good(part)
    ensures FileLoop(Nodes(part) + more, now)
      == Joined(if part.Track? then Expected(part.points, now) else [], FileLoop(more, now))
  {
    hide FileLoop, TrackNodes, Expected, Joined, HasChild;
    JoinedTwice([], [], FileLoop(more, now));
    match part
    case Track(points) => TrackIsRead(points, more, now);
    case Skipped(tag, lat, lon, inner) => SkippedIsRead(Start(tag, lat, lon, false), inner, more, now);
    case Blank(text) => PlainIsRead(Text(text), more, now);
    case Field(tag, text) => FieldIsRead(tag, text, more, now);
  }

  /** Any number of tracks, with anything of these kinds between them, is read as one track after another. */
  lemma {:induction false} PartsAreRead(parts: seq<Part>, more: seq<Node>, now: string)
    requires forall i :: 0 <= i < |parts| ==> Good(parts[i])
    ensures FileLoop(AllNodes(parts) + more, now) == Joined(AllExpected(parts, now), FileLoop(more, now))
    decreases |parts|
  {
    hide FileLoop, Nodes, Expected, Joined;
    if parts == [] {
      assert AllNodes(parts) + more == more;
      JoinedTwice([], [], FileLoop(more, now));
    } else {
      var first := if parts[0].Track? then Expected(parts[0].points, now) else [];
      var rest := AllNodes(parts[1..]);
      assert AllNodes(parts) + more == Nodes(parts[0]) + (rest + more);
      PartIsRead(parts[0], rest + more, now);
      PartsAreRead(parts[1..], more, now);
      JoinedTwice(first, AllExpected(parts[1..], now), FileLoop(more, now));
    }
  }

  /** A whole file: the root, the metadata block of version 1.1, the parts, the end of the root. */
  lemma FileIsRead(info: Info, parts: seq<Part>, now: string)
    requires forall i :: 0 <= i < |parts| ==> Good(parts[i])
    ensures FileLoop([Start(GpxRoot, "", "", false), NEWLINE, Start(Metadata, "", "", false), NEWLINE]
        + (MetadataNodes(info) + ([NEWLINE] + (AllNodes(parts) + [End(GpxRoot)]))), now)
      == Some(AllExpected(parts, now))
  {
    hide FileLoop, MetadataNodes, AllNodes, MetadataLoop, AllExpected, Good;
    var body := AllNodes(parts) + [End(GpxRoot)];
    var after := [NEWLINE] + body;
    var block := MetadataNodes(info) + after;
    var inner, meta := [NEWLINE] + block, Start(Metadata, "", "", false);
    assert [Start(GpxRoot, "", "", false), NEWLINE, meta, NEWLINE] + block
        == [Start(GpxRoot, "", "", false)] + ([NEWLINE] + ([meta] + inner));
    PlainNodes([NEWLINE] + ([meta] + inner), now);
    PlainNodes([meta] + inner, now);
    FileStep(meta, inner, now);
    assert inner[1..] == block;
    MetadataIsRead(info, after);
    PlainNodes(body, now);
    JoinedTwice([], [], FileLoop(after, now));
    PartsAreRead(parts, [End(GpxRoot)], now);
    PlainNodes([], now);
    FileOfNothing(now);
    assert [End(GpxRoot)] + [] == [End(GpxRoot)] && AllExpected(parts, now) + [] == AllExpected(parts, now);
  }

  lemma {:induction false} NoEndToSkipTo(nodes: seq<Node>, tag: Tag)
    requires End(tag) !in nodes
    ensures SkipTo(nodes, tag) == None
  {
    if nodes != [] {
      assert nodes[0] in nodes;
      NoEndToSkipTo(nodes[1..], tag);
    }
  }

  /** A waypoint or route that closes itself: the reader looks for a later one's end, and waits for ever without
      one, whatever tracks follow. */
  lemma SelfClosingIsNeverLeft(start: Node, more: seq<Node>, now: string)
    requires start.Start? && start.tag in {Wpt, Rte} && End(start.tag) !in more
    ensures FileLoop([start] + more, now) == None
  {
    hide FileLoop;
    NoEndToSkipTo(more, start.tag);
    FileStep(start, more, now);
  }
}
