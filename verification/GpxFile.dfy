/**
 Whole GPX files: gpx_file_read in mode GPX_TRK, the metadata handlers as far as they move the reader,
 and gpx_file_write's metadata block. What the handlers store in gpx_info is not part of this model.
 */
module GpxFile {
  import opened Common
  import opened Gpx
  import opened GpxRoundTrip

  // ---------------------------------------------------------------- reading

  /** Nodes after the next end tag of this name; None when it never comes. */
  function SkipTo(rest: seq<Node>, tag: Tag): (r: Option<seq<Node>>)
    ensures r.Some? ==> |r.value| < |rest|
  {
    if rest == [] then None else if rest[0] == End(tag) then Some(rest[1..]) else SkipTo(rest[1..], tag)
  }

  /** A loop that reads to an end tag and takes one more node after each start tag of the given names. */
  function TakingLoop(rest: seq<Node>, tag: Tag, taking: set<Tag>): (r: Option<seq<Node>>)
    ensures r.Some? ==> |r.value| < |rest|
    decreases |rest|
  {
    if rest == [] then None
    else if rest[0] == End(tag) then Some(rest[1..])
    else if rest[0].Start? && rest[0].tag in taking then
      if |rest| == 1 then None else TakingLoop(rest[2..], tag, taking)
    else TakingLoop(rest[1..], tag, taking)
  }

  const AUTHOR_TAKES: set<Tag> := {Name}
  const LINK_TAKES: set<Tag> := {LinkText, Type}
  const METADATA_TAKES: set<Tag> := {Name, Desc, Time, Keywords}

  /** The loop of gpx_handle_gpxinfo_v11. */
  function MetadataLoop(rest: seq<Node>): (r: Option<seq<Node>>)
    ensures r.Some? ==> |r.value| < |rest|
    decreases |rest|
  {
    if rest == [] then None
    else if rest[0] == End(Metadata) then Some(rest[1..])
    else if rest[0].Start? && rest[0].tag in METADATA_TAKES then (if |rest| == 1 then None else MetadataLoop(rest[2..]))
    else if rest[0].Start? && rest[0].tag == Author then
      match TakingLoop(rest[1..], Author, AUTHOR_TAKES)
      case None => None
      case Some(after) => MetadataLoop(after)
    else if rest[0].Start? && rest[0].tag == Link then
      match TakingLoop(rest[1..], Link, LINK_TAKES)
      case None => None
      case Some(after) => MetadataLoop(after)
    else MetadataLoop(rest[1..])
  }

  /** gpx_handle_gpxinfo_v11: it passes over the first node after the start tag, whatever it is. */
  function ReadMetadata(rest: seq<Node>): (r: Option<seq<Node>>)
    ensures r.Some? ==> |r.value| < |rest|
  {
    if rest == [] then None
    else if rest[0] == End(Metadata) then Some(rest[1..])
    else MetadataLoop(rest[1..])
  }

  /** Start tags below the root that gpx_handle_gpxinfo_v10 reads one node further for. */
  const ROOT_TAKES: set<Tag> := {Name, Desc, Author, Email, Url, Urlname, Time, Keywords}

  /** The nodes after what one turn of gpx_file_read's loop reads beyond its node, and the points it adds. */
  function FileTurn(node: Node, rest: seq<Node>, now: string): (r: Option<(seq<TrackPoint>, seq<Node>)>)
    ensures r.Some? ==> |r.value.1| <= |rest|
  {
    if !node.Start? then Some(([], rest))
    else if node.tag == Trk then SectionLoop(rest, Trk, now)
    else if node.tag == Wpt || node.tag == Rte then NoPoints(SkipTo(rest, node.tag))
    else if node.tag == Metadata then NoPoints(ReadMetadata(rest))
    else if node.tag in ROOT_TAKES then Some(([], if rest == [] then [] else rest[1..]))
    else Some(([], rest))
  }

  function NoPoints(r: Option<seq<Node>>): Option<(seq<TrackPoint>, seq<Node>)> {
    if r.None? then None else Some(([], r.value))
  }

  /** gpx_file_read's loop in mode GPX_TRK; None when a loop waits for an end tag that never comes. */
  function FileLoop(nodes: seq<Node>, now: string): Option<seq<TrackPoint>>
    decreases |nodes|
  {
    if nodes == [] then Some([])
    else
      match FileTurn(nodes[0], nodes[1..], now)
      case None => None
      case Some((points, after)) => Joined(points, FileLoop(after, now))
  }

  function Joined(points: seq<TrackPoint>, more: Option<seq<TrackPoint>>): Option<seq<TrackPoint>> {
    if more.None? then None else Some(points + more.value)
  }

  lemma JoinedTwice(a: seq<TrackPoint>, b: seq<TrackPoint>, f: Option<seq<TrackPoint>>)
    ensures Joined(a, Joined(b, f)) == Joined(a + b, f) && Joined([], f) == f
  {
    if f.Some? { assert a + (b + f.value) == a + b + f.value && [] + f.value == f.value; }
  }

  // ---------------------------------------------------------------- the reading methods

  /** A loop that reads on to an end tag, taking one more node after some start tags. */
  method ReadTaking(r: Reader, tag: Tag, taking: set<Tag>) returns (ok: bool)
    requires r.Standing()
    modifies r`pos
    ensures var t := TakingLoop(old(r.Rest()), tag, taking);
      if !ok then t.None? else t == Some(if r.Standing() then r.Rest() else []) && r.Standing() && r.pos > old(r.pos)
  {
    ghost var goal := TakingLoop(r.Rest(), tag, taking);
    var found := false;
    while !found
      invariant r.Standing() && r.pos >= old(r.pos) && (found ==> r.pos > old(r.pos))
      invariant goal == if found then Some(r.Rest()) else TakingLoop(r.Rest(), tag, taking)
      decreases |r.nodes| - r.pos, !found
    {
      ghost var rest := r.Rest();
      if r.pos + 1 == |r.nodes| { return false; }
      r.pos := r.pos + 1;
      var node := r.nodes[r.pos];
      assert rest[0] == node && rest[1..] == r.Rest();
      if node == End(tag) {
        found := true;
      } else if node.Start? && node.tag in taking {
        if r.pos + 1 == |r.nodes| { return false; }
        r.pos := r.pos + 1;
        assert rest[2..] == r.Rest();
      }
    }
    return true;
  }

  lemma TakingNothing(rest: seq<Node>, tag: Tag)
    ensures TakingLoop(rest, tag, {}) == SkipTo(rest, tag)
  {
  }

  /** gpx_handle_gpxinfo_v11. */
  method HandleMetadata(r: Reader) returns (ok: bool)
    requires r.Standing()
    modifies r`pos
    ensures var m := ReadMetadata(old(r.Rest()));
      if !ok then m.None? else r.Standing() && m == Some(r.Rest()) && r.pos > old(r.pos)
  {
    ghost var goal := ReadMetadata(r.Rest());
    ghost var all := r.Rest();
    if r.pos + 1 == |r.nodes| { return false; }
    r.pos := r.pos + 1;
    assert all[0] == r.nodes[r.pos] && all[1..] == r.Rest();
    var found := r.nodes[r.pos] == End(Metadata);
    ok := true;
    while !found
      invariant r.Standing() && r.pos > old(r.pos)
      invariant goal == if found then Some(r.Rest()) else MetadataLoop(r.Rest())
      decreases |r.nodes| - r.pos, !found
    {
      ghost var rest := r.Rest();
      if r.pos + 1 == |r.nodes| { return false; }
      r.pos := r.pos + 1;
      var node := r.nodes[r.pos];
      assert rest[0] == node && rest[1..] == r.Rest();
      if node == End(Metadata) {
        found := true;
      } else if node.Start? && node.tag in METADATA_TAKES {
        if r.pos + 1 == |r.nodes| { return false; }
        r.pos := r.pos + 1;
        assert rest[2..] == r.Rest();
      } else if node.Start? && node.tag == Author {
        ok := ReadTaking(r, Author, AUTHOR_TAKES);
        if !ok { return; }
      } else if node.Start? && node.tag == Link {
        ok := ReadTaking(r, Link, LINK_TAKES);
        if !ok { return; }
      }
    }
  }

  /** One turn of gpx_file_read's loop, up to the read that moves it on. */
  method HandleNode(r: Reader, now: string) returns (ok: bool)
    requires r.Standing()
    modifies r
    ensures var t := FileTurn(old(r.nodes[r.pos]), old(r.Rest()), now);
      if !ok then t.None?
      else
        && r.Standing() && r.pos >= old(r.pos) && t.Some? && t.value.1 == r.Rest()
        && r.trackcoord == old(r.trackcoord) + t.value.0
  {
    hide SectionLoop, ReadMetadata, TakingLoop, SkipTo;
    var node := r.nodes[r.pos];
    ok := true;
    if node.Start? {
      if node.tag == Trk {
        ok := r.HandleRteTrk(Trk, now);
      } else if node.tag == Wpt || node.tag == Rte {
        TakingNothing(r.Rest(), node.tag);
        ok := ReadTaking(r, node.tag, {});
      } else if node.tag == Metadata {
        ok := HandleMetadata(r);
      } else if node.tag in ROOT_TAKES {
        ghost var rest := r.Rest();
        if r.pos + 1 < |r.nodes| {
          r.pos := r.pos + 1;
          assert rest[1..] == r.Rest();
        }
      }
    }
  }

  /** gpx_file_read in mode GPX_TRK. */
  method GpxFileRead(nodes: seq<Node>, now: string) returns (ok: bool, track: seq<TrackPoint>)
    ensures var f := FileLoop(nodes, now); if ok then f == Some(track) else f.None?
  {
    hide FileTurn, Joined;
    if nodes == [] { return true, []; }
    var r := new Reader(nodes);
    var more := true;
    track := [];
    assert nodes[0..] == nodes;
    JoinedTwice([], [], FileLoop(nodes, now));
    while more
      invariant fresh(r) && r.nodes == nodes && (more ==> r.Standing())
      invariant FileLoop(nodes, now) == Joined(r.trackcoord, FileLoop(if more then nodes[r.pos..] else [], now))
      decreases more, |nodes| - r.pos
    {
      ghost var before := r.trackcoord;
      ghost var rest := nodes[r.pos..];
      assert rest[1..] == r.Rest() && rest[0] == nodes[r.pos];
      JoinedNone(before);
      ok := HandleNode(r, now);
      if !ok { return; }
      JoinedTwice(before, r.trackcoord[|before|..], FileLoop(r.Rest(), now));
      if r.pos + 1 < |nodes| {
        r.pos := r.pos + 1;
      } else {
        assert r.Rest() == [];
        more := false;
      }
    }
    ok, track := true, r.trackcoord;
    JoinedNothing(track, now);
  }

  lemma JoinedNone(points: seq<TrackPoint>)
    ensures Joined(points, None) == None
  {
  }

  lemma JoinedNothing(points: seq<TrackPoint>, now: string)
    ensures Joined(points, FileLoop([], now)) == Some(points)
  {
    assert points + [] == points;
  }

  // ---------------------------------------------------------------- writing

  /** The fields of gpx_info that the writer puts in the metadata block. */
  datatype Info = Info(name: string, desc: string, keywords: string, author: string, email: string, time: string)

  /** xmlTextWriterWriteElement: an empty content still closes the start tag, so that an end tag follows. */
  function Written(tag: Tag, text: string): seq<Node> {
    if text == "" then [Start(tag, "", "", false), End(tag)] else Element(tag, text)
  }

  function Line(write: bool, tag: Tag, text: string): seq<Node> {
    if write then Written(tag, text) + [NEWLINE] else []
  }

  function AuthorNodes(info: Info): seq<Node> {
    [Start(Author, "", "", false)] + Written(Name, info.author)
    + (if '@' in info.email then [Start(Email, "", "", true)] else []) + [End(Author), NEWLINE]
  }

  function MetadataNodes(info: Info): seq<Node> {
    Line(info.name != "", Name, info.name)
    + (Line(info.desc != "", Desc, info.desc)
    + (Line(info.keywords != "", Keywords, info.keywords)
    + ((if info.author != "" || info.email != "" then AuthorNodes(info) else [])
    + (Line(true, Time, info.time) + [End(Metadata)]))))
  }

  /** The file that gpx_file_write makes in mode GPX_TRK. */
  function FileNodes(info: Info, track: seq<TrackPoint>): seq<Node> {
    [Start(GpxRoot, "", "", false), NEWLINE, Start(Metadata, "", "", false), NEWLINE]
    + (MetadataNodes(info) + ([NEWLINE] + (TrackNodes(track) + [End(GpxRoot)])))
  }

  // ---------------------------------------------------------------- the metadata block

  lemma MetadataTakes(first: Node, second: Node, rest: seq<Node>)
    requires first.Start? && first.tag in METADATA_TAKES
    ensures MetadataLoop([first, second] + rest) == MetadataLoop(rest)
  {
    assert ([first, second] + rest)[2..] == rest;
  }

  lemma MetadataPasses(node: Node, rest: seq<Node>)
    requires node.Text? || (node.End? && node.tag != Metadata)
    ensures MetadataLoop([node] + rest) == MetadataLoop(rest)
  {
    assert ([node] + rest)[1..] == rest;
  }

  lemma EmptyLineIsPassed(tag: Tag, last: seq<Node>)
    requires tag in METADATA_TAKES
    ensures MetadataLoop(Line(true, tag, "") + last) == MetadataLoop(last)
  {
    hide MetadataLoop;
    MetadataTakes(Start(tag, "", "", false), End(tag), [NEWLINE] + last);
    MetadataPasses(NEWLINE, last);
    assert Line(true, tag, "") + last == [Start(tag, "", "", false), End(tag)] + ([NEWLINE] + last);
  }

  lemma TextLineIsPassed(tag: Tag, text: string, last: seq<Node>)
    requires tag in METADATA_TAKES && text != ""
    ensures MetadataLoop(Line(true, tag, text) + last) == MetadataLoop(last)
  {
    hide MetadataLoop;
    var tail := [End(tag)] + ([NEWLINE] + last);
    MetadataTakes(Start(tag, "", "", false), Text(text), tail);
    MetadataPasses(End(tag), [NEWLINE] + last);
    MetadataPasses(NEWLINE, last);
    assert Line(true, tag, text) + last == [Start(tag, "", "", false), Text(text)] + tail;
  }

  lemma LineIsPassed(write: bool, tag: Tag, text: string, more: seq<Node>, rest: seq<Node>)
    requires tag in METADATA_TAKES
    ensures MetadataLoop(Line(write, tag, text) + more + rest) == MetadataLoop(more + rest)
  {
    hide MetadataLoop, Written;
    var nodes, last := Line(write, tag, text) + more + rest, more + rest;
    if !write {
      assert nodes == last;
    } else {
      assert nodes == Line(write, tag, text) + last;
      if text == "" { EmptyLineIsPassed(tag, last); } else { TextLineIsPassed(tag, text, last); }
    }
  }

  lemma AuthorTurn(inner: seq<Node>)
    ensures MetadataLoop([Start(Author, "", "", false)] + inner) ==
      var t := TakingLoop(inner, Author, AUTHOR_TAKES); if t.None? then None else MetadataLoop(t.value)
  {
    assert ([Start(Author, "", "", false)] + inner)[1..] == inner;
  }

  lemma AuthorIsPassed(info: Info, rest: seq<Node>)
    ensures MetadataLoop(AuthorNodes(info) + rest) == MetadataLoop(rest)
  {
    hide MetadataLoop, TakingLoop;
    var mail := if '@' in info.email then [Start(Email, "", "", true)] else [];
    var inner := Written(Name, info.author) + mail + ([End(Author), NEWLINE] + rest);
    assert AuthorNodes(info) + rest == [Start(Author, "", "", false)] + inner;
    AuthorTurn(inner);
    NameIsTaken(info.author, mail, rest);
    MetadataPasses(NEWLINE, rest);
  }

  lemma TakingPasses(node: Node, rest: seq<Node>)
    requires node != End(Author) && !(node.Start? && node.tag == Name)
    ensures TakingLoop([node] + rest, Author, AUTHOR_TAKES) == TakingLoop(rest, Author, AUTHOR_TAKES)
  {
    assert ([node] + rest)[1..] == rest;
  }

  lemma TakingTakes(first: Node, second: Node, rest: seq<Node>)
    requires first.Start? && first.tag == Name
    ensures TakingLoop([first, second] + rest, Author, AUTHOR_TAKES) == TakingLoop(rest, Author, AUTHOR_TAKES)
  {
    assert ([first, second] + rest)[2..] == rest;
  }

  lemma TakingEnds(rest: seq<Node>)
    ensures TakingLoop([End(Author), NEWLINE] + rest, Author, AUTHOR_TAKES) == Some([NEWLINE] + rest)
  {
    assert ([End(Author), NEWLINE] + rest)[1..] == [NEWLINE] + rest;
  }

  lemma NameIsTaken(author: string, mail: seq<Node>, rest: seq<Node>)
    requires mail == [] || mail == [Start(Email, "", "", true)]
    ensures TakingLoop(Written(Name, author) + mail + ([End(Author), NEWLINE] + rest), Author, AUTHOR_TAKES)
         == Some([NEWLINE] + rest)
  {
    hide TakingLoop;
    var name, tail := Start(Name, "", "", false), [End(Author), NEWLINE] + rest;
    var nodes := Written(Name, author) + mail + tail;
    TakingEnds(rest);
    if author == "" {
      assert nodes == [name, End(Name)] + (mail + tail);
      TakingTakes(name, End(Name), mail + tail);
    } else {
      assert nodes == [name, Text(author)] + ([End(Name)] + (mail + tail));
      TakingTakes(name, Text(author), [End(Name)] + (mail + tail));
      TakingPasses(End(Name), mail + tail);
    }
    if mail == [] { assert mail + tail == tail; } else { TakingPasses(Start(Email, "", "", true), tail); }
  }

  /** The metadata block that is written is read to its end, whatever the fields hold. */
  lemma MetadataIsRead(info: Info, rest: seq<Node>)
    ensures MetadataLoop(MetadataNodes(info) + rest) == Some(rest)
  {
    hide MetadataLoop, Line, AuthorNodes;
    var m5 := Line(true, Time, info.time) + [End(Metadata)];
    var author := if info.author != "" || info.email != "" then AuthorNodes(info) else [];
    var m4 := author + m5;
    var m3 := Line(info.keywords != "", Keywords, info.keywords) + m4;
    var m2 := Line(info.desc != "", Desc, info.desc) + m3;
    LineIsPassed(info.name != "", Name, info.name, m2, rest);
    LineIsPassed(info.desc != "", Desc, info.desc, m3, rest);
    LineIsPassed(info.keywords != "", Keywords, info.keywords, m4, rest);
    LineIsPassed(true, Time, info.time, [End(Metadata)], rest);
    MetadataEnds(rest);
    assert m4 + rest == author + (m5 + rest);
    if author == [] { assert author + (m5 + rest) == m5 + rest; } else { AuthorIsPassed(info, m5 + rest); }
  }

  lemma MetadataEnds(rest: seq<Node>)
    ensures MetadataLoop([End(Metadata)] + rest) == Some(rest)
  {
    assert ([End(Metadata)] + rest)[1..] == rest;
  }

  // ---------------------------------------------------------------- the whole file

  lemma FileStep(node: Node, rest: seq<Node>, now: string)
    ensures var t := FileTurn(node, rest, now);
      FileLoop([node] + rest, now) == if t.None? then None else Joined(t.value.0, FileLoop(t.value.1, now))
  {
    assert ([node] + rest)[1..] == rest;
  }

  lemma PlainNodes(rest: seq<Node>, now: string)
    ensures FileLoop([NEWLINE] + rest, now) == FileLoop(rest, now)
    ensures FileLoop([Start(GpxRoot, "", "", false)] + rest, now) == FileLoop(rest, now)
    ensures FileLoop([End(GpxRoot)] + rest, now) == FileLoop(rest, now)
  {
    hide FileLoop, Joined;
    FileStep(NEWLINE, rest, now);
    FileStep(Start(GpxRoot, "", "", false), rest, now);
    FileStep(End(GpxRoot), rest, now);
    JoinedTwice([], [], FileLoop(rest, now));
  }

  /** Everything before the track is passed. */
  lemma ReachesTrack(info: Info, track: seq<TrackPoint>, now: string)
    ensures FileLoop(FileNodes(info, track), now) == FileLoop(TrackNodes(track) + [End(GpxRoot)], now)
  {
    hide FileLoop, MetadataNodes, TrackNodes, MetadataLoop;
    var body := TrackNodes(track) + [End(GpxRoot)];
    var after := [NEWLINE] + body;
    var block := MetadataNodes(info) + after;
    var inner := [NEWLINE] + block;
    var meta := Start(Metadata, "", "", false);
    assert FileNodes(info, track) == [Start(GpxRoot, "", "", false)] + ([NEWLINE] + ([meta] + inner));
    PlainNodes([NEWLINE] + ([meta] + inner), now);
    PlainNodes([meta] + inner, now);
    FileStep(meta, inner, now);
    assert inner[1..] == block;
    MetadataIsRead(info, after);
    PlainNodes(body, now);
    JoinedTwice([], [], FileLoop(after, now));
  }

  lemma {:induction false} SectionThenMore(rest: seq<Node>, mode: Tag, now: string, more: seq<Node>)
    requires SectionLoop(rest, mode, now).Some?
    ensures Extended(SectionLoop(rest, mode, now), more, SectionLoop(rest + more, mode, now))
    decreases |rest|, 1
  {
    hide SectionLoop, PointLoop, PointOf, EmptyWaypoint, Break, Gpx.Before;
    SectionNothing(mode, now);
    SectionCases(rest, mode, now);
    SectionCases(rest + more, mode, now);
    assert (rest + more)[1..] == rest[1..] + more;
    var first := rest[0];
    if first.Start? && first.tag in {Rtept, Trkpt} {
      PointTurnThenMore(rest, mode, now, more);
    } else if first.Start? && first.tag == Trkseg && !first.empty {
      SegmentTurnThenMore(rest, mode, now, more);
    } else if HasOneValue(first) {
      assert (rest + more)[2..] == rest[2..] + more;
      SectionThenMore(rest[2..], mode, now, more);
    } else if first != End(mode) {
      SectionThenMore(rest[1..], mode, now, more);
    }
  }

  lemma {:induction false} PointTurnThenMore(rest: seq<Node>, mode: Tag, now: string, more: seq<Node>)
    requires SectionLoop(rest, mode, now).Some? && rest != [] && rest[0].Start? && rest[0].tag in {Rtept, Trkpt}
    ensures Extended(SectionLoop(rest, mode, now), more, SectionLoop(rest + more, mode, now))
    decreases |rest|, 0
  {
    hide SectionLoop, PointLoop, PointOf, EmptyWaypoint, Break, Gpx.Before;
    SectionCases(rest, mode, now);
    SectionCases(rest + more, mode, now);
    assert (rest + more)[1..] == rest[1..] + more;
    var tag, empty := rest[0].tag, EmptyWaypoint(rest[0].lat, rest[0].lon);
    var (w, after) := PointLoop(rest[1..], tag, empty).value;
    PointThenMore(rest[1..], tag, empty, more);
    var points := if tag == Trkpt then [PointOf(w, now)] else [];
    BeforeSome(points, SectionLoop(after, mode, now));
    SectionThenMore(after, mode, now, more);
    BeforeExtended(points, SectionLoop(after, mode, now), more, SectionLoop(after + more, mode, now));
  }

  lemma {:induction false} SegmentTurnThenMore(rest: seq<Node>, mode: Tag, now: string, more: seq<Node>)
    requires SectionLoop(rest, mode, now).Some?
    requires rest != [] && rest[0].Start? && rest[0].tag == Trkseg && !rest[0].empty
    ensures Extended(SectionLoop(rest, mode, now), more, SectionLoop(rest + more, mode, now))
    decreases |rest|, 0
  {
    hide SectionLoop, PointLoop, PointOf, EmptyWaypoint, Break, Gpx.Before;
    SectionCases(rest, mode, now);
    SectionCases(rest + more, mode, now);
    assert (rest + more)[1..] == rest[1..] + more;
    SectionThenMore(rest[1..], Trkseg, now, more);
    var (points, after) := SectionLoop(rest[1..], Trkseg, now).value;
    BeforeSome(points + [Break(now)], SectionLoop(after, mode, now));
    SectionThenMore(after, mode, now, more);
    BeforeExtended(points + [Break(now)], SectionLoop(after, mode, now), more, SectionLoop(after + more, mode, now));
  }

  /** The same points, with more nodes left. */
  predicate Extended(a: Option<(seq<TrackPoint>, seq<Node>)>, more: seq<Node>, b: Option<(seq<TrackPoint>, seq<Node>)>)
    requires a.Some?
  {
    b == Some((a.value.0, a.value.1 + more))
  }

  lemma BeforeExtended(points: seq<TrackPoint>, a: Option<(seq<TrackPoint>, seq<Node>)>, more: seq<Node>,
                       b: Option<(seq<TrackPoint>, seq<Node>)>)
    requires a.Some? && Extended(a, more, b)
    ensures Gpx.Before(points, a).Some? && Extended(Gpx.Before(points, a), more, Gpx.Before(points, b))
  {
  }

  lemma {:induction false} PointThenMore(rest: seq<Node>, mode: Tag, w: Waypoint, more: seq<Node>)
    requires PointLoop(rest, mode, w).Some?
    ensures var (v, after) := PointLoop(rest, mode, w).value;
      PointLoop(rest + more, mode, w) == Some((v, after + more))
    decreases |rest|
  {
    hide TakesValue, Store;
    assert (rest + more)[1..] == rest[1..] + more;
    if rest[0] == End(mode) {
    } else if rest[0].Start? && TakesValue(rest[0].tag, w) {
      assert (rest + more)[2..] == rest[2..] + more;
      PointThenMore(rest[2..], mode, Store(w, rest[0].tag, Value(rest[1])), more);
    } else {
      PointThenMore(rest[1..], mode, w, more);
    }
  }

  lemma {:induction false} SuffixEnds(rest: seq<Node>, k: nat)
    requires k <= |rest|
    ensures PointEnds(rest[k..]) <= PointEnds(rest)
  {
    assert rest == rest[..k] + rest[k..];
    PointEndsConcat(rest[..k], rest[k..]);
  }

  /** Points read from the rest of a file need end tags as well. */
  lemma TrackFilePoints(track: seq<TrackPoint>, now: string)
    requires Bare(track) > 0
    ensures FileLoop(TrackNodes(track) + [End(GpxRoot)], now) != Some(Expected(track, now))
  {
    hide FileLoop, SectionLoop, Body, Expected, ReadBody, Valid, PointEnds, Bare;
    var inner := Body(track, true) + TAIL;
    var rest := [NEWLINE] + (OPEN_SEGMENT + inner);
    var trk := Start(Trk, "", "", false);
    var nodes := TrackNodes(track) + [End(GpxRoot)];
    assert nodes == [trk] + (rest + [End(GpxRoot)]);
    FileStep(trk, rest + [End(GpxRoot)], now);
    var all := rest + [End(GpxRoot)];
    var r := SectionLoop(all, Trk, now);
    if r.Some? {
      var (points, after) := r.value;
      PointsNeedEnds(all, Trk, now);
      TrackFileEnds(track);
      ReadBodyIsExpected(track, now);
      ExpectedKeepsPoints(track, true, now);
      var f := FileLoop(after, now);
      if f.Some? {
        FilePoints(after, now);
        ValidConcat(points, f.value);
      }
    }
  }

  lemma TrackFileEnds(track: seq<TrackPoint>)
    ensures PointEnds([NEWLINE] + (OPEN_SEGMENT + (Body(track, true) + TAIL)) + [End(GpxRoot)]) + Bare(track)
      == |Valid(track)|
  {
    hide Body, PointEnds, Bare;
    EndsOfBody(track, true);
    NoEndsInMarks();
    RootEnd();
    var inner := Body(track, true) + TAIL;
    PointEndsConcat([NEWLINE] + (OPEN_SEGMENT + inner), [End(GpxRoot)]);
    PointEndsConcat([NEWLINE], OPEN_SEGMENT + inner);
    PointEndsConcat(OPEN_SEGMENT, inner);
    PointEndsConcat(Body(track, true), TAIL);
  }

  lemma RootEnd()
    ensures PointEnds([End(GpxRoot)]) == 0
  {
    assert [End(GpxRoot)][1..] == [];
  }

  /** What is left after a helper loop is a suffix of what it read. */
  predicate SuffixOf(after: seq<Node>, rest: seq<Node>) {
    |after| <= |rest| && after == rest[|rest| - |after|..]
  }

  lemma {:induction false} TakingLeavesSuffix(rest: seq<Node>, tag: Tag, taking: set<Tag>)
    requires TakingLoop(rest, tag, taking).Some?
    ensures SuffixOf(TakingLoop(rest, tag, taking).value, rest)
    decreases |rest|
  {
    if rest[0] == End(tag) {
    } else if rest[0].Start? && rest[0].tag in taking {
      TakingLeavesSuffix(rest[2..], tag, taking);
    } else {
      TakingLeavesSuffix(rest[1..], tag, taking);
    }
  }

  lemma {:induction false} MetadataLeavesSuffix(rest: seq<Node>)
    requires MetadataLoop(rest).Some?
    ensures SuffixOf(MetadataLoop(rest).value, rest)
    decreases |rest|
  {
    hide TakingLoop;
    if rest[0] == End(Metadata) {
    } else if rest[0].Start? && rest[0].tag in METADATA_TAKES {
      MetadataLeavesSuffix(rest[2..]);
    } else if rest[0].Start? && rest[0].tag == Author {
      TakingLeavesSuffix(rest[1..], Author, AUTHOR_TAKES);
      MetadataLeavesSuffix(TakingLoop(rest[1..], Author, AUTHOR_TAKES).value);
    } else if rest[0].Start? && rest[0].tag == Link {
      TakingLeavesSuffix(rest[1..], Link, LINK_TAKES);
      MetadataLeavesSuffix(TakingLoop(rest[1..], Link, LINK_TAKES).value);
    } else {
      MetadataLeavesSuffix(rest[1..]);
    }
  }

  /** What a turn reads beyond its node, outside tracks, is a front part of the rest. */
  lemma TurnLeavesSuffix(node: Node, rest: seq<Node>, now: string)
    requires FileTurn(node, rest, now).Some? && !(node.Start? && node.tag == Trk)
    ensures FileTurn(node, rest, now).value.0 == [] && SuffixOf(FileTurn(node, rest, now).value.1, rest)
  {
    hide SectionLoop, MetadataLoop, TakingLoop, SkipTo;
    if node.Start? && (node.tag == Wpt || node.tag == Rte) {
      TakingNothing(rest, node.tag);
      TakingLeavesSuffix(rest, node.tag, {});
    } else if node.Start? && node.tag == Metadata && rest[0] != End(Metadata) {
      MetadataLeavesSuffix(rest[1..]);
    }
  }

  lemma TurnNeedsEnds(node: Node, rest: seq<Node>, now: string)
    requires FileTurn(node, rest, now).Some?
    ensures var (points, after) := FileTurn(node, rest, now).value;
      |Valid(points)| + PointEnds(after) <= PointEnds(rest)
  {
    hide SectionLoop, ReadMetadata, TakingLoop, SkipTo, PointEnds;
    if node.Start? && node.tag == Trk {
      PointsNeedEnds(rest, Trk, now);
    } else {
      TurnLeavesSuffix(node, rest, now);
      SuffixEnds(rest, |rest| - |FileTurn(node, rest, now).value.1|);
    }
  }

  lemma {:induction false} FilePoints(nodes: seq<Node>, now: string)
    requires FileLoop(nodes, now).Some?
    ensures |Valid(FileLoop(nodes, now).value)| <= PointEnds(nodes)
    decreases |nodes|
  {
    hide FileTurn, PointEnds;
    if nodes != [] {
      TurnNeedsEnds(nodes[0], nodes[1..], now);
      var (points, after) := FileTurn(nodes[0], nodes[1..], now).value;
      FilePoints(after, now);
      ValidConcat(points, FileLoop(after, now).value);
      SuffixEnds(nodes, 1);
    }
  }

  /** A written file reads back as the expected track exactly when every point has a child element. */
  lemma FileRoundTripExactlyWhen(info: Info, track: seq<TrackPoint>, now: string)
    ensures FileLoop(FileNodes(info, track), now) == Some(Expected(track, now))
      <==> forall p :: p in track && !IsBreak(p) ==> HasChild(p)
  {
    hide FileLoop, FileNodes, TrackNodes, Expected, SectionLoop, Bare, HasChild;
    ReachesTrack(info, track, now);
    BareNone(track);
    if Bare(track) == 0 {
      WholeTrack(track, now);
    } else {
      TrackFilePoints(track, now);
    }
  }

  /** A track is read wherever it stands, and reading goes on behind it. */
  lemma TrackIsRead(track: seq<TrackPoint>, more: seq<Node>, now: string)
    requires forall p :: p in track && !IsBreak(p) ==> HasChild(p)
    ensures FileLoop(TrackNodes(track) + more, now) == Joined(Expected(track, now), FileLoop(more, now))
  {
    hide FileLoop, SectionLoop, Body, Expected, FromSegment, ReadBody, HasChild;
    var inner := OPEN_SEGMENT + (Body(track, true) + TAIL);
    var rest := [NEWLINE] + inner;
    var trk := Start(Trk, "", "", false);
    assert TrackNodes(track) + more == [trk] + (rest + more);
    SkipNewline(inner, Trk, now);
    SegmentOpens(Body(track, true) + TAIL, now);
    ReadsBody(track, true, now);
    ReadBodyIsExpected(track, now);
    SectionThenMore(rest, Trk, now, more);
    FileStep(trk, rest + more, now);
    PlainNodes(more, now);
  }

  /** After a track that reads back, only the end of the root is left. */
  lemma WholeTrack(track: seq<TrackPoint>, now: string)
    requires forall p :: p in track && !IsBreak(p) ==> HasChild(p)
    ensures FileLoop(TrackNodes(track) + [End(GpxRoot)], now) == Some(Expected(track, now))
  {
    hide FileLoop, TrackNodes, Expected, HasChild;
    TrackIsRead(track, [End(GpxRoot)], now);
    PlainNodes([], now);
    FileOfNothing(now);
    assert [End(GpxRoot)] + [] == [End(GpxRoot)];
    assert Expected(track, now) + [] == Expected(track, now);
  }

  lemma FileOfNothing(now: string)
    ensures FileLoop([], now) == Some([])
  {
  }
}
