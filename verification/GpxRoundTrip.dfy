/** Writing a track and reading it back. */
module GpxRoundTrip {
  import opened Common
  import opened Decimal
  import opened Gpx

  // ---------------------------------------------------------------- what comes back

  /** What writing and reading make of a point. */
  function Normal(p: TrackPoint, now: string): TrackPoint {
    TrackPoint(
      Rounded(p.lat, 8),
      Rounded(p.lon, 8),
      if p.alt < 1000.0 then Rounded(p.alt, 3) else -99999.0,
      if p.course < 1000.0 then Rounded(p.course, 2) else 1001.0,
      if p.speed > -1.0 then Rounded(p.speed, 3) else -1.0,
      if p.hdop > -1.0 then Rounded(p.hdop, 2) else -1.0,
      if p.fix in {2, 3, 4} then p.fix else 0,
      p.sat,
      Clip(if p.postime != "" then p.postime else now))
  }

  /** Maximal runs of points between breaks. */
  function Runs(track: seq<TrackPoint>): (runs: seq<seq<TrackPoint>>)
    ensures forall i :: 0 <= i < |runs| ==> runs[i] != []
  {
    if track == [] then []
    else if IsBreak(track[0]) then Runs(track[1..])
    else
      var runs := Runs(track[1..]);
      if |track| == 1 || IsBreak(track[1]) then [[track[0]]] + runs
      else if runs == [] then [[track[0]]]
      else [[track[0]] + runs[0]] + runs[1..]
  }

  function NormalRun(run: seq<TrackPoint>, now: string): seq<TrackPoint> {
    if run == [] then [] else [Normal(run[0], now)] + NormalRun(run[1..], now)
  }

  /** Every run, normalised and followed by one break. */
  function RunsWithBreaks(runs: seq<seq<TrackPoint>>, now: string): seq<TrackPoint> {
    if runs == [] then [] else NormalRun(runs[0], now) + [Break(now)] + RunsWithBreaks(runs[1..], now)
  }

  /**
   The expected result: the maximal runs in order, each with exactly one break after it; a track that is
   empty or ends with a break gets one more, for the empty segment written at its end.
   */
  function Expected(track: seq<TrackPoint>, now: string): seq<TrackPoint> {
    RunsWithBreaks(Runs(track), now) + if track == [] || IsBreak(track[|track| - 1]) then [Break(now)] else []
  }

  /** The same, following the writer point by point. */
  function ReadBody(track: seq<TrackPoint>, j: bool, now: string): seq<TrackPoint> {
    if track == [] then [Break(now)]
    else if IsBreak(track[0]) then (if j then [] else [Break(now)]) + ReadBody(track[1..], true, now)
    else [Normal(track[0], now)] + ReadBody(track[1..], false, now)
  }

  lemma {:induction false} ReadBodyIsExpected(track: seq<TrackPoint>, now: string)
    ensures ReadBody(track, true, now) == Expected(track, now)
    ensures ReadBody(track, false, now) ==
      (if track != [] && !IsBreak(track[0]) then [] else [Break(now)])
      + (if track == [] then [] else Expected(track, now))
  {
    hide Normal, Break, Runs, RunsWithBreaks;
    if track == [] {
      NoRuns(now);
    } else {
      ReadBodyIsExpected(track[1..], now);
      if IsBreak(track[0]) {
        ExpectedAfterBreak(track, now);
      } else {
        ExpectedAfterPoint(track, now);
      }
    }
  }

  lemma NoRuns(now: string)
    ensures Runs([]) == [] && RunsWithBreaks([], now) == []
  {
  }

  lemma ExpectedAfterBreak(track: seq<TrackPoint>, now: string)
    requires track != [] && IsBreak(track[0])
    ensures Expected(track, now) == Expected(track[1..], now)
  {
    hide Normal, Break, RunsWithBreaks;
    if |track| > 1 { assert track[|track| - 1] == track[1..][|track| - 2]; }
  }

  lemma ExpectedAfterPoint(track: seq<TrackPoint>, now: string)
    requires track != [] && !IsBreak(track[0])
    ensures Expected(track, now) == [Normal(track[0], now)] +
      ((if |track| > 1 && !IsBreak(track[1]) then [] else [Break(now)])
      + (if |track| == 1 then [] else Expected(track[1..], now)))
  {
    hide Normal, Break, RunsWithBreaks, NormalRun;
    if |track| == 1 || IsBreak(track[1]) {
      PointEndsRun(track, now);
    } else {
      PointJoinsRun(track, now);
    }
  }

  lemma ExpectedIs(track: seq<TrackPoint>, now: string)
    requires track != []
    ensures Expected(track, now)
      == RunsWithBreaks(Runs(track), now) + if IsBreak(track[|track| - 1]) then [Break(now)] else []
  {
    hide IsBreak, Break, Runs, RunsWithBreaks;
  }

  lemma RunOfOne(track: seq<TrackPoint>)
    requires track != [] && !IsBreak(track[0]) && (|track| == 1 || IsBreak(track[1]))
    ensures Runs(track) == [[track[0]]] + Runs(track[1..])
  {
  }

  lemma PointEndsRun(track: seq<TrackPoint>, now: string)
    requires track != [] && !IsBreak(track[0]) && (|track| == 1 || IsBreak(track[1]))
    ensures Expected(track, now)
      == [Normal(track[0], now)] + ([Break(now)] + (if |track| == 1 then [] else Expected(track[1..], now)))
  {
    var tail := track[1..];
    var close := if IsBreak(track[|track| - 1]) then [Break(now)] else [];
    RunOfOne(track);
    ExpectedIs(track, now);
    if |track| > 1 { ExpectedIs(tail, now); }
    hide Normal, Break, Runs, RunsWithBreaks, NormalRun, IsBreak, Expected;
    SingleRun(track[0], Runs(tail), now);
    if |track| == 1 {
      assert tail == [];
      NoRuns(now);
    } else {
      assert track[|track| - 1] == tail[|tail| - 1];
      JoinsTwo(Normal(track[0], now), Break(now), RunsWithBreaks(Runs(tail), now), close);
    }
  }

  lemma JoinsTwo<T>(p: T, q: T, s: seq<T>, close: seq<T>)
    ensures [p] + ([q] + s) + close == [p] + ([q] + (s + close))
  {
  }

  lemma PointJoinsRun(track: seq<TrackPoint>, now: string)
    requires |track| > 1 && !IsBreak(track[0]) && !IsBreak(track[1])
    ensures Expected(track, now) == [Normal(track[0], now)] + Expected(track[1..], now)
  {
    hide Normal, Break, RunsWithBreaks, NormalRun;
    var tail := track[1..];
    assert track[|track| - 1] == tail[|tail| - 1];
    RunsNotEmpty(tail);
    LongerRun(track[0], Runs(tail), now);
  }

  lemma SingleRun(p: TrackPoint, runs: seq<seq<TrackPoint>>, now: string)
    ensures RunsWithBreaks([[p]] + runs, now) == [Normal(p, now)] + ([Break(now)] + RunsWithBreaks(runs, now))
  {
    hide Normal, Break;
    OneRun([p], runs, now);
    assert [p][1..] == [];
  }

  lemma LongerRun(p: TrackPoint, runs: seq<seq<TrackPoint>>, now: string)
    requires runs != [] && runs[0] != []
    ensures RunsWithBreaks([[p] + runs[0]] + runs[1..], now) == [Normal(p, now)] + RunsWithBreaks(runs, now)
  {
    hide Normal, Break, RunsWithBreaks;
    OneRun([p] + runs[0], runs[1..], now);
    OneRun(runs[0], runs[1..], now);
    assert ([p] + runs[0])[1..] == runs[0];
    assert [runs[0]] + runs[1..] == runs;
  }

  lemma RunsNotEmpty(track: seq<TrackPoint>)
    requires track != [] && !IsBreak(track[0])
    ensures Runs(track) != []
  {
  }

  lemma OneRun(run: seq<TrackPoint>, runs: seq<seq<TrackPoint>>, now: string)
    requires run != []
    ensures RunsWithBreaks([run] + runs, now)
         == [Normal(run[0], now)] + (NormalRun(run[1..], now) + [Break(now)] + RunsWithBreaks(runs, now))
  {
    assert ([run] + runs)[1..] == runs;
  }

  // ---------------------------------------------------------------- reading what was written

  /** An element of a point is read into its field. */
  lemma ReadElement(tag: Tag, text: string, rest: seq<Node>, w: Waypoint)
    requires TakesValue(tag, w) && tag != Trkpt
    ensures PointLoop(Element(tag, text) + rest, Trkpt, w) == PointLoop(rest, Trkpt, Store(w, tag, Some(text)))
  {
    var nodes := Element(tag, text) + rest;
    assert nodes[2..] == [End(tag)] + rest;
    assert ([End(tag)] + rest)[1..] == rest;
    assert nodes[0] == Start(tag, "", "", false) && nodes[1] == Text(text);
  }

  lemma ReadOptional(write: bool, tag: Tag, text: string, more: seq<Node>, rest: seq<Node>, w: Waypoint)
    requires TakesValue(tag, w) && tag != Trkpt
    ensures PointLoop(Optional(write, tag, text) + more + rest, Trkpt, w)
         == PointLoop(more + rest, Trkpt, if write then Store(w, tag, Some(text)) else w)
  {
    hide PointLoop;
    if write {
      assert Optional(write, tag, text) + more + rest == Element(tag, text) + (more + rest);
      ReadElement(tag, text, more + rest, w);
    } else {
      assert [] + more + rest == more + rest;
    }
  }

  /** The waypoint after the children of a point. */
  function Filled(p: TrackPoint): Waypoint {
    Waypoint(
      Rounded(p.lat, 8), Rounded(p.lon, 8),
      if p.alt < 1000.0 then Rounded(p.alt, 3) else -99999.0,
      if p.course < 1000.0 then Rounded(p.course, 2) else 1001.0,
      if p.speed > -1.0 then Rounded(p.speed, 3) else -1.0,
      if p.hdop > -1.0 then Rounded(p.hdop, 2) else -1.0,
      if p.fix in {2, 3, 4} then p.fix else 0,
      p.sat,
      None,
      if p.postime != "" then Some(p.postime) else None)
  }

  /** The fields that numbers are stored in. */
  lemma StoreNumber(w: Waypoint, text: string)
    ensures Store(w, Ele, Some(text)) == w.(ele := Strtod(text))
      && Store(w, Course, Some(text)) == w.(course := Strtod(text))
    ensures Store(w, Speed, Some(text)) == w.(speed := Strtod(text))
      && Store(w, Hdop, Some(text)) == w.(hdop := Strtod(text))
  {
    hide Strtod;
  }

  lemma ReadEle(p: TrackPoint, more: seq<Node>, rest: seq<Node>, w: Waypoint)
    ensures PointLoop(Optional(p.alt < 1000.0, Ele, FixedText(p.alt, 3)) + more + rest, Trkpt, w)
         == PointLoop(more + rest, Trkpt, w.(ele := if p.alt < 1000.0 then Rounded(p.alt, 3) else w.ele))
  {
    hide PointLoop, Strtod, FixedText, Rounded, Atoi, IntText, Optional, Store;
    ReadOptional(p.alt < 1000.0, Ele, FixedText(p.alt, 3), more, rest, w);
    StrtodPrinted(p.alt, 3);
    StoreNumber(w, FixedText(p.alt, 3));
  }

  lemma ReadTime(p: TrackPoint, more: seq<Node>, rest: seq<Node>, w: Waypoint)
    ensures PointLoop(Optional(p.postime != "", Time, p.postime) + more + rest, Trkpt, w)
         == PointLoop(more + rest, Trkpt, w.(time := if p.postime != "" then Some(p.postime) else w.time))
  {
    hide PointLoop, Strtod, FixedText, Rounded, Atoi, IntText, Optional;
    ReadOptional(p.postime != "", Time, p.postime, more, rest, w);
  }

  lemma ReadCourse(p: TrackPoint, more: seq<Node>, rest: seq<Node>, w: Waypoint)
    ensures PointLoop(Optional(p.course < 1000.0, Course, FixedText(p.course, 2)) + more + rest, Trkpt, w)
         == PointLoop(more + rest, Trkpt, w.(course := if p.course < 1000.0 then Rounded(p.course, 2) else w.course))
  {
    hide PointLoop, Strtod, FixedText, Rounded, Atoi, IntText, Optional, Store;
    ReadOptional(p.course < 1000.0, Course, FixedText(p.course, 2), more, rest, w);
    StrtodPrinted(p.course, 2);
    StoreNumber(w, FixedText(p.course, 2));
  }

  lemma ReadSpeed(p: TrackPoint, more: seq<Node>, rest: seq<Node>, w: Waypoint)
    ensures PointLoop(Optional(p.speed > -1.0, Speed, FixedText(p.speed, 3)) + more + rest, Trkpt, w)
         == PointLoop(more + rest, Trkpt, w.(speed := if p.speed > -1.0 then Rounded(p.speed, 3) else w.speed))
  {
    hide PointLoop, Strtod, FixedText, Rounded, Atoi, IntText, Optional, Store;
    ReadOptional(p.speed > -1.0, Speed, FixedText(p.speed, 3), more, rest, w);
    StrtodPrinted(p.speed, 3);
    StoreNumber(w, FixedText(p.speed, 3));
  }

  lemma ReadFix(p: TrackPoint, more: seq<Node>, rest: seq<Node>, w: Waypoint)
    ensures PointLoop(Optional(p.fix in {2, 3, 4}, Fix, FixText(p.fix)) + more + rest, Trkpt, w)
         == PointLoop(more + rest, Trkpt, w.(fix := if p.fix in {2, 3, 4} then p.fix else w.fix))
  {
    hide PointLoop, Strtod, FixedText, Rounded, Atoi, IntText, Optional;
    ReadOptional(p.fix in {2, 3, 4}, Fix, FixText(p.fix), more, rest, w);
  }

  lemma ReadSat(p: TrackPoint, more: seq<Node>, rest: seq<Node>, w: Waypoint)
    ensures PointLoop(Optional(p.sat != 0, Sat, IntText(p.sat)) + more + rest, Trkpt, w)
         == PointLoop(more + rest, Trkpt, w.(sat := if p.sat != 0 then p.sat else w.sat))
  {
    hide PointLoop, Strtod, FixedText, Rounded, Atoi, IntText, Optional;
    ReadOptional(p.sat != 0, Sat, IntText(p.sat), more, rest, w);
    AtoiPrinted(p.sat);
  }

  lemma ReadHdop(p: TrackPoint, more: seq<Node>, rest: seq<Node>, w: Waypoint)
    ensures PointLoop(Optional(p.hdop > -1.0, Hdop, FixedText(p.hdop, 2)) + more + rest, Trkpt, w)
         == PointLoop(more + rest, Trkpt, w.(hdop := if p.hdop > -1.0 then Rounded(p.hdop, 2) else w.hdop))
  {
    hide PointLoop, Strtod, FixedText, Rounded, Atoi, IntText, Optional, Store;
    ReadOptional(p.hdop > -1.0, Hdop, FixedText(p.hdop, 2), more, rest, w);
    StrtodPrinted(p.hdop, 2);
    StoreNumber(w, FixedText(p.hdop, 2));
  }

  lemma ReadLaterChildren(p: TrackPoint, rest: seq<Node>, w: Waypoint)
    ensures PointLoop(LaterChildren(p) + rest, Trkpt, w)
         == PointLoop(rest, Trkpt, w.(
              speed := if p.speed > -1.0 then Rounded(p.speed, 3) else w.speed,
              fix := if p.fix in {2, 3, 4} then p.fix else w.fix,
              sat := if p.sat != 0 then p.sat else w.sat,
              hdop := if p.hdop > -1.0 then Rounded(p.hdop, 2) else w.hdop))
  {
    hide PointLoop, FixedText, Rounded, IntText, FixText, Optional;
    var c7 := Optional(p.hdop > -1.0, Hdop, FixedText(p.hdop, 2));
    var c6 := Optional(p.sat != 0, Sat, IntText(p.sat)) + c7;
    var c5 := Optional(p.fix in {2, 3, 4}, Fix, FixText(p.fix)) + c6;
    var w1 := w.(speed := if p.speed > -1.0 then Rounded(p.speed, 3) else w.speed);
    var w2 := w1.(fix := if p.fix in {2, 3, 4} then p.fix else w.fix);
    var w3 := w2.(sat := if p.sat != 0 then p.sat else w.sat);
    ReadSpeed(p, c5, rest, w);
    ReadFix(p, c6, rest, w1);
    ReadSat(p, c7, rest, w2);
    ReadHdop(p, [], rest, w3);
    assert c7 + [] + rest == c7 + rest && [] + rest == rest;
  }

  lemma ReadChildren(p: TrackPoint, rest: seq<Node>)
    ensures PointLoop(Children(p) + rest, Trkpt, EmptyWaypoint(FixedText(p.lat, 8), FixedText(p.lon, 8)))
         == PointLoop(rest, Trkpt, Filled(p))
  {
    hide PointLoop, Strtod, FixedText, Rounded, Optional, LaterChildren;
    StrtodPrinted(p.lat, 8);
    StrtodPrinted(p.lon, 8);
    var c3 := Optional(p.course < 1000.0, Course, FixedText(p.course, 2)) + LaterChildren(p);
    var c2 := Optional(p.postime != "", Time, p.postime) + c3;
    var w := EmptyWaypoint(FixedText(p.lat, 8), FixedText(p.lon, 8));
    var f := Filled(p);
    ReadEle(p, c2, rest, w);
    ReadTime(p, c3, rest, w.(ele := f.ele));
    ReadCourse(p, LaterChildren(p), rest, w.(ele := f.ele, time := f.time));
    ReadLaterChildren(p, rest, w.(ele := f.ele, time := f.time, course := f.course));
  }

  /** The writer gives the point an element with content. */
  predicate HasChild(p: TrackPoint) {
    p.alt < 1000.0 || p.postime != "" || p.course < 1000.0 || p.speed > -1.0 || p.fix in {2, 3, 4} || p.sat != 0
      || p.hdop > -1.0
  }

  lemma ChildrenWhen(p: TrackPoint)
    ensures Children(p) != [] <==> HasChild(p)
  {
  }

  lemma ReadPoint(p: TrackPoint, rest: seq<Node>, mode: Tag, now: string)
    requires HasChild(p)
    ensures SectionLoop(PointNodes(p) + rest, mode, now) == Gpx.Before([Normal(p, now)], SectionLoop(rest, mode, now))
  {
    hide PointLoop, SectionLoop, FixedText, Gpx.Before, Children, Rounded, Strtod, Clip;
    ChildrenWhen(p);
    var lat, lon := FixedText(p.lat, 8), FixedText(p.lon, 8);
    var nodes := PointNodes(p) + rest;
    var tail := [End(Trkpt)] + rest;
    assert nodes == [Start(Trkpt, lat, lon, false)] + (Children(p) + tail);
    assert nodes[1..] == Children(p) + tail;
    SectionCases(nodes, mode, now);
    ReadChildren(p, tail);
    EndOfPoint(rest, Filled(p));
    assert PointOf(Filled(p), now) == Normal(p, now);
  }

  lemma EndOfPoint(rest: seq<Node>, w: Waypoint)
    ensures PointLoop([End(Trkpt)] + rest, Trkpt, w) == Some((w, rest))
  {
    assert ([End(Trkpt)] + rest)[1..] == rest;
  }

  /** What follows the points: the end of the last segment and of the track. */
  const TAIL := CLOSE_SEGMENT + [End(Trk), NEWLINE]

  lemma SkipNewline(rest: seq<Node>, mode: Tag, now: string)
    ensures SectionLoop([NEWLINE] + rest, mode, now) == SectionLoop(rest, mode, now)
  {
    assert ([NEWLINE] + rest)[1..] == rest;
  }

  /** Inside a segment: its end, and the end of the track. */
  lemma SegmentEnds(rest: seq<Node>, now: string)
    ensures SectionLoop(CLOSE_SEGMENT + rest, Trkseg, now) == Some(([], [NEWLINE] + rest))
  {
    assert (CLOSE_SEGMENT + rest)[1..] == [NEWLINE] + rest;
  }

  lemma TrackEnds(now: string)
    ensures SectionLoop([End(Trk), NEWLINE], Trk, now) == Some(([], [NEWLINE]))
  {
  }

  /** Reading the track from inside a segment: the rest of the segment, its break, then the rest of the track. */
  function FromSegment(rest: seq<Node>, now: string): Option<(seq<TrackPoint>, seq<Node>)> {
    match SectionLoop(rest, Trkseg, now)
    case None => None
    case Some((points, after)) => Gpx.Before(points + [Break(now)], SectionLoop(after, Trk, now))
  }

  lemma SegmentOpens(rest: seq<Node>, now: string)
    ensures SectionLoop(OPEN_SEGMENT + rest, Trk, now) == FromSegment(rest, now)
  {
    hide SectionLoop;
    var nodes := OPEN_SEGMENT + rest;
    assert nodes[1..] == [NEWLINE] + rest;
    SectionCases(nodes, Trk, now);
    SkipNewline(rest, Trkseg, now);
  }

  lemma SegmentCloses(rest: seq<Node>, now: string)
    ensures FromSegment(CLOSE_SEGMENT + rest, now) == Gpx.Before([Break(now)], SectionLoop(rest, Trk, now))
  {
    hide SectionLoop, Gpx.Before;
    SegmentEnds(rest, now);
    SkipNewline(rest, Trk, now);
    assert [] + [Break(now)] == [Break(now)];
  }

  lemma PointInSegment(p: TrackPoint, rest: seq<Node>, now: string)
    requires HasChild(p)
    ensures FromSegment(PointNodes(p) + ([NEWLINE] + rest), now) == Gpx.Before([Normal(p, now)], FromSegment(rest, now))
  {
    hide SectionLoop, PointNodes, Normal, Break;
    ReadPoint(p, [NEWLINE] + rest, Trkseg, now);
    SkipNewline(rest, Trkseg, now);
    var r := SectionLoop(rest, Trkseg, now);
    if r.Some? {
      var (points, after) := r.value;
      assert [Normal(p, now)] + points + [Break(now)] == [Normal(p, now)] + (points + [Break(now)]);
      BeforeTwice([Normal(p, now)], points + [Break(now)], SectionLoop(after, Trk, now));
    }
  }

  lemma {:induction false} ReadsBody(track: seq<TrackPoint>, j: bool, now: string)
    requires forall p :: p in track && !IsBreak(p) ==> HasChild(p)
    ensures FromSegment(Body(track, j) + TAIL, now) == Some((ReadBody(track, j, now), [NEWLINE]))
    decreases |track|
  {
    if track == [] {
      NothingRead(j, now);
    } else {
      var rest := track[1..];
      BodyStarts(track, j, now);
      hide SectionLoop, PointNodes, Normal, Break, FromSegment, Gpx.Before, Body, ReadBody, HasChild;
      if IsBreak(track[0]) {
        ReadsBody(rest, true, now);
        if !j {
          Regroup(CLOSE_SEGMENT, OPEN_SEGMENT, Body(rest, true), TAIL);
          SegmentCloses(OPEN_SEGMENT + (Body(rest, true) + TAIL), now);
          SegmentOpens(Body(rest, true) + TAIL, now);
          BeforeOne([Break(now)], ReadBody(rest, true, now), [NEWLINE]);
        }
      } else {
        ReadsBody(rest, false, now);
        Regroup(PointNodes(track[0]), [NEWLINE], Body(rest, false), TAIL);
        PointInSegment(track[0], Body(rest, false) + TAIL, now);
        BeforeOne([Normal(track[0], now)], ReadBody(rest, false, now), [NEWLINE]);
      }
    }
  }

  lemma NothingRead(j: bool, now: string)
    ensures FromSegment(Body([], j) + TAIL, now) == Some((ReadBody([], j, now), [NEWLINE]))
  {
    hide SectionLoop, Break, FromSegment, Gpx.Before;
    assert Body([], j) + TAIL == CLOSE_SEGMENT + [End(Trk), NEWLINE];
    SegmentCloses([End(Trk), NEWLINE], now);
    TrackEnds(now);
    BeforeOne([Break(now)], [], [NEWLINE]);
    assert [Break(now)] + [] == [Break(now)];
  }

  /** What is written, and what is read, for the first point of a track. */
  lemma BodyStarts(track: seq<TrackPoint>, j: bool, now: string)
    requires track != []
    ensures IsBreak(track[0]) && j ==> Body(track, j) == Body(track[1..], true)
    ensures IsBreak(track[0]) && j ==> ReadBody(track, j, now) == ReadBody(track[1..], true, now)
    ensures IsBreak(track[0]) && !j ==> Body(track, j) == CLOSE_SEGMENT + OPEN_SEGMENT + Body(track[1..], true)
    ensures IsBreak(track[0]) && !j ==> ReadBody(track, j, now) == [Break(now)] + ReadBody(track[1..], true, now)
    ensures !IsBreak(track[0]) ==> Body(track, j) == PointNodes(track[0]) + ([NEWLINE] + Body(track[1..], false))
    ensures !IsBreak(track[0]) ==> ReadBody(track, j, now) == [Normal(track[0], now)] + ReadBody(track[1..], false, now)
  {
    hide PointNodes, Normal, Break;
    var rest := track[1..];
    assert [] + Body(rest, true) == Body(rest, true) && [] + ReadBody(rest, true, now) == ReadBody(rest, true, now);
  }

  lemma Regroup<T>(a: seq<T>, b: seq<T>, c: seq<T>, d: seq<T>)
    ensures a + b + c + d == a + (b + (c + d)) && a + (b + c) + d == a + (b + (c + d))
  {
  }

  /** The round trip, when every point is written with at least one child element. */
  lemma RoundTrip(track: seq<TrackPoint>, now: string)
    requires forall p :: p in track && !IsBreak(p) ==> HasChild(p)
    ensures ReadTrack(TrackNodes(track), now) == Some(Expected(track, now))
  {
    hide SectionLoop, FromSegment, Body, Expected, ReadBody;
    var nodes := TrackNodes(track);
    var inner := OPEN_SEGMENT + (Body(track, true) + TAIL);
    assert nodes[1..] == [NEWLINE] + inner;
    SkipNewline(inner, Trk, now);
    SegmentOpens(Body(track, true) + TAIL, now);
    ReadsBody(track, true, now);
    ReadBodyIsExpected(track, now);
  }

  // ---------------------------------------------------------------- exactly when it comes back

  /** Number of trkpt end tags. */
  function PointEnds(nodes: seq<Node>): nat {
    if nodes == [] then 0 else (if nodes[0] == End(Trkpt) then 1 else 0) + PointEnds(nodes[1..])
  }

  lemma {:induction false} PointEndsConcat(a: seq<Node>, b: seq<Node>)
    ensures PointEnds(a + b) == PointEnds(a) + PointEnds(b)
  {
    if a == [] {
      assert a + b == b;
    } else {
      assert (a + b)[1..] == a[1..] + b;
      PointEndsConcat(a[1..], b);
    }
  }

  /** Reading a point uses up an end tag. */
  lemma {:induction false} PointUsesEnd(rest: seq<Node>, mode: Tag, w: Waypoint)
    requires PointLoop(rest, mode, w).Some?
    ensures PointEnds(PointLoop(rest, mode, w).value.1) + (if mode == Trkpt then 1 else 0) <= PointEnds(rest)
    decreases |rest|
  {
    if rest[0] == End(mode) {
    } else if rest[0].Start? && TakesValue(rest[0].tag, w) {
      assert rest[1..][1..] == rest[2..];
      PointUsesEnd(rest[2..], mode, Store(w, rest[0].tag, Value(rest[1])));
    } else {
      PointUsesEnd(rest[1..], mode, w);
    }
  }

  lemma {:induction false} ValidConcat(a: seq<TrackPoint>, b: seq<TrackPoint>)
    ensures |Valid(a + b)| == |Valid(a)| + |Valid(b)|
  {
    if a == [] {
      assert a + b == b;
    } else {
      assert (a + b)[1..] == a[1..] + b;
      ValidConcat(a[1..], b);
    }
  }

  lemma ValidOne(p: TrackPoint)
    ensures |Valid([p])| == if IsBreak(p) then 0 else 1
  {
  }

  /** Any reading of a section adds at most as many points as it passes trkpt end tags. */
  lemma {:induction false} PointsNeedEnds(rest: seq<Node>, mode: Tag, now: string)
    requires SectionLoop(rest, mode, now).Some?
    ensures var (points, after) := SectionLoop(rest, mode, now).value;
      |Valid(points)| + PointEnds(after) <= PointEnds(rest)
    decreases |rest|, 1
  {
    hide SectionLoop, PointLoop, PointOf, EmptyWaypoint, Break, Valid, Gpx.Before;
    SectionNothing(mode, now);
    SectionCases(rest, mode, now);
    ValidNothing();
    var first := rest[0];
    if first.Start? && first.tag in {Rtept, Trkpt} {
      PointNeedsEnd(rest, mode, now);
    } else if first.Start? && first.tag == Trkseg && !first.empty {
      SegmentNeedsEnds(rest, mode, now);
    } else if HasOneValue(first) {
      assert rest[1..][1..] == rest[2..];
      PointsNeedEnds(rest[2..], mode, now);
    } else if first != End(mode) {
      PointsNeedEnds(rest[1..], mode, now);
    }
  }

  lemma ValidNothing()
    ensures Valid([]) == []
  {
  }

  lemma BeforeSome(points: seq<TrackPoint>, r: Option<(seq<TrackPoint>, seq<Node>)>)
    ensures Gpx.Before(points, r) == if r.None? then None else Some((points + r.value.0, r.value.1))
  {
  }

  lemma {:induction false} PointNeedsEnd(rest: seq<Node>, mode: Tag, now: string)
    requires SectionLoop(rest, mode, now).Some? && rest != [] && rest[0].Start? && rest[0].tag in {Rtept, Trkpt}
    ensures var (points, after) := SectionLoop(rest, mode, now).value;
      |Valid(points)| + PointEnds(after) <= PointEnds(rest)
    decreases |rest|, 0
  {
    hide SectionLoop, PointLoop, PointOf, EmptyWaypoint, Valid, Gpx.Before;
    SectionCases(rest, mode, now);
    var tag, empty := rest[0].tag, EmptyWaypoint(rest[0].lat, rest[0].lon);
    var (w, after) := PointLoop(rest[1..], tag, empty).value;
    PointUsesEnd(rest[1..], tag, empty);
    var added := if tag == Trkpt then [PointOf(w, now)] else [];
    BeforeSome(added, SectionLoop(after, mode, now));
    PointsNeedEnds(after, mode, now);
    ValidConcat(added, SectionLoop(after, mode, now).value.0);
    ValidOne(PointOf(w, now));
    ValidNothing();
  }

  lemma {:induction false} SegmentNeedsEnds(rest: seq<Node>, mode: Tag, now: string)
    requires SectionLoop(rest, mode, now).Some?
    requires rest != [] && rest[0].Start? && rest[0].tag == Trkseg && !rest[0].empty
    ensures var (points, after) := SectionLoop(rest, mode, now).value;
      |Valid(points)| + PointEnds(after) <= PointEnds(rest)
    decreases |rest|, 0
  {
    hide SectionLoop, Break, Valid, Gpx.Before;
    SectionCases(rest, mode, now);
    var (points, after) := SectionLoop(rest[1..], Trkseg, now).value;
    BeforeSome(points + [Break(now)], SectionLoop(after, mode, now));
    PointsNeedEnds(rest[1..], Trkseg, now);
    PointsNeedEnds(after, mode, now);
    ValidConcat(points + [Break(now)], SectionLoop(after, mode, now).value.0);
    ValidConcat(points, [Break(now)]);
    ValidOne(Break(now));
    BreakIsBreak(now);
  }

  lemma BreakIsBreak(now: string)
    ensures IsBreak(Break(now))
  {
  }

  /** Points that are written without any child element. */
  function Bare(track: seq<TrackPoint>): nat {
    if track == [] then 0 else (if !IsBreak(track[0]) && !HasChild(track[0]) then 1 else 0) + Bare(track[1..])
  }

  lemma BareNone(track: seq<TrackPoint>)
    ensures Bare(track) == 0 <==> forall p :: p in track && !IsBreak(p) ==> HasChild(p)
  {
    if track != [] {
      BareNone(track[1..]);
      assert forall p :: p in track <==> p == track[0] || p in track[1..];
    }
  }

  lemma NoEndsInOptional(write: bool, tag: Tag, text: string)
    requires tag != Trkpt
    ensures PointEnds(Optional(write, tag, text)) == 0
  {
    if write {
      var e := Element(tag, text);
      assert e[1..] == [Text(text), End(tag)] && e[1..][1..] == [End(tag)] && [End(tag)][1..] == [];
      NoEnds();
      assert PointEnds([End(tag)]) == 0 && PointEnds([Text(text), End(tag)]) == 0;
    }
  }

  lemma NoEndsInLaterChildren(p: TrackPoint)
    ensures PointEnds(LaterChildren(p)) == 0
  {
    hide Optional, FixedText, IntText, FixText, PointEnds;
    var c7 := Optional(p.hdop > -1.0, Hdop, FixedText(p.hdop, 2));
    var c6 := Optional(p.sat != 0, Sat, IntText(p.sat));
    var c5 := Optional(p.fix in {2, 3, 4}, Fix, FixText(p.fix));
    var c4 := Optional(p.speed > -1.0, Speed, FixedText(p.speed, 3));
    NoEndsInOptional(p.hdop > -1.0, Hdop, FixedText(p.hdop, 2));
    NoEndsInOptional(p.sat != 0, Sat, IntText(p.sat));
    NoEndsInOptional(p.fix in {2, 3, 4}, Fix, FixText(p.fix));
    NoEndsInOptional(p.speed > -1.0, Speed, FixedText(p.speed, 3));
    PointEndsConcat(c6, c7);
    PointEndsConcat(c5, c6 + c7);
    PointEndsConcat(c4, c5 + (c6 + c7));
  }

  lemma NoEndsInChildren(p: TrackPoint)
    ensures PointEnds(Children(p)) == 0
  {
    hide Optional, FixedText, LaterChildren, PointEnds;
    var c1 := Optional(p.alt < 1000.0, Ele, FixedText(p.alt, 3));
    var c2 := Optional(p.postime != "", Time, p.postime);
    var c3 := Optional(p.course < 1000.0, Course, FixedText(p.course, 2));
    NoEndsInOptional(p.alt < 1000.0, Ele, FixedText(p.alt, 3));
    NoEndsInOptional(p.postime != "", Time, p.postime);
    NoEndsInOptional(p.course < 1000.0, Course, FixedText(p.course, 2));
    NoEndsInLaterChildren(p);
    PointEndsConcat(c3, LaterChildren(p));
    PointEndsConcat(c2, c3 + LaterChildren(p));
    PointEndsConcat(c1, c2 + (c3 + LaterChildren(p)));
  }

  lemma EndsOfPoint(p: TrackPoint)
    ensures PointEnds(PointNodes(p)) == if HasChild(p) then 1 else 0
  {
    hide Children, FixedText;
    ChildrenWhen(p);
    var lat, lon := FixedText(p.lat, 8), FixedText(p.lon, 8);
    NoEndsInChildren(p);
    PointEndsConcat([Start(Trkpt, lat, lon, false)] + Children(p), [End(Trkpt)]);
    PointEndsConcat([Start(Trkpt, lat, lon, false)], Children(p));
    assert [End(Trkpt)][1..] == [] && [Start(Trkpt, lat, lon, false)][1..] == []
      && [Start(Trkpt, lat, lon, true)][1..] == [];
  }

  lemma NoEndsInMarks()
    ensures PointEnds([NEWLINE]) == 0 && PointEnds(OPEN_SEGMENT) == 0 && PointEnds(CLOSE_SEGMENT) == 0
    ensures PointEnds(TAIL) == 0 && PointEnds(CLOSE_SEGMENT + OPEN_SEGMENT) == 0
  {
    assert OPEN_SEGMENT[1..] == [NEWLINE] && CLOSE_SEGMENT[1..] == [NEWLINE];
    var last := [End(Trk), NEWLINE];
    assert last[1..] == [NEWLINE] && [NEWLINE][1..] == [];
    PointEndsConcat(CLOSE_SEGMENT, last);
    PointEndsConcat(CLOSE_SEGMENT, OPEN_SEGMENT);
  }

  lemma {:induction false} EndsOfBody(track: seq<TrackPoint>, j: bool)
    ensures PointEnds(Body(track, j)) + Bare(track) == |Valid(track)|
  {
    hide PointNodes, PointEnds;
    if track == [] {
      NoEnds();
    } else {
      NoEndsInMarks();
      NoEnds();
      if IsBreak(track[0]) {
        EndsOfBody(track[1..], true);
        PointEndsConcat(if j then [] else CLOSE_SEGMENT + OPEN_SEGMENT, Body(track[1..], true));
      } else {
        EndsOfBody(track[1..], false);
        EndsOfPoint(track[0]);
        PointEndsConcat(PointNodes(track[0]), [NEWLINE] + Body(track[1..], false));
        PointEndsConcat([NEWLINE], Body(track[1..], false));
      }
    }
  }

  lemma NoEnds()
    ensures PointEnds([]) == 0
  {
  }

  lemma NormalKeepsKind(p: TrackPoint, now: string)
    ensures !IsBreak(p) ==> !IsBreak(Normal(p, now))
  {
    if !IsBreak(p) { RoundedBelow(p.lon, 8, 1000); }
  }

  lemma {:induction false} ExpectedKeepsPoints(track: seq<TrackPoint>, j: bool, now: string)
    ensures |Valid(ReadBody(track, j, now))| == |Valid(track)|
  {
    hide Normal, Break;
    BreakIsBreak(now);
    ValidOne(Break(now));
    if track != [] {
      ExpectedKeepsPoints(track[1..], IsBreak(track[0]), now);
      if IsBreak(track[0]) {
        ValidConcat(if j then [] else [Break(now)], ReadBody(track[1..], true, now));
      } else {
        NormalKeepsKind(track[0], now);
        ValidOne(Normal(track[0], now));
        ValidConcat([Normal(track[0], now)], ReadBody(track[1..], false, now));
      }
    }
  }

  /**
   The round trip holds exactly when every point is written with at least one child element: a bare
   point is written as a self-closing element, and its reader runs on to a later point's end tag.
   */
  lemma RoundTripExactlyWhen(track: seq<TrackPoint>, now: string)
    ensures ReadTrack(TrackNodes(track), now) == Some(Expected(track, now))
      <==> forall p :: p in track && !IsBreak(p) ==> HasChild(p)
  {
    hide SectionLoop, Body, Expected, ReadBody, Valid, PointEnds, Bare;
    BareNone(track);
    if Bare(track) == 0 {
      RoundTrip(track, now);
    } else if ReadTrack(TrackNodes(track), now) == Some(Expected(track, now)) {
      ReadBodyIsExpected(track, now);
      ExpectedKeepsPoints(track, true, now);
      EndsOfBody(track, true);
      var inner := Body(track, true) + TAIL;
      var rest := [NEWLINE] + (OPEN_SEGMENT + inner);
      assert TrackNodes(track)[1..] == rest;
      PointsNeedEnds(rest, Trk, now);
      NoEndsInMarks();
      PointEndsConcat([NEWLINE], OPEN_SEGMENT + inner);
      PointEndsConcat(OPEN_SEGMENT, inner);
      PointEndsConcat(Body(track, true), TAIL);
      assert false;
    }
  }

  // ---------------------------------------------------------------- repeated round trips

  /** A third normalisation changes nothing; a second one may, when rounding reaches a limit of a field. */
  lemma NormalTwiceIsStable(p: TrackPoint, n0: string, n1: string, n2: string)
    requires n0 != ""
    ensures Normal(Normal(Normal(p, n0), n1), n2) == Normal(Normal(p, n0), n1)
  {
    hide Rounded;
    RoundedIsStable(p.lat, 8);
    RoundedIsStable(p.lon, 8);
    RoundedIsStable(p.alt, 3);
    RoundedIsStable(p.course, 2);
    RoundedIsStable(p.speed, 3);
    RoundedIsStable(p.hdop, 2);
    RoundedWhole(-99999, 3);
  }

  /** Altitude and course do not round up to 1000, from which on they are not written. */
  predicate OffLimits(p: TrackPoint) {
    !(999.9995 <= p.alt < 1000.0) && !(999.995 <= p.course < 1000.0)
  }

  lemma ReachesThousand(x: real)
    ensures Rounded(x, 3) >= 1000.0 <==> x >= 999.9995
    ensures Rounded(x, 2) >= 1000.0 <==> x >= 999.995
  {
    assert Pow10(2) == 100 && Pow10(3) == 1000 by { assert Pow10(1) == 10; }
    if x >= 0.0 {
      hide Rounded;
      RoundedReaches(x, 3, 1000);
      RoundedReaches(x, 2, 1000);
    }
  }

  lemma AltitudeTwice(x: real)
    ensures var y := if x < 1000.0 then Rounded(x, 3) else -99999.0;
      (if y < 1000.0 then Rounded(y, 3) else -99999.0) == y <==> !(999.9995 <= x < 1000.0)
  {
    hide Rounded;
    ReachesThousand(x);
    RoundedIsStable(x, 3);
    RoundedWhole(-99999, 3);
  }

  lemma CourseTwice(x: real)
    ensures var y := if x < 1000.0 then Rounded(x, 2) else 1001.0;
      (if y < 1000.0 then Rounded(y, 2) else 1001.0) == y <==> !(999.995 <= x < 1000.0)
  {
    hide Rounded;
    ReachesThousand(x);
    RoundedIsStable(x, 2);
    if x < 1000.0 { RoundedBelow(x, 2, 1000); }
  }

  /** For speed and hdop. */
  lemma DefaultTwice(x: real, places: nat)
    ensures var y := if x > -1.0 then Rounded(x, places) else -1.0;
      (if y > -1.0 then Rounded(y, places) else -1.0) == y
  {
    hide Rounded;
    AboveMinusOne(x, places);
    RoundedIsStable(x, places);
  }

  /**
   One normalisation is a fixed point exactly when neither altitude nor course rounds up to 1000, and the
   point has a time, if only from the clock. Speed and hdop may reach their limit -1: it is their default.
   */
  lemma NormalOnceIsStableExactlyWhen(p: TrackPoint, n0: string, n1: string)
    ensures Normal(Normal(p, n0), n1) == Normal(p, n0)
      <==> OffLimits(p) && (p.postime != "" || n0 != "" || n1 == "")
  {
    hide Rounded;
    RoundedIsStable(p.lat, 8);
    RoundedIsStable(p.lon, 8);
    AltitudeTwice(p.alt);
    CourseTwice(p.course);
    DefaultTwice(p.speed, 3);
    DefaultTwice(p.hdop, 2);
  }

  lemma AboveMinusOne(x: real, places: nat)
    ensures x > -1.0 ==> Rounded(x, places) >= -1.0
  {
    hide Rounded;
    if x > -1.0 { RoundedBelow(-x, places, 1); }
    RoundedNegates(x, places);
  }

  /** An example: 999.9996 m is written as 1000.000, and an altitude of 1000 is not written at all. */
  lemma NormalOnceIsNotStable(p: TrackPoint, now: string)
    requires p.alt == 999.9996
    ensures Normal(p, now).alt == 1000.0 && Normal(Normal(p, now), now).alt == -99999.0
  {
    hide Rounded;
    ReachesThousand(999.9996);
    RoundedBelow(999.9996, 3, 1000);
  }

  /** The track with the times of its breaks replaced. */
  function Reclocked(track: seq<TrackPoint>, now: string): seq<TrackPoint> {
    if track == [] then []
    else [if IsBreak(track[0]) then track[0].(postime := Clip(now)) else track[0]] + Reclocked(track[1..], now)
  }

  lemma ReclockedFirst(p: TrackPoint, track: seq<TrackPoint>, now: string)
    ensures Reclocked([p] + track, now) == [if IsBreak(p) then p.(postime := Clip(now)) else p] + Reclocked(track, now)
  {
    assert ([p] + track)[1..] == track;
  }

  lemma BreakReclocked(n0: string, n1: string)
    ensures Break(n0).(postime := Clip(n1)) == Break(n1) && IsBreak(Break(n0))
  {
  }

  lemma {:induction false} ReadBodyTwiceIsStable(track: seq<TrackPoint>, j: bool, n0: string, n1: string, n2: string)
    requires n0 != ""
    ensures var twice := ReadBody(ReadBody(track, j, n0), j, n1); ReadBody(twice, j, n2) == Reclocked(twice, n2)
  {
    hide Normal, Break, Reclocked, IsBreak;
    BreakReclocked(n0, n0);
    BreakReclocked(n1, n2);
    if track == [] {
      NothingTwice(j, n0, n1, n2);
    } else if IsBreak(track[0]) {
      ReadBodyTwiceIsStable(track[1..], true, n0, n1, n2);
      var once := ReadBody(track[1..], true, n0);
      var twice := ReadBody(once, true, n1);
      assert [] + once == once;
      assert ([Break(n0)] + once)[1..] == once;
      assert ([Break(n1)] + twice)[1..] == twice;
      ReclockedFirst(Break(n1), twice, n2);
    } else {
      ReadBodyTwiceIsStable(track[1..], false, n0, n1, n2);
      var once := ReadBody(track[1..], false, n0);
      var twice := ReadBody(once, false, n1);
      var p := Normal(track[0], n0);
      NormalKeepsKind(track[0], n0);
      NormalKeepsKind(p, n1);
      NormalTwiceIsStable(track[0], n0, n1, n2);
      assert ([p] + once)[1..] == once;
      assert ([Normal(p, n1)] + twice)[1..] == twice;
      ReclockedFirst(Normal(p, n1), twice, n2);
    }
  }

  lemma OneBreak(n: string, j: bool, now: string)
    ensures ReadBody([Break(n)], j, now) == if j then [Break(now)] else [Break(now), Break(now)]
  {
    hide Break;
    BreakIsBreak(n);
    assert [Break(n)][1..] == [] && [] + [Break(now)] == [Break(now)];
    assert ReadBody([], true, now) == [Break(now)];
  }

  lemma TwoBreaks(n: string, now: string)
    ensures ReadBody([Break(n), Break(n)], false, now) == [Break(now), Break(now)]
  {
    hide Break;
    BreakIsBreak(n);
    OneBreak(n, true, now);
    assert [Break(n), Break(n)][1..] == [Break(n)];
  }

  lemma NothingTwice(j: bool, n0: string, n1: string, n2: string)
    ensures var twice := ReadBody(ReadBody([], j, n0), j, n1); ReadBody(twice, j, n2) == Reclocked(twice, n2)
  {
    hide Break;
    OneBreak(n0, j, n1);
    assert ReadBody([], j, n0) == [Break(n0)];
    hide ReadBody;
    OneBreak(n1, j, n2);
    TwoBreaks(n1, n2);
    BreakReclocked(n1, n2);
    assert [Break(n1), Break(n1)] == [Break(n1)] + [Break(n1)] && [Break(n1)] == [Break(n1)] + [];
    ReclockedFirst(Break(n1), [], n2);
    ReclockedFirst(Break(n1), [Break(n1)], n2);
    assert Reclocked([], n2) == [];
  }

  lemma {:induction false} BodyTripIsStableExactlyWhen(track: seq<TrackPoint>, j: bool, now: string)
    requires now != ""
    ensures var once := ReadBody(track, j, now);
      ReadBody(once, j, now) == once <==>
        && (if track == [] then j else IsBreak(track[|track| - 1]))
        && forall p :: p in track && !IsBreak(p) ==> OffLimits(p)
  {
    hide Normal, Break, OffLimits;
    BreakIsBreak(now);
    if track == [] {
      assert [Break(now)][1..] == [];
    } else {
      BodyTripIsStableExactlyWhen(track[1..], IsBreak(track[0]), now);
      var once := ReadBody(track[1..], IsBreak(track[0]), now);
      if |track| > 1 { assert track[|track| - 1] == track[1..][|track| - 2]; }
      assert forall p :: p in track <==> p == track[0] || p in track[1..];
      var first := if IsBreak(track[0]) then Break(now) else Normal(track[0], now);
      assert [] + once == once && ([first] + once)[1..] == once;
      if !IsBreak(track[0]) {
        NormalKeepsKind(track[0], now);
        NormalOnceIsStableExactlyWhen(track[0], now, now);
        SameFront(Normal(first, now), first, ReadBody(once, false, now), once);
      } else {
        SameFront(first, first, ReadBody(once, true, now), once);
      }
    }
  }

  lemma SameFront(p: TrackPoint, q: TrackPoint, s: seq<TrackPoint>, t: seq<TrackPoint>)
    ensures [p] + s == [q] + t <==> p == q && s == t
  {
    var u, v := [p] + s, [q] + t;
    if u == v { assert s == u[1..] && t == v[1..] && p == u[0] && q == v[0]; }
  }

  lemma {:induction false} ReadPointsHaveChildren(track: seq<TrackPoint>, j: bool, now: string)
    requires now != ""
    ensures forall p :: p in ReadBody(track, j, now) && !IsBreak(p) ==> HasChild(p)
  {
    if track != [] {
      ReadPointsHaveChildren(track[1..], IsBreak(track[0]), now);
    }
  }

  /** Two round trips of a track, in terms of what the writer's points become. */
  lemma TwoTrips(track: seq<TrackPoint>, n0: string, n1: string)
    requires n0 != "" && forall p :: p in track && !IsBreak(p) ==> HasChild(p)
    ensures var once := ReadBody(track, true, n0);
      && ReadTrack(TrackNodes(track), n0) == Some(once)
      && ReadTrack(TrackNodes(once), n1) == Some(ReadBody(once, true, n1))
  {
    hide ReadTrack, TrackNodes, ReadBody, Expected, HasChild;
    RoundTrip(track, n0);
    ReadBodyIsExpected(track, n0);
    var once := ReadBody(track, true, n0);
    ReadPointsHaveChildren(track, true, n0);
    RoundTrip(once, n1);
    ReadBodyIsExpected(once, n1);
  }

  /** Two round trips reach a fixed point: whatever the clock, the third reads back the second but for the
      times of breaks. */
  lemma SecondRoundTripIsStable(track: seq<TrackPoint>, n0: string, n1: string, n2: string)
    requires n0 != "" && n1 != ""
    requires forall p :: p in track && !IsBreak(p) ==> HasChild(p)
    ensures var once := ReadTrack(TrackNodes(track), n0);
      once.Some? &&
      var twice := ReadTrack(TrackNodes(once.value), n1);
      twice.Some? && ReadTrack(TrackNodes(twice.value), n2) == Some(Reclocked(twice.value, n2))
  {
    hide ReadTrack, TrackNodes, ReadBody, Reclocked, HasChild;
    TwoTrips(track, n0, n1);
    var once := ReadBody(track, true, n0);
    ReadPointsHaveChildren(track, true, n0);
    TwoTrips(once, n1, n2);
    ReadBodyTwiceIsStable(track, true, n0, n1, n2);
  }

  lemma {:induction false} BodyTripLength(track: seq<TrackPoint>, j: bool, n0: string, n1: string)
    ensures var once := ReadBody(track, j, n0);
      |ReadBody(once, j, n1)| == |once| + if (if track == [] then j else IsBreak(track[|track| - 1])) then 0 else 1
  {
    hide Normal, Break;
    BreakIsBreak(n0);
    if track == [] {
      assert [Break(n0)][1..] == [];
    } else {
      BodyTripLength(track[1..], IsBreak(track[0]), n0, n1);
      var once := ReadBody(track[1..], IsBreak(track[0]), n0);
      if |track| > 1 { assert track[|track| - 1] == track[1..][|track| - 2]; }
      NormalKeepsKind(track[0], n0);
      assert [] + once == once;
      assert ([Break(n0)] + once)[1..] == once;
      assert ([Normal(track[0], n0)] + once)[1..] == once;
    }
  }

  /** The writer need not close the track with one more break. */
  predicate EndsWithBreak(track: seq<TrackPoint>) {
    track == [] || IsBreak(track[|track| - 1])
  }

  /** One round trip is a fixed point (at a fixed clock) exactly when the track ends with a break and no point
      is at a limit. */
  lemma OneTripIsStableExactlyWhen(track: seq<TrackPoint>, now: string)
    requires now != "" && forall p :: p in track && !IsBreak(p) ==> HasChild(p)
    ensures var once := ReadTrack(TrackNodes(track), now);
      && once.Some?
      && (ReadTrack(TrackNodes(once.value), now) == once
          <==> EndsWithBreak(track) && forall p :: p in track && !IsBreak(p) ==> OffLimits(p))
  {
    hide ReadTrack, TrackNodes, ReadBody, HasChild, OffLimits;
    TwoTrips(track, now, now);
    BodyTripIsStableExactlyWhen(track, true, now);
  }

  /** One round trip is not enough: a track that does not end with a break grows by one at the second. */
  lemma SecondTripLength(track: seq<TrackPoint>, n0: string, n1: string)
    requires n0 != "" && forall p :: p in track && !IsBreak(p) ==> HasChild(p)
    ensures var once := ReadTrack(TrackNodes(track), n0);
      && once.Some?
      && var twice := ReadTrack(TrackNodes(once.value), n1);
      twice.Some? && |twice.value| == |once.value| + if EndsWithBreak(track) then 0 else 1
  {
    hide ReadTrack, TrackNodes, ReadBody, HasChild;
    TwoTrips(track, n0, n1);
    BodyTripLength(track, true, n0, n1);
  }
}
