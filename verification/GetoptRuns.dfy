/** Whole runs from the first call to EOF: what they leave in argv, and what a second scan sees. */
module GetoptRuns {
  import opened Common
  import opened Getopt
  import opened GetoptReference
  import opened GetoptScanner

  /** optstring does not choose an ordering of its own. */
  predicate Unmarked(cfg: Config) {
    FirstCallConfig(cfg) == cfg
  }

  /** A run that starts with optind 0. */
  function RunAll(cfg: Config, posixlyCorrect: bool, argv: seq<string>): Outcome
    requires |argv| >= 1
  {
    CallsMakeProgress(FirstCallConfig(cfg), Begin(cfg, posixlyCorrect, argv));
    var call := Step(FirstCallConfig(cfg), Begin(cfg, posixlyCorrect, argv));
    if call.0.None? then Outcome([], call.1) else Before(call, Run(cfg, call.1))
  }

  /** A whole run reports the reference reading and leaves the program name, the options, the rest. */
  lemma WholeRun(cfg: Config, posixlyCorrect: bool, argv: seq<string>)
    requires |argv| >= 1 && Unmarked(cfg)
    ensures var r := RunAll(cfg, posixlyCorrect, argv);
      var p := Reference(cfg, if posixlyCorrect then RequireOrder else Permute, argv[1..]);
      r.events == p.events && r.final.argv == [argv[0]] + p.opts + p.rest && r.final.optind == 1 + |p.opts|
  {
    hide Step;
    var st := Begin(cfg, posixlyCorrect, argv);
    RunMeetsReference(cfg, st);
    var p := Reference(cfg, st.ordering, argv[1..]);
    assert Layout(st, p) == [argv[0]] + p.opts + p.rest;
  }

  // ---------------------------------------------------------------- stable partition

  /** The elements of s whose mark is b, in order. */
  function Select<T>(s: seq<T>, marks: seq<bool>, b: bool): seq<T>
    requires |marks| == |s|
  {
    if s == [] then []
    else (if marks[0] == b then [s[0]] else []) + Select(s[1..], marks[1..], b)
  }

  lemma {:induction false} SelectConcat<T>(s: seq<T>, t: seq<T>, ms: seq<bool>, mt: seq<bool>, b: bool)
    requires |ms| == |s| && |mt| == |t|
    ensures Select(s + t, ms + mt, b) == Select(s, ms, b) + Select(t, mt, b)
  {
    hide Select;
    if s == [] {
      SelectNone<T>(b);
      assert s + t == t && ms + mt == mt && [] + Select(t, mt, b) == Select(t, mt, b);
    } else {
      SelectConcat(s[1..], t, ms[1..], mt, b);
      assert s + t == [s[0]] + (s[1..] + t) && ms + mt == [ms[0]] + (ms[1..] + mt);
      SelectFirst(s[0], s[1..] + t, ms[0], ms[1..] + mt, b);
      assert s == [s[0]] + s[1..] && ms == [ms[0]] + ms[1..];
      SelectFirst(s[0], s[1..], ms[0], ms[1..], b);
    }
  }

  lemma SelectNone<T>(b: bool)
    ensures Select<T>([], [], b) == []
  {
  }

  lemma SelectFirst<T>(x: T, s: seq<T>, mark: bool, marks: seq<bool>, b: bool)
    requires |marks| == |s|
    ensures Select([x] + s, [mark] + marks, b) == (if mark == b then [x] else []) + Select(s, marks, b)
  {
    assert ([x] + s)[1..] == s && ([mark] + marks)[1..] == marks;
  }

  lemma {:induction false} SelectAll<T>(s: seq<T>, marks: seq<bool>, b: bool)
    requires |marks| == |s| && forall i :: 0 <= i < |s| ==> marks[i] == b
    ensures Select(s, marks, b) == s && Select(s, marks, !b) == []
  {
    if s != [] {
      SelectAll(s[1..], marks[1..], b);
      assert [s[0]] + s[1..] == s;
    }
  }

  function Repeated(mark: bool, n: nat): (marks: seq<bool>)
    ensures |marks| == n && forall i :: 0 <= i < n ==> marks[i] == mark
  {
    seq(n, _ => mark)
  }

  lemma SelectFront<T>(s: seq<T>, u: nat, marks: seq<bool>)
    requires u <= |s| && |marks| == |s| - u
    ensures Select(s, Repeated(true, u) + marks, true) == s[..u] + Select(s[u..], marks, true)
    ensures Select(s, Repeated(true, u) + marks, false) == Select(s[u..], marks, false)
  {
    hide Select;
    var kept, left := Select(s[u..], marks, true), Select(s[u..], marks, false);
    SelectAll(s[..u], Repeated(true, u), true);
    SelectConcat(s[..u], s[u..], Repeated(true, u), marks, true);
    SelectConcat(s[..u], s[u..], Repeated(true, u), marks, false);
    assert s == s[..u] + s[u..] && [] + left == left;
  }

  lemma SelectHead<T>(s: seq<T>, marks: seq<bool>)
    requires |marks| == |s| > 0
    ensures forall b :: Select(s, marks, b) == (if marks[0] == b then [s[0]] else []) + Select(s[1..], marks[1..], b)
  {
  }

  /** Options and rest are complementary subsequences of the arguments; before "--" the rest is plain arguments. */
  lemma {:induction false} ReferenceIsStablePartition(cfg: Config, args: seq<string>) returns (marks: seq<bool>)
    ensures |marks| == |args|
    ensures var p := Reference(cfg, Permute, args);
      && Select(args, marks, true) == p.opts && Select(args, marks, false) == p.rest
      && (!p.ended ==> forall x :: x in p.rest ==> IsNonOption(x))
    decreases |args|
  {
    hide Select, IsNonOption;
    if args == [] {
      marks := [];
      SelectNone<string>(true);
      SelectNone<string>(false);
    } else if args[0] == "--" {
      marks := [true] + Repeated(false, |args| - 1);
      SelectAll(args[1..], marks[1..], false);
      SelectHead(args, marks);
    } else if IsNonOption(args[0]) {
      var tail := ReferenceIsStablePartition(cfg, args[1..]);
      marks := [false] + tail;
      SelectHead(args, marks);
    } else {
      var u := ReadElement(cfg, args[0], ElementText(cfg, args[0]), Following(args, 0)).used;
      var tail := ReferenceIsStablePartition(cfg, args[u..]);
      marks := Repeated(true, u) + tail;
      SelectFront(args, u, tail);
    }
  }

  /** One plain argument, in the orderings other than PERMUTE. */
  lemma PlainInPlace(cfg: Config, ordering: Ordering, args: seq<string>)
    requires ordering != Permute && args != [] && IsNonOption(args[0])
    requires var p := Reference(cfg, ordering, args[1..]); p.opts + p.rest == args[1..]
    ensures var p := Reference(cfg, ordering, args); p.opts + p.rest == args
  {
    hide AfterElement, IsNonOption;
    if ordering == ReturnInOrder {
      var p := Reference(cfg, ordering, args[1..]);
      assert [args[0]] + p.opts + p.rest == [args[0]] + (p.opts + p.rest);
    }
  }

  lemma ListOrTerminator(cfg: Config, ordering: Ordering, args: seq<string>)
    requires args == [] || args[0] == "--"
    ensures var p := Reference(cfg, ordering, args); p.opts + p.rest == args
  {
    hide AfterElement, IsNonOption;
  }

  /** The other two orderings never move an element. */
  lemma {:induction false} OtherOrderingsReadInPlace(cfg: Config, ordering: Ordering, args: seq<string>)
    requires ordering != Permute
    ensures var p := Reference(cfg, ordering, args); p.opts + p.rest == args
    decreases |args|
  {
    hide Reference, ReadElement;
    if args == [] || args[0] == "--" {
      ListOrTerminator(cfg, ordering, args);
    } else if IsNonOption(args[0]) {
      OtherOrderingsReadInPlace(cfg, ordering, args[1..]);
      PlainInPlace(cfg, ordering, args);
    } else {
      var e, p := ElementFirst(cfg, ordering, args);
      OtherOrderingsReadInPlace(cfg, ordering, args[e.used..]);
      assert args[..e.used] + p.opts + p.rest == args[..e.used] + (p.opts + p.rest);
    }
  }

  /** The reading of a list that starts with an option element. */
  lemma ElementFirst(cfg: Config, ordering: Ordering, args: seq<string>) returns (e: Element, p: Reading)
    requires args != [] && args[0] != "--" && !IsNonOption(args[0])
    ensures e == ReadElement(cfg, args[0], ElementText(cfg, args[0]), Following(args, 0))
    ensures e.used <= |args| && p == Reference(cfg, ordering, args[e.used..])
    ensures Reference(cfg, ordering, args) == Reading(args[..e.used] + p.opts, p.rest, e.events + p.events, p.ended)
  {
    hide ReadElement;
    e := ReadElement(cfg, args[0], ElementText(cfg, args[0]), Following(args, 0));
    p := Reference(cfg, ordering, args[e.used..]);
  }

  /** In these orderings what is still to come is read in place too. */
  lemma PendingInPlace(cfg: Config, ordering: Ordering, next: string, args: seq<string>)
    requires ordering != Permute && (next != "" ==> args != [] && !IsNonOption(args[0]))
    ensures var p := Pending(cfg, ordering, next, args); p.opts + p.rest == args
  {
    hide Reference, ReadElement;
    if next == "" {
      OtherOrderingsReadInPlace(cfg, ordering, args);
    } else {
      var u := ReadElement(cfg, args[0], next, Following(args, 0)).used;
      OtherOrderingsReadInPlace(cfg, ordering, args[u..]);
      var p := Reference(cfg, ordering, args[u..]);
      assert args[..u] + p.opts + p.rest == args[..u] + (p.opts + p.rest);
    }
  }

  /** A call in one of these orderings leaves argv as it is. */
  lemma CallInPlace(cfg: Config, st: State)
    requires Ready(st) && st.ordering != Permute
    ensures Step(cfg, st).1.argv == st.argv
  {
    hide Decode, BackUp;
    BackUpInPlace(st);
    if st.optind < |st.argv| { TerminateInPlace(st); }
  }

  lemma BackUpInPlace(st: State)
    ensures BackUp(st).argv == st.argv
  {
  }

  lemma TerminateInPlace(st: State)
    requires st.first == st.last <= st.optind < |st.argv|
    ensures Terminate(st).argv == st.argv
  {
  }

  /**
   Option strings with an order mark: the first call reads without the mark, and what its result leaves is
   read by the later calls with it. Nothing is moved.
   */
  lemma MarkedRun(cfg: Config, posixlyCorrect: bool, argv: seq<string>)
    requires |argv| >= 1 && !Unmarked(cfg)
    ensures var ordering := if cfg.optstring[0] == '-' then ReturnInOrder else RequireOrder;
      var (event, next) := Step(FirstCallConfig(cfg), Begin(cfg, posixlyCorrect, argv));
      var first := Reference(FirstCallConfig(cfg), ordering, argv[1..]);
      var r := RunAll(cfg, posixlyCorrect, argv);
      && r.final.argv == argv
      && if event.None? then first.events == r.events == []
         else
           && first.events != [] && first.events[0] == event.value && Ready(next) && next.argv == argv
           && var p := Pending(cfg, ordering, next.nextchar, argv[next.optind..]);
           r.events == [event.value] + p.events && r.final.optind == next.optind + |p.opts|
  {
    hide Step, Reference, AfterElement, Layout;
    var st := Begin(cfg, posixlyCorrect, argv);
    RunMeetsReference(FirstCallConfig(cfg), st);
    CallsMakeProgress(FirstCallConfig(cfg), st);
    CallInPlace(FirstCallConfig(cfg), st);
    StepKeepsOrdering(FirstCallConfig(cfg), st);
    var (event, next) := Step(FirstCallConfig(cfg), st);
    if event.Some? {
      RunMeetsReference(cfg, next);
      var args := argv[next.optind..];
      PendingInPlace(cfg, st.ordering, next.nextchar, args);
      var p := Pending(cfg, st.ordering, next.nextchar, args);
      LayoutInPlace(next, p);
    }
  }

  /** Where nothing is skipped and the rest is read in place, the layout is that of argv. */
  lemma LayoutInPlace(st: State, p: Reading)
    requires st.first == st.last <= st.optind <= |st.argv| && p.opts + p.rest == st.argv[st.optind..]
    ensures Layout(st, p) == st.argv
  {
    var args, front := st.argv[st.optind..], st.argv[..st.first] + st.argv[st.last..st.optind];
    assert st.argv == front + args;
    assert Layout(st, p) == front + (p.opts + p.rest);
  }

  lemma StepKeepsOrdering(cfg: Config, st: State)
    requires Ready(st)
    ensures Step(cfg, st).1.ordering == st.ordering && |Step(cfg, st).1.argv| == |st.argv|
  {
    hide ElementStep, DecodeStep, SkipAhead;
  }

  /** In RETURN_IN_ORDER mode, arguments are left over only after an element "--". */
  lemma {:induction false} OnlyDashesStopInOrder(cfg: Config, args: seq<string>)
    ensures var p := Reference(cfg, ReturnInOrder, args);
      p.rest != [] ==> p.opts != [] && p.opts[|p.opts| - 1] == "--"
    decreases |args|
  {
    hide AfterElement, ReadElement;
    if args == [] || args[0] == "--" {
    } else if IsNonOption(args[0]) {
      OnlyDashesStopInOrder(cfg, args[1..]);
    } else {
      var e, p := ElementFirst(cfg, ReturnInOrder, args);
      OnlyDashesStopInOrder(cfg, args[e.used..]);
    }
  }

  // ---------------------------------------------------------------- scanning the result again

  predicate ReportsMissing(events: seq<Event>) {
    exists i :: 0 <= i < |events| && events[i].message == MissingArgument
  }

  /** What is decoded with f for the next element (d) and with g (e): it matters only if it is taken, or missed. */
  predicate NextElementMatters(d: Decoded, e: Decoded, f: Option<string>, g: Option<string>) {
    if d.event.message == MissingArgument then
      f.None? && d.used == 1 && (g.Some? ==> e.used == 2 && e.event.message == Quiet)
    else d.used < 2 ==> e == d
  }

  lemma ShortAndNextElement(cfg: Config, next: string, f: Option<string>, g: Option<string>)
    requires next != ""
    ensures NextElementMatters(DecodeShort(cfg, next, f), DecodeShort(cfg, next, g), f, g)
  {
    hide PrefixBefore;
  }

  lemma LongAndNextElement(cfg: Config, p: LongOption, k: nat, argument: Option<string>, f: Option<string>,
                           g: Option<string>)
    ensures NextElementMatters(DecodeLong(cfg, p, k, argument, f), DecodeLong(cfg, p, k, argument, g), f, g)
  {
  }

  lemma DecodeAndNextElement(cfg: Config, cur: string, next: string, f: Option<string>, g: Option<string>)
    requires !IsNonOption(cur) && next != ""
    ensures NextElementMatters(Decode(cfg, cur, next, f), Decode(cfg, cur, next, g), f, g)
  {
    hide DecodeShort, DecodeLong, PrefixBefore, MatchLong;
    ShortAndNextElement(cfg, next, f, g);
    if cfg.longopts.Some? {
      var n := PrefixBefore(next, '=');
      var m := MatchLong(cfg.longopts.value, next[..n]);
      if m.Unique? {
        var argument := if n < |next| then Some(next[n + 1..]) else None;
        LongAndNextElement(cfg, cfg.longopts.value[m.index], m.index, argument, f, g);
      }
    }
  }

  /** The two lists of reports differ at a position both have. */
  predicate Differ(a: seq<Event>, b: seq<Event>) {
    exists i :: 0 <= i < |a| && i < |b| && a[i] != b[i]
  }

  lemma SameFirstReport(event: Event, a: seq<Event>, b: seq<Event>)
    ensures ReportsMissing([event] + a) <==> event.message == MissingArgument || ReportsMissing(a)
    ensures Differ(a, b) ==> Differ([event] + a, [event] + b)
  {
    MissingInParts([event], a);
    assert ReportsMissing([event]) <==> [event][0].message == MissingArgument;
    if Differ(a, b) {
      var i :| 0 <= i < |a| && i < |b| && a[i] != b[i];
      assert ([event] + a)[i + 1] == a[i] && ([event] + b)[i + 1] == b[i];
    }
  }

  lemma OneReport(event: Event, other: Event)
    ensures ReportsMissing([event]) <==> event.message == MissingArgument
    ensures event != other ==> Differ([event], [other])
  {
    assert [event][0] == event && [other][0] == other;
  }

  lemma {:induction false} ElementAndNextElement(cfg: Config, cur: string, next: string, f: Option<string>,
                                                 g: Option<string>)
    requires !IsNonOption(cur) && next != ""
    ensures var d, e := ReadElement(cfg, cur, next, f), ReadElement(cfg, cur, next, g);
      if ReportsMissing(d.events) then f.None? && d.used == 1 && (g.Some? ==> Differ(d.events, e.events))
      else d.used < 2 ==> e == d
    decreases |next|
  {
    hide Decode, ReportsMissing, Differ;
    DecodeAndNextElement(cfg, cur, next, f, g);
    var c := Decode(cfg, cur, next, f);
    if c.used == 0 {
      ElementAndNextElement(cfg, cur, c.next, f, g);
      SameFirstReport(c.event, ReadElement(cfg, cur, c.next, f).events, ReadElement(cfg, cur, c.next, g).events);
    } else {
      OneReport(c.event, Decode(cfg, cur, next, g).event);
    }
  }

  lemma DifferAtOnce(a: seq<Event>, b: seq<Event>, s: seq<Event>, t: seq<Event>)
    requires Differ(a, b)
    ensures a + s != b + t
  {
    var i :| 0 <= i < |a| && i < |b| && a[i] != b[i];
    assert (a + s)[i] == a[i] && (b + t)[i] == b[i];
  }

  lemma MissingInParts(a: seq<Event>, b: seq<Event>)
    ensures ReportsMissing(a + b) <==> ReportsMissing(a) || ReportsMissing(b)
  {
    assert forall i :: 0 <= i < |a| ==> (a + b)[i] == a[i];
    assert forall i :: 0 <= i < |b| ==> (a + b)[|a| + i] == b[i];
  }

  /** In front of tail, the options of a PERMUTE reading are read as before, or else an option that missed its
      argument finds one. */
  ghost predicate ReadsAgain(cfg: Config, args: seq<string>, tail: seq<string>) {
    var p := Reference(cfg, Permute, args);
    var q := Reference(cfg, RequireOrder, p.opts + tail);
    if ReportsMissing(p.events) && tail != [] then q.events != p.events
    else q == p.(rest := tail)
  }

  /** Reading the options back in order, with tail after them. */
  lemma {:induction false} ReadingAgain(cfg: Config, args: seq<string>, tail: seq<string>)
    requires tail == [] || IsNonOption(tail[0]) || Reference(cfg, Permute, args).ended
    ensures ReadsAgain(cfg, args, tail)
    decreases |args|
  {
    var p := Reference(cfg, Permute, args);
    var again := p.opts + tail;
    if args == [] {
      assert again == tail;
    } else if args[0] == "--" {
      assert again[1..] == tail;
    } else if IsNonOption(args[0]) {
      ReadingAgain(cfg, args[1..], tail);
    } else {
      ElementAgain(cfg, args, tail);
    }
  }

  /** The first element is the last one and missed its argument: with a tail, the rescan takes the tail's first
      element. */
  lemma MissedAgain(cfg: Config, args: seq<string>, tail: seq<string>)
    requires args != [] && args[0] != "--" && !IsNonOption(args[0])
    requires tail == [] || IsNonOption(tail[0]) || Reference(cfg, Permute, args).ended
    requires ReportsMissing(ReadElement(cfg, args[0], ElementText(cfg, args[0]), Following(args, 0)).events)
    ensures ReadsAgain(cfg, args, tail)
  {
    hide ReadElement, Reference, ReportsMissing, Differ;
    var e, p' := ElementFirst(cfg, Permute, args);
    NothingToRead(cfg);
    ElementAndNextElement(cfg, args[0], ElementText(cfg, args[0]), Following(args, 0), Following(args + tail, 0));
    assert args[1..] == [] && args[..1] == args && args + [] == args;
    var e', q' := ElementFirst(cfg, RequireOrder, args + tail);
    MissingInParts(e.events, p'.events);
    if tail != [] {
      assert (args + tail)[1] == tail[0];
      DifferAtOnce(e.events, e'.events, p'.events, q'.events);
    } else {
      assert args + tail == args;
    }
  }

  /** The first element needs nothing that is not there: the rescan reads it alike and goes on. */
  lemma ReadAgain(cfg: Config, args: seq<string>, tail: seq<string>)
    requires args != [] && args[0] != "--" && !IsNonOption(args[0])
    requires var e := ReadElement(cfg, args[0], ElementText(cfg, args[0]), Following(args, 0));
      !ReportsMissing(e.events) && e.used <= |args| && ReadsAgain(cfg, args[e.used..], tail)
    ensures ReadsAgain(cfg, args, tail)
  {
    hide ReadElement, Reference, ReportsMissing, Differ;
    var e, p' := ElementFirst(cfg, Permute, args);
    var again := args[..e.used] + p'.opts + tail;
    assert again[0] == args[0] && (e.used == 2 ==> again[1] == args[1]);
    ElementAndNextElement(cfg, args[0], ElementText(cfg, args[0]), Following(args, 0), Following(again, 0));
    var e', q' := ElementFirst(cfg, RequireOrder, again);
    MissingInParts(e.events, p'.events);
    assert e' == e;
    assert again[e.used..] == p'.opts + tail && again[..e.used] == args[..e.used];
    SameFront(e.events, p'.events, q'.events);
  }

  lemma SameFront<T>(a: seq<T>, b: seq<T>, c: seq<T>)
    ensures a + b == a + c <==> b == c
  {
    if a + b == a + c { assert b == (a + b)[|a|..] && c == (a + c)[|a|..]; }
  }

  lemma {:induction false} ElementAgain(cfg: Config, args: seq<string>, tail: seq<string>)
    requires tail == [] || IsNonOption(tail[0]) || Reference(cfg, Permute, args).ended
    requires args != [] && args[0] != "--" && !IsNonOption(args[0])
    ensures ReadsAgain(cfg, args, tail)
    decreases |args|, 0
  {
    hide ReadElement, Reference, ReportsMissing, ReadsAgain;
    var e, p' := ElementFirst(cfg, Permute, args);
    if ReportsMissing(e.events) {
      MissedAgain(cfg, args, tail);
    } else {
      ReadingAgain(cfg, args[e.used..], tail);
      ReadAgain(cfg, args, tail);
    }
  }

  lemma NothingToRead(cfg: Config)
    ensures forall o :: Reference(cfg, o, []) == Reading([], [], [], false)
  {
  }

  /**
   Rescan equivalence. Scanning the permuted argv with POSIXLY_CORRECT set gives the same reports and
   the same optind exactly when it is not the case that an option missed its argument while there
   were arguments left over to be taken for it.
   */
  lemma RescanAgrees(cfg: Config, argv: seq<string>)
    requires |argv| >= 1 && Unmarked(cfg)
    ensures var r := RunAll(cfg, false, argv);
      |r.final.argv| == |argv| &&
      var q := RunAll(cfg, true, r.final.argv);
      && q.final.argv == r.final.argv
      && (q.events == r.events && q.final.optind == r.final.optind
          <==> !(ReportsMissing(r.events) && r.final.optind < |argv|))
  {
    hide RunAll, Reference;
    var r := RunAll(cfg, false, argv);
    WholeRun(cfg, false, argv);
    var p := Reference(cfg, Permute, argv[1..]);
    var marks := ReferenceIsStablePartition(cfg, argv[1..]);
    SelectLengths(argv[1..], marks);
    WholeRun(cfg, true, r.final.argv);
    assert r.final.argv[1..] == p.opts + p.rest;
    ReadingAgain(cfg, argv[1..], p.rest);
    OtherOrderingsReadInPlace(cfg, RequireOrder, p.opts + p.rest);
    var q := Reference(cfg, RequireOrder, p.opts + p.rest);
    assert [argv[0]] + q.opts + q.rest == [argv[0]] + (p.opts + p.rest);
  }

  lemma SelectLengths<T>(s: seq<T>, marks: seq<bool>)
    requires |marks| == |s|
    ensures |Select(s, marks, true)| + |Select(s, marks, false)| == |s|
  {
  }

  /** The exception is real: "-o" wants an argument, misses it, and the rescan gives it the file name. */
  lemma RescanCanDiffer()
    ensures var cfg := Config("o:", None, false);
      var r := RunAll(cfg, false, ["prog", "file", "-o"]);
      && r.final.argv == ["prog", "-o", "file"]
      && r.events == [Complaint('?' as int, MissingArgument, Some('o'))]
      && RunAll(cfg, true, r.final.argv).events == [Plain('o' as int, Some("file"))]
  {
    hide RunAll, Reference;
    var cfg := Config("o:", None, false);
    WholeRun(cfg, false, ["prog", "file", "-o"]);
    WholeRun(cfg, true, ["prog", "-o", "file"]);
    ReadsFileFirst();
    ReadsOptionFirst();
    assert ["prog", "file", "-o"][1..] == ["file", "-o"];
    assert ["prog", "-o", "file"][1..] == ["-o", "file"];
  }

  lemma ReadsFileFirst()
    ensures Reference(Config("o:", None, false), Permute, ["file", "-o"])
         == Reading(["-o"], ["file"], [Complaint('?' as int, MissingArgument, Some('o'))], false)
  {
    hide ReadElement, AfterElement;
    var cfg := Config("o:", None, false);
    DecodeAlone(None);
    assert ["file", "-o"][1..] == ["-o"] && ["-o"][1..] == [];
    var e, p := ElementFirst(cfg, Permute, ["-o"]);
  }

  lemma ReadsOptionFirst()
    ensures Reference(Config("o:", None, false), RequireOrder, ["-o", "file"])
         == Reading(["-o", "file"], [], [Plain('o' as int, Some("file"))], false)
  {
    hide ReadElement, AfterElement;
    DecodeAlone(Some("file"));
    assert ["-o", "file"][2..] == [];
    var e, p := ElementFirst(Config("o:", None, false), RequireOrder, ["-o", "file"]);
  }

  lemma DecodeAlone(f: Option<string>)
    ensures var cfg := Config("o:", None, false);
      ElementText(cfg, "-o") == "o" &&
      ReadElement(cfg, "-o", "o", f) ==
        if f.None? then Element([Complaint('?' as int, MissingArgument, Some('o'))], 1)
        else Element([Plain('o' as int, f)], 2)
  {
    var cfg := Config("o:", None, false);
    assert "-o"[1..] == "o" && "o"[1..] == "" && "o:"[1..] == ":";
    assert PrefixBefore("o:", 'o') == 0;
  }

  // ---------------------------------------------------------------- the caller's loop

  /** A call in the middle of a run. */
  lemma NextCall(cfg: Config, posixlyCorrect: bool, st: State)
    requires Ready(st)
    ensures var call := Step(cfg, st);
      && Call(cfg, posixlyCorrect, st) == call
      && (call.0.None? ==> Run(cfg, st) == Outcome([], call.1))
      && (call.0.Some? ==>
            && Ready(call.1) && Unread(call.1) < Unread(st)
            && Run(cfg, st) == Outcome([call.0.value] + Run(cfg, call.1).events, Run(cfg, call.1).final))
  {
    hide Step, Unread;
    CallsMakeProgress(cfg, st);
  }

  /** while ((c = getopt (...)) != EOF), collecting the reports. */
  method ScanAll(argv: array<string>, cfg: Config, posixlyCorrect: bool) returns (events: seq<Event>, optind: nat)
    requires argv.Length >= 1
    modifies argv
    ensures var r := RunAll(cfg, posixlyCorrect, old(argv[..]));
      events == r.events && argv[..] == r.final.argv && optind == r.final.optind
    ensures Unmarked(cfg) && !posixlyCorrect ==>
      var p := Reference(cfg, Permute, old(argv[1..]));
      events == p.events && argv[..] == [old(argv[0])] + p.opts + p.rest && optind == 1 + |p.opts|
  {
    hide Step, Begin, Reference, Unread, Ready, Run;
    ghost var goal := RunAll(cfg, posixlyCorrect, argv[..]);
    if Unmarked(cfg) { WholeRun(cfg, posixlyCorrect, argv[..]); }
    CallsMakeProgress(FirstCallConfig(cfg), Begin(cfg, posixlyCorrect, argv[..]));
    var scanner := new Scanner();
    events := [];
    var r := scanner.GetoptInternal(argv, cfg, posixlyCorrect);
    while r.Some?
      invariant fresh(scanner)
      invariant r.None? ==> goal == Outcome(events, scanner.Now(argv))
      invariant r.Some? ==> Ready(scanner.Now(argv))
      invariant r.Some? ==>
        var rest := Run(cfg, scanner.Now(argv));
        goal.events == events + [r.value] + rest.events && goal.final == rest.final
      decreases if r.Some? then 1 + Unread(scanner.Now(argv)) else 0
    {
      events := events + [r.value];
      NextCall(cfg, posixlyCorrect, scanner.Now(argv));
      r := scanner.GetoptInternal(argv, cfg, posixlyCorrect);
    }
    optind := scanner.optind;
  }

  /**
   An order mark is skipped in optstring by the first call alone: a short option spelled like the mark
   is refused there (unless listed again), and accepted by every later call.
   */
  lemma OrderMarkIsAnOptionLater(cfg: Config, text: string, following: Option<string>)
    requires !Unmarked(cfg)
    ensures var mark := cfg.optstring[0];
      && (DecodeShort(FirstCallConfig(cfg), [mark] + text, following).event.message == IllegalChar
          <==> mark !in cfg.optstring[1..])
      && DecodeShort(cfg, [mark] + text, following).event.message != IllegalChar
  {
    var mark := cfg.optstring[0];
    var at := PrefixBefore(cfg.optstring[1..], mark);
    assert at == |cfg.optstring[1..]| ==> cfg.optstring[1..][..at] == cfg.optstring[1..];
    assert ([mark] + text)[0] == mark;
  }
}
