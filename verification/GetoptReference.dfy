/**
 What whole runs of the scanner do, stated against a reference reading that never moves an
 element: Reference splits a list of arguments into options and the rest in one pass.
 */
module GetoptReference {
  import opened Common
  import opened Getopt

  // ---------------------------------------------------------------- the reference reading

  /** The reports of one option element, read to its end, and how many elements it takes. */
  datatype Element = Element(events: seq<Event>, used: nat)

  function ReadElement(cfg: Config, cur: string, next: string, following: Option<string>): (e: Element)
    requires !IsNonOption(cur) && next != ""
    ensures 1 <= e.used <= 2 && (e.used == 2 ==> following.Some?)
    decreases |next|
  {
    var d := Decode(cfg, cur, next, following);
    if d.used > 0 then Element([d.event], d.used)
    else
      var e := ReadElement(cfg, cur, d.next, following);
      Element([d.event] + e.events, e.used)
  }

  /** `ended` says that "--" ended the options. */
  datatype Reading = Reading(opts: seq<string>, rest: seq<string>, events: seq<Event>, ended: bool)

  /** One pass over the arguments: options with their arguments and "--" on one side, plain arguments on the other. */
  function Reference(cfg: Config, ordering: Ordering, args: seq<string>): Reading
    decreases |args|, 0
  {
    if args == [] then Reading([], [], [], false)
    else if args[0] == "--" then Reading(["--"], args[1..], [], true)
    else if IsNonOption(args[0]) then
      match ordering
      case RequireOrder => Reading([], args, [], false)
      case Permute =>
        var p := Reference(cfg, ordering, args[1..]);
        p.(rest := [args[0]] + p.rest)
      case ReturnInOrder =>
        var p := Reference(cfg, ordering, args[1..]);
        p.(opts := [args[0]] + p.opts, events := [Plain(NON_OPTION_CODE, Some(args[0]))] + p.events)
    else AfterElement(cfg, ordering, ElementText(cfg, args[0]), args)
  }

  function AfterElement(cfg: Config, ordering: Ordering, next: string, args: seq<string>): Reading
    requires args != [] && !IsNonOption(args[0]) && next != ""
    decreases |args| - 1, 1
  {
    var e := ReadElement(cfg, args[0], next, Following(args, 0));
    var p := Reference(cfg, ordering, args[e.used..]);
    Reading(args[..e.used] + p.opts, p.rest, e.events + p.events, p.ended)
  }

  /** The reading still to come when `next` is left of the first element. */
  function Pending(cfg: Config, ordering: Ordering, next: string, args: seq<string>): Reading
    requires next != "" ==> args != [] && !IsNonOption(args[0])
  {
    if next == "" then Reference(cfg, ordering, args) else AfterElement(cfg, ordering, next, args)
  }

  // ---------------------------------------------------------------- runs terminate

  function Chars(args: seq<string>): nat {
    if args == [] then 0 else |args[0]| + 1 + Chars(args[1..])
  }

  /** Unread characters, counting each element's terminator. */
  function Unread(st: State): nat
    requires Ready(st)
  {
    if st.nextchar == "" then Chars(st.argv[st.optind..]) else |st.nextchar| + Chars(st.argv[st.optind + 1..])
  }

  lemma CharsOfSuffix(args: seq<string>, i: nat, j: nat)
    requires i <= j <= |args|
    ensures Chars(args[i..]) >= Chars(args[j..]) + (j - i)
    decreases j - i
  {
    if i < j {
      assert args[i..][1..] == args[i + 1..];
      CharsOfSuffix(args, i + 1, j);
    }
  }

  lemma DecodeShrinks(cfg: Config, st: State)
    requires Ready(st) && st.nextchar != ""
    ensures var r := DecodeStep(cfg, st).1; Ready(r) && Unread(r) < Unread(st)
  {
    hide DecodeShort, DecodeLong, MatchLong, PrefixBefore;
    var r := DecodeStep(cfg, st).1;
    if r.optind > st.optind { CharsOfSuffix(st.argv, st.optind + 1, r.optind); }
  }

  lemma ElementMakesProgress(cfg: Config, st: State)
    requires Ready(st) && st.nextchar == ""
    ensures var (e, next) := ElementStep(cfg, st); e.Some? ==> Ready(next) && Unread(next) < Unread(st)
  {
    hide Decode;
    if st.optind < |st.argv| {
      assert st.argv[st.optind..][1..] == st.argv[st.optind + 1..];
      if !IsNonOption(st.argv[st.optind]) && st.argv[st.optind] != "--" {
        DecodeShrinks(cfg, st.(nextchar := ElementText(cfg, st.argv[st.optind])));
      }
    }
  }

  lemma SkippingReadsNothingBack(st: State)
    requires st.first <= st.last <= st.optind <= |st.argv|
    ensures var s := SkipAhead(st);
      s.argv[s.optind..] == st.argv[s.optind..] && Chars(s.argv[s.optind..]) <= Chars(st.argv[st.optind..])
  {
    var s := SkipAhead(st);
    var k := s.optind - st.optind;
    assert s.argv[st.optind..][k..] == s.argv[s.optind..];
    assert st.argv[st.optind..][k..] == st.argv[s.optind..];
    CharsOfSuffix(st.argv, st.optind, s.optind);
  }

  /** Every call that is not EOF leaves the scanner ready and strictly shrinks the unread text. */
  lemma CallsMakeProgress(cfg: Config, st: State)
    requires Ready(st)
    ensures var (e, next) := Step(cfg, st); e.Some? ==> Ready(next) && Unread(next) < Unread(st)
  {
    hide Decode, ElementStep, DecodeStep, SkipAhead, Chars;
    if st.nextchar != "" {
      DecodeShrinks(cfg, st);
    } else if st.ordering == Permute {
      SkippingReadsNothingBack(st);
      ElementMakesProgress(cfg, SkipAhead(st));
    } else {
      ElementMakesProgress(cfg, st);
    }
  }

  datatype Outcome = Outcome(events: seq<Event>, final: State)

  /** One call followed by the rest of a run; EOF ends the run. */
  function Before(call: (Option<Event>, State), tail: Outcome): Outcome {
    if call.0.None? then Outcome([], call.1) else Outcome([call.0.value] + tail.events, tail.final)
  }

  /** The caller's loop: call until EOF. */
  function Run(cfg: Config, st: State): Outcome
    requires Ready(st)
    decreases Unread(st)
  {
    CallsMakeProgress(cfg, st);
    var call := Step(cfg, st);
    if call.0.None? then Outcome([], call.1) else Before(call, Run(cfg, call.1))
  }

  // ---------------------------------------------------------------- runs meet the reference

  /** argv at EOF: what was in place, the options read so far and to come, the skipped arguments, the rest. */
  function Layout(st: State, p: Reading): seq<string>
    requires st.first <= st.last <= st.optind <= |st.argv|
  {
    st.argv[..st.first] + st.argv[st.last..st.optind] + p.opts + st.argv[st.first..st.last] + p.rest
  }

  ghost predicate Meets(r: Outcome, st: State, p: Reading)
    requires st.first <= st.last <= st.optind <= |st.argv|
  {
    && r.events == p.events
    && r.final.argv == Layout(st, p)
    && r.final.optind == st.first + (st.optind - st.last) + |p.opts|
  }

  lemma {:induction false} SkippedAreReadAsRest(cfg: Config, args: seq<string>, k: nat)
    requires k <= |args| && forall j :: 0 <= j < k ==> IsNonOption(args[j])
    ensures var p := Reference(cfg, Permute, args[k..]);
      Reference(cfg, Permute, args) == p.(rest := args[..k] + p.rest)
  {
    hide AfterElement;
    var p := Reference(cfg, Permute, args[k..]);
    if k == 0 {
      assert args[0..] == args && args[..0] + p.rest == p.rest;
    } else {
      SkippedAreReadAsRest(cfg, args[1..], k - 1);
      assert args[1..][k - 1..] == args[k..];
      assert [args[0]] + (args[1..][..k - 1] + p.rest) == args[..k] + p.rest;
    }
  }

  /** Gathering does not change the layout to come. */
  lemma GatherKeepsLayout(st: State, p: Reading)
    requires st.first <= st.last <= st.optind <= |st.argv|
    ensures var g := Gather(st);
      Layout(g, p) == Layout(st, p) && g.first + (g.optind - g.last) == st.first + (st.optind - st.last)
  {
    var g := Gather(st);
    if st.first != st.last && st.last != st.optind {
      assert g.argv[..g.first] == st.argv[..st.first] + st.argv[st.last..st.optind];
      assert g.argv[g.first..g.last] == st.argv[st.first..st.last];
      assert g.argv[g.last..g.optind] == [];
    } else if st.last != st.optind {
      assert st.argv[..st.optind] == st.argv[..st.first] + st.argv[st.last..st.optind];
    }
  }

  lemma LongerSkippedBlock(g: State, k: nat, q: Reading)
    requires g.first <= g.last == g.optind <= k <= |g.argv|
    ensures Layout(g.(optind := k, last := k), q) == Layout(g, q.(rest := g.argv[g.optind..k] + q.rest))
  {
    var s := g.(optind := k, last := k);
    assert s.argv[s.first..s.last] == g.argv[g.first..g.last] + g.argv[g.optind..k];
    assert g.argv[g.last..g.optind] == [] && s.argv[s.last..s.optind] == [];
  }

  /** Skipping plain arguments moves them from the reading's rest to the skipped block. */
  lemma SkipAheadKeepsLayout(cfg: Config, st: State)
    requires st.first <= st.last <= st.optind <= |st.argv|
    ensures var s := SkipAhead(st);
      var p := Reference(cfg, Permute, st.argv[st.optind..]);
      var q := Reference(cfg, Permute, s.argv[s.optind..]);
      && s.first <= s.last == s.optind <= |s.argv| && |s.argv| == |st.argv| && s.nextchar == st.nextchar
      && q.events == p.events && |q.opts| == |p.opts| && Layout(s, q) == Layout(st, p)
      && s.first == st.first + (st.optind - st.last)
  {
    hide Reference, Gather, Layout, SkipNonOptions;
    var g := Gather(st);
    var s := SkipAhead(st);
    var args := g.argv[g.optind..];
    var k := s.optind - g.optind;
    assert args[k..] == s.argv[s.optind..] && args[..k] == g.argv[g.optind..s.optind];
    SkippedAreReadAsRest(cfg, args, k);
    GatherKeepsLayout(st, Reference(cfg, Permute, args));
    LongerSkippedBlock(g, s.optind, Reference(cfg, Permute, args[k..]));
  }

  /** At the end of the arguments, or at an argument REQUIRE_ORDER stops at. */
  lemma StopMeets(st: State, stop: State)
    requires st.first <= st.last <= st.optind <= |st.argv|
    requires st.last == st.optind || st.first == st.last
    requires stop.argv == st.argv && stop.optind == st.first + (st.optind - st.last)
    ensures Meets(Outcome([], stop), st, Reading([], st.argv[st.optind..], [], false))
  {
    assert st.argv == st.argv[..st.first] + st.argv[st.first..st.optind] + st.argv[st.optind..];
  }

  lemma TerminateMeets(st: State)
    requires st.first <= st.last <= st.optind < |st.argv| && st.argv[st.optind] == "--"
    requires st.last == st.optind || st.first == st.last
    ensures Meets(Outcome([], Terminate(st)), st, Reading(["--"], st.argv[st.optind + 1..], [], true))
  {
    assert st.argv[st.last..st.optind + 1] == st.argv[st.last..st.optind] + ["--"];
    var a := st.argv;
    assert a == a[..st.first] + a[st.first..st.last] + a[st.last..st.optind + 1] + a[st.optind + 1..];
  }

  /** One more report from an element that is not read to its end. */
  lemma ReportMore(cfg: Config, ordering: Ordering, next: string, args: seq<string>)
    requires args != [] && !IsNonOption(args[0]) && next != ""
    requires Decode(cfg, args[0], next, Following(args, 0)).used == 0
    ensures var d := Decode(cfg, args[0], next, Following(args, 0));
      var q := AfterElement(cfg, ordering, d.next, args);
      AfterElement(cfg, ordering, next, args) == q.(events := [d.event] + q.events)
  {
    hide Decode, Reference;
    var d := Decode(cfg, args[0], next, Following(args, 0));
    var e := ReadElement(cfg, args[0], d.next, Following(args, 0));
    var after := Reference(cfg, ordering, args[e.used..]);
    assert [d.event] + e.events + after.events == [d.event] + (e.events + after.events);
  }

  /** The last report of an element. */
  lemma ReportLast(cfg: Config, ordering: Ordering, next: string, args: seq<string>)
    requires args != [] && !IsNonOption(args[0]) && next != ""
    requires Decode(cfg, args[0], next, Following(args, 0)).used > 0
    ensures var d := Decode(cfg, args[0], next, Following(args, 0));
      var q := Reference(cfg, ordering, args[d.used..]);
      AfterElement(cfg, ordering, next, args) == Reading(args[..d.used] + q.opts, q.rest, [d.event] + q.events, q.ended)
  {
    hide Decode, Reference;
  }

  /** Elements read in place join the options of the layout. */
  lemma ReadInPlaceLayout(st: State, used: nat, q: Reading)
    requires st.first <= st.last <= st.optind && st.optind + used <= |st.argv|
    ensures var p := q.(opts := st.argv[st.optind..][..used] + q.opts);
      Layout(st.(optind := st.optind + used), q) == Layout(st, p)
  {
    var args := st.argv[st.optind..];
    assert st.argv[st.last..st.optind + used] == st.argv[st.last..st.optind] + args[..used];
  }

  lemma LayoutIgnoresReports(st: State, p: Reading, q: Reading)
    requires st.first <= st.last <= st.optind <= |st.argv| && p.opts == q.opts && p.rest == q.rest
    ensures Layout(st, p) == Layout(st, q)
  {
  }

  lemma LayoutIgnoresText(st: State, text: State, p: Reading)
    requires st.first <= st.last <= st.optind <= |st.argv| && text == st.(nextchar := text.nextchar)
    ensures Layout(text, p) == Layout(st, p)
  {
  }

  lemma ElementStepMeets(cfg: Config, st: State, r: Outcome)
    requires Ready(st) && st.nextchar != ""
    requires var next := DecodeStep(cfg, st).1;
      Ready(next) && Meets(r, next, Pending(cfg, next.ordering, next.nextchar, next.argv[next.optind..]))
    ensures Meets(Outcome([DecodeStep(cfg, st).0.value] + r.events, r.final), st,
                  AfterElement(cfg, st.ordering, st.nextchar, st.argv[st.optind..]))
  {
    hide Decode, AfterElement, Reference, Layout;
    var args := st.argv[st.optind..];
    assert Following(args, 0) == Following(st.argv, st.optind);
    var d := Decode(cfg, args[0], st.nextchar, Following(args, 0));
    var next := DecodeStep(cfg, st).1;
    var q := Pending(cfg, next.ordering, next.nextchar, next.argv[next.optind..]);
    var p := AfterElement(cfg, st.ordering, st.nextchar, args);
    if d.used == 0 {
      ReportMore(cfg, st.ordering, st.nextchar, args);
      LayoutIgnoresText(st, next, q);
      LayoutIgnoresReports(st, p, q);
    } else {
      ReportLast(cfg, st.ordering, st.nextchar, args);
      assert args[d.used..] == next.argv[next.optind..];
      var read := st.(optind := next.optind);
      LayoutIgnoresText(read, next, q);
      ReadInPlaceLayout(st, d.used, q);
      LayoutIgnoresReports(st, p, q.(opts := args[..d.used] + q.opts));
    }
  }

  lemma InOrderMeets(cfg: Config, st: State, tail: Outcome)
    requires st.first <= st.last <= st.optind < |st.argv| && IsNonOption(st.argv[st.optind])
    requires Meets(tail, st.(optind := st.optind + 1), Reference(cfg, ReturnInOrder, st.argv[st.optind + 1..]))
    ensures Meets(Outcome([Plain(NON_OPTION_CODE, Some(st.argv[st.optind]))] + tail.events, tail.final), st,
                  Reference(cfg, ReturnInOrder, st.argv[st.optind..]))
  {
    hide AfterElement, Layout;
    var args := st.argv[st.optind..];
    assert args[1..] == st.argv[st.optind + 1..] && args[..1] == [args[0]];
    ReadInPlaceLayout(st, 1, Reference(cfg, ReturnInOrder, args[1..]));
    LayoutIgnoresReports(st, Reference(cfg, ReturnInOrder, args),
      Reference(cfg, ReturnInOrder, args[1..]).(opts := [args[0]] + Reference(cfg, ReturnInOrder, args[1..]).opts));
  }

  /** Reading on from an element, given that the rest of the run (tail) meets its own reading. */
  lemma ElementMeets(cfg: Config, st: State, tail: Outcome)
    requires Ready(st) && st.nextchar == "" && (st.last == st.optind || st.first == st.last)
    requires st.ordering == Permute && st.optind < |st.argv| ==> !IsNonOption(st.argv[st.optind])
    requires var (e, next) := ElementStep(cfg, st);
      e.Some? ==> Ready(next) && Meets(tail, next, Pending(cfg, next.ordering, next.nextchar, next.argv[next.optind..]))
    ensures Meets(Before(ElementStep(cfg, st), tail), st, Reference(cfg, st.ordering, st.argv[st.optind..]))
  {
    hide Decode, AfterElement, Terminate, Layout;
    var args := st.argv[st.optind..];
    var (e, next) := ElementStep(cfg, st);
    if args == [] {
      StopMeets(st, next);
    } else if args[0] == "--" {
      assert args[1..] == st.argv[st.optind + 1..];
      TerminateMeets(st);
    } else if IsNonOption(args[0]) {
      if st.ordering == RequireOrder {
        StopMeets(st, next);
      } else {
        InOrderMeets(cfg, st, tail);
      }
    } else {
      var text := st.(nextchar := ElementText(cfg, args[0]));
      ElementStepMeets(cfg, text, tail);
      LayoutIgnoresText(st, text, Reference(cfg, st.ordering, args));
    }
  }

  /** In every ordering, a run reports what the reference reads and leaves argv as options, then the rest. */
  lemma {:induction false} RunMeetsReference(cfg: Config, st: State)
    requires Ready(st)
    ensures Meets(Run(cfg, st), st, Pending(cfg, st.ordering, st.nextchar, st.argv[st.optind..]))
    decreases Unread(st)
  {
    hide Decode, AfterElement, ElementStep, SkipAhead;
    CallsMakeProgress(cfg, st);
    var (e, next) := Step(cfg, st);
    if e.Some? { RunMeetsReference(cfg, next); }
    var tail := if e.Some? then Run(cfg, next) else Outcome([], next);
    if st.nextchar != "" {
      ElementStepMeets(cfg, st, tail);
    } else if st.ordering == Permute {
      SkipAheadKeepsLayout(cfg, st);
      ElementMeets(cfg, SkipAhead(st), tail);
    } else {
      ElementMeets(cfg, st, tail);
    }
  }
}
