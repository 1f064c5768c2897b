/**
 The argument scanner of msvc/getopt.c.

 Strings stand for C strings without their terminator. `nextchar` is the text still to be
 read in the current element: it is "" both for the null pointer and for a pointer to a
 terminator, which the source treats alike. One call reports an Event; None is EOF.
 */
module Getopt {
  import opened Common

  // ---------------------------------------------------------------- data

  datatype Ordering = RequireOrder | Permute | ReturnInOrder

  /** struct option; `flag` names the variable the pointer refers to, None for a null pointer. */
  datatype LongOption = LongOption(name: string, hasArg: int, flag: Option<nat>, val: int)

  datatype Config = Config(optstring: string, longopts: Option<seq<LongOption>>, longOnly: bool)

  /** The message a call prints when opterr is set. */
  datatype Diagnostic = Quiet | AmbiguousName | ArgumentNotAllowed | MissingArgument | UnknownName | IllegalChar

  /** Everything one call reports: the result, optarg, and the values stored through pointers. */
  datatype Event = Event(
    code: int,
    optarg: Option<string>,
    message: Diagnostic,
    optopt: Option<char>,
    longind: Option<nat>,
    stored: Option<(nat, int)>)

  datatype State = State(argv: seq<string>, optind: nat, nextchar: string, first: nat, last: nat, ordering: Ordering)

  const NON_OPTION_CODE := 1

  function Plain(code: int, optarg: Option<string>): Event {
    Event(code, optarg, Quiet, None, None, None)
  }

  function Complaint(code: int, message: Diagnostic, optopt: Option<char>): Event {
    Event(code, None, message, optopt, None, None)
  }

  // ---------------------------------------------------------------- one element

  predicate IsNonOption(s: string) {
    |s| < 2 || s[0] != '-'
  }

  /** Where scanning of an option element starts: after "-", or after "--" when there are long options. */
  function ElementText(cfg: Config, cur: string): (text: string)
    requires !IsNonOption(cur) && cur != "--"
    ensures 0 < |text| < |cur|
  {
    if cfg.longopts.Some? && cur[1] == '-' then cur[2..] else cur[1..]
  }

  datatype Match = NoMatch | Ambiguous | Unique(index: nat)

  /** Number of option names that the key abbreviates. */
  function AbbreviationCount(opts: seq<LongOption>, key: string): (n: nat)
    ensures n > 0 <==> exists j :: 0 <= j < |opts| && key <= opts[j].name
  {
    if opts == [] then 0
    else AbbreviationCount(opts[..|opts| - 1], key) + if key <= opts[|opts| - 1].name then 1 else 0
  }

  /** First option in the vector whose name satisfies the test, or the vector's length. */
  function FirstName(opts: seq<LongOption>, test: string -> bool): (k: nat)
    ensures k <= |opts|
    ensures forall j :: 0 <= j < k ==> !test(opts[j].name)
    ensures k < |opts| ==> test(opts[k].name)
  {
    if opts == [] || test(opts[0].name) then 0 else 1 + FirstName(opts[1..], test)
  }

  /** The documented rule: an exact name wins; otherwise an abbreviation must be unique. */
  function MatchLong(opts: seq<LongOption>, key: string): (m: Match)
    ensures m.Unique? ==> m.index < |opts| && key <= opts[m.index].name
  {
    var exact := FirstName(opts, name => name == key);
    if exact < |opts| then Unique(exact)
    else if AbbreviationCount(opts, key) > 1 then Ambiguous
    else if AbbreviationCount(opts, key) == 1 then Unique(FirstName(opts, name => key <= name))
    else NoMatch
  }

  /** What one call makes of the text at nextchar: its report, the text left, and how far optind moves. */
  datatype Decoded = Decoded(event: Event, next: string, used: nat)

  function DecodeLong(cfg: Config, p: LongOption, index: nat, argument: Option<string>,
                      following: Option<string>): (d: Decoded)
    ensures d.next == "" && 1 <= d.used <= 2 && (d.used == 2 ==> following.Some?)
  {
    var code := if p.flag.Some? then 0 else p.val;
    var stored := if p.flag.Some? then Some((p.flag.value, p.val)) else None;
    if argument.Some? then
      if p.hasArg != 0 then Decoded(Event(code, argument, Quiet, None, Some(index), stored), "", 1)
      else Decoded(Complaint('?' as int, ArgumentNotAllowed, None), "", 1)
    else if p.hasArg == 1 then
      if following.Some? then Decoded(Event(code, following, Quiet, None, Some(index), stored), "", 2)
      else Decoded(Complaint(MissingCode(cfg), MissingArgument, None), "", 1)
    else Decoded(Event(code, None, Quiet, None, Some(index), stored), "", 1)
  }

  function MissingCode(cfg: Config): int {
    if cfg.optstring != "" && cfg.optstring[0] == ':' then ':' as int else '?' as int
  }

  function DecodeShort(cfg: Config, next: string, following: Option<string>): (d: Decoded)
    requires next != ""
    ensures d.used <= 2 && (d.used == 0 <==> d.next != "") && |d.next| < |next|
    ensures d.used == 2 ==> following.Some?
  {
    var c := next[0];
    var left := next[1..];
    var step := if left == "" then 1 else 0;
    var at := PrefixBefore(cfg.optstring, c);
    if at == |cfg.optstring| || c == ':' then Decoded(Complaint('?' as int, IllegalChar, Some(c)), left, step)
    else
      var spec := cfg.optstring[at + 1..];
      if spec != "" && spec[0] == ':' then
        if left != "" then Decoded(Plain(c as int, Some(left)), "", 1)
        else if |spec| > 1 && spec[1] == ':' then Decoded(Plain(c as int, None), "", 1)
        else if following.None? then Decoded(Complaint(MissingCode(cfg), MissingArgument, Some(c)), "", 1)
        else Decoded(Plain(c as int, following), "", 2)
      else Decoded(Plain(c as int, None), left, step)
  }

  function Decode(cfg: Config, cur: string, next: string, following: Option<string>): (d: Decoded)
    requires !IsNonOption(cur) && next != ""
    ensures d.used <= 2 && (d.used == 0 <==> d.next != "") && |d.next| < |next|
    ensures d.used == 2 ==> following.Some?
  {
    if cfg.longopts.Some? && (cur[1] == '-' || cfg.longOnly) then
      var n := PrefixBefore(next, '=');
      match MatchLong(cfg.longopts.value, next[..n])
      case Ambiguous => Decoded(Complaint('?' as int, AmbiguousName, None), "", 1)
      case Unique(k) =>
        DecodeLong(cfg, cfg.longopts.value[k], k, if n < |next| then Some(next[n + 1..]) else None, following)
      case NoMatch =>
        if !cfg.longOnly || cur[1] == '-' || next[0] !in cfg.optstring then
          Decoded(Complaint('?' as int, UnknownName, None), "", 1)
        else DecodeShort(cfg, next, following)
    else DecodeShort(cfg, next, following)
  }

  // ---------------------------------------------------------------- one call

  predicate Ready(st: State) {
    && 1 <= st.first <= st.last <= st.optind <= |st.argv|
    && (st.ordering != Permute ==> st.first == st.last)
    && (st.nextchar != "" ==> st.optind < |st.argv| && !IsNonOption(st.argv[st.optind]))
  }

  /** Swap the adjacent blocks [first, last) and [last, top). */
  function Exchanged<T>(s: seq<T>, first: nat, last: nat, top: nat): (r: seq<T>)
    requires first <= last <= top <= |s|
    ensures |r| == |s|
  {
    s[..first] + s[last..top] + s[first..last] + s[top..]
  }

  /** Index of the first element at or after i that is not a plain argument. */
  function SkipNonOptions(argv: seq<string>, i: nat): (k: nat)
    requires i <= |argv|
    ensures i <= k <= |argv|
    ensures forall j :: i <= j < k ==> IsNonOption(argv[j])
    ensures k < |argv| ==> !IsNonOption(argv[k])
    decreases |argv| - i
  {
    if i < |argv| && IsNonOption(argv[i]) then SkipNonOptions(argv, i + 1) else i
  }

  /** Bring options read since the last skipped arguments in front of those arguments. Every branch
      may set `last`, because the skipping that follows sets it again. */
  function Gather(st: State): (r: State)
    requires st.first <= st.last <= st.optind <= |st.argv|
    ensures |r.argv| == |st.argv| && r.argv[st.optind..] == st.argv[st.optind..]
    ensures r.optind == st.optind && r.nextchar == st.nextchar && r.ordering == st.ordering
    ensures st.first <= r.first <= r.last == st.optind
  {
    if st.first != st.last && st.last != st.optind then
      st.(argv := Exchanged(st.argv, st.first, st.last, st.optind),
          first := st.first + (st.optind - st.last), last := st.optind)
    else if st.last != st.optind then st.(first := st.optind, last := st.optind)
    else st
  }

  function SkipAhead(st: State): (r: State)
    requires st.first <= st.last <= st.optind <= |st.argv|
    ensures |r.argv| == |st.argv| && r.nextchar == st.nextchar && r.ordering == st.ordering
    ensures st.first <= r.first <= r.last == r.optind <= |r.argv| && st.optind <= r.optind
    ensures r.optind < |r.argv| ==> !IsNonOption(r.argv[r.optind])
    ensures r.argv[st.optind..] == st.argv[st.optind..]
  {
    var g := Gather(st);
    var k := SkipNonOptions(g.argv, g.optind);
    g.(optind := k, last := k)
  }

  /** The state at EOF: optind backs up to the arguments that were skipped. */
  function BackUp(st: State): State {
    if st.first != st.last then st.(optind := st.first) else st
  }

  /** The state after the element "--". */
  function Terminate(st: State): State
    requires st.first <= st.last <= st.optind < |st.argv|
  {
    var s := st.(optind := st.optind + 1);
    var e :=
      if s.first != s.last && s.last != s.optind then
        s.(argv := Exchanged(s.argv, s.first, s.last, s.optind), first := s.first + (s.optind - s.last))
      else if s.first == s.last then s.(first := s.optind)
      else s;
    BackUp(e.(last := |st.argv|, optind := |st.argv|))
  }

  function Following(argv: seq<string>, i: nat): Option<string> {
    if i + 1 < |argv| then Some(argv[i + 1]) else None
  }

  function DecodeStep(cfg: Config, st: State): (Option<Event>, State)
    requires Ready(st) && st.nextchar != ""
  {
    var d := Decode(cfg, st.argv[st.optind], st.nextchar, Following(st.argv, st.optind));
    (Some(d.event), st.(nextchar := d.next, optind := st.optind + d.used))
  }

  /** The rest of a call that starts a new element. */
  function ElementStep(cfg: Config, st: State): (r: (Option<Event>, State))
    requires Ready(st) && st.nextchar == ""
    ensures |r.1.argv| == |st.argv| && r.1.ordering == st.ordering
  {
    if st.optind == |st.argv| then (None, BackUp(st))
    else if st.argv[st.optind] == "--" then (None, Terminate(st))
    else if IsNonOption(st.argv[st.optind]) then
      if st.ordering == RequireOrder then (None, st)
      else (Some(Plain(NON_OPTION_CODE, Some(st.argv[st.optind]))), st.(optind := st.optind + 1))
    else DecodeStep(cfg, st.(nextchar := ElementText(cfg, st.argv[st.optind])))
  }

  /** One call of _getopt_internal after initialisation. */
  function Step(cfg: Config, st: State): (r: (Option<Event>, State))
    requires Ready(st)
    ensures |r.1.argv| == |st.argv| && r.1.ordering == st.ordering
  {
    if st.nextchar != "" then DecodeStep(cfg, st)
    else ElementStep(cfg, if st.ordering == Permute then SkipAhead(st) else st)
  }

  function OrderingFor(cfg: Config, posixlyCorrect: bool): Ordering {
    if cfg.optstring != "" && cfg.optstring[0] == '-' then ReturnInOrder
    else if (cfg.optstring != "" && cfg.optstring[0] == '+') || posixlyCorrect then RequireOrder
    else Permute
  }

  /** The state set up by the first call (optind 0). */
  function Begin(cfg: Config, posixlyCorrect: bool, argv: seq<string>): (st: State)
    requires |argv| >= 1
    ensures Ready(st)
  {
    State(argv, 1, "", 1, 1, OrderingFor(cfg, posixlyCorrect))
  }

  /** Only the first call steps over a leading '-' or '+' of optstring. */
  function FirstCallConfig(cfg: Config): Config {
    if cfg.optstring != "" && cfg.optstring[0] in {'-', '+'} then cfg.(optstring := cfg.optstring[1..]) else cfg
  }

  function Call(cfg: Config, posixlyCorrect: bool, st: State): (Option<Event>, State)
    requires |st.argv| >= 1
    requires st.optind == 0 || Ready(st)
  {
    if st.optind == 0 then Step(FirstCallConfig(cfg), Begin(cfg, posixlyCorrect, st.argv)) else Step(cfg, st)
  }
}
