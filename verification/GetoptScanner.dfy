/** The scanner of msvc/getopt.c with its static variables, working in place on argv. */
module GetoptScanner {
  import opened Common
  import opened Getopt

  /** my_index: position of the first c in s, or |s| where the source returns a null pointer. */
  method MyIndex(s: string, c: char) returns (k: nat)
    ensures k == PrefixBefore(s, c)
    ensures k < |s| <==> c in s
  {
    k := 0;
    while k < |s| && s[k] != c
      invariant k <= |s|
      invariant c !in s[..k]
      invariant PrefixBefore(s, c) == k + PrefixBefore(s[k..], c)
    {
      assert s[k..][1..] == s[k + 1..];
      k := k + 1;
    }
    assert c in s ==> k < |s| by { if k == |s| { assert s[..k] == s; } }
  }

  lemma FirstNameIs(opts: seq<LongOption>, test: string -> bool, k: nat)
    requires k <= |opts|
    requires forall j :: 0 <= j < k ==> !test(opts[j].name)
    requires k < |opts| ==> test(opts[k].name)
    ensures FirstName(opts, test) == k
  {
  }

  lemma {:induction false} CountIsOne(opts: seq<LongOption>, key: string, k: nat)
    requires k < |opts| && key <= opts[k].name
    ensures AbbreviationCount(opts, key) == 1 <==> forall j :: 0 <= j < |opts| && j != k ==> !(key <= opts[j].name)
    decreases |opts|
  {
    var init := opts[..|opts| - 1];
    assert forall j :: 0 <= j < |init| ==> init[j] == opts[j];
    if k < |init| {
      CountIsOne(init, key, k);
    } else if AbbreviationCount(init, key) > 0 {
      var j :| 0 <= j < |init| && key <= init[j].name;
      assert key <= opts[j].name;
    }
  }

  /** The documented rule: the first option with exactly that name, or else the only one it abbreviates. */
  lemma AbbreviationRule(opts: seq<LongOption>, key: string, k: nat)
    requires k < |opts|
    ensures MatchLong(opts, key) == Unique(k) <==>
      if exists j :: 0 <= j < |opts| && opts[j].name == key
      then opts[k].name == key && forall j :: 0 <= j < k ==> opts[j].name != key
      else key <= opts[k].name && forall j :: 0 <= j < |opts| && j != k ==> !(key <= opts[j].name)
  {
    var exact := FirstName(opts, name => name == key);
    if exact == |opts| {
      if key <= opts[k].name {
        CountIsOne(opts, key, k);
        if AbbreviationCount(opts, key) == 1 { FirstNameIs(opts, name => key <= name, k); }
      }
    }
  }

  lemma CountNone(opts: seq<LongOption>, key: string)
    ensures AbbreviationCount(opts[..0], key) == 0
  {
  }

  lemma CountOneMore(opts: seq<LongOption>, key: string, i: nat)
    requires i < |opts|
    ensures AbbreviationCount(opts[..i + 1], key)
      == AbbreviationCount(opts[..i], key) + if key <= opts[i].name then 1 else 0
  {
    assert opts[..i + 1][..i] == opts[..i];
  }

  /** The search loop over the option vector: one pass finds the exact name, the first abbreviation and ambiguity. */
  method LookUp(opts: seq<LongOption>, key: string) returns (m: Match)
    ensures m == MatchLong(opts, key)
  {
    hide AbbreviationCount;
    var found: Option<nat> := None;
    var ambig := false;
    var i := 0;
    CountNone(opts, key);
    while i < |opts|
      invariant 0 <= i <= |opts|
      invariant forall j :: 0 <= j < i ==> opts[j].name != key
      invariant found.None? ==> !ambig && AbbreviationCount(opts[..i], key) == 0
      invariant found.Some? ==> found.value < i && key <= opts[found.value].name
      invariant found.Some? ==> forall j :: 0 <= j < found.value ==> !(key <= opts[j].name)
      invariant found.Some? ==> AbbreviationCount(opts[..i], key) >= 1
      invariant found.Some? ==> (ambig <==> AbbreviationCount(opts[..i], key) > 1)
    {
      CountOneMore(opts, key, i);
      if key <= opts[i].name {
        if |key| == |opts[i].name| {
          assert opts[i].name == key;
          FirstNameIs(opts, name => name == key, i);
          return Unique(i);
        } else if found.None? {
          forall j | 0 <= j < i ensures !(key <= opts[j].name) { assert opts[..i][j] == opts[j]; }
          found := Some(i);
        } else {
          ambig := true;
        }
      }
      i := i + 1;
    }
    assert opts[..i] == opts;
    FirstNameIs(opts, name => name == key, |opts|);
    if ambig { return Ambiguous; }
    if found.Some? {
      FirstNameIs(opts, name => key <= name, found.value);
      return Unique(found.value);
    }
    return NoMatch;
  }

  function BlocksSwapped<T>(s: seq<T>, a: nat, b: nat, len: nat): (t: seq<T>)
    requires a + len <= b && b + len <= |s|
    ensures |t| == |s|
  {
    s[..a] + s[b..b + len] + s[a + len..b] + s[a..a + len] + s[b + len..]
  }

  lemma SwappedPointwise<T>(s: seq<T>, t: seq<T>, a: nat, b: nat, len: nat)
    requires a + len <= b && b + len <= |s| && |t| == |s|
    requires forall k :: a <= k < a + len ==> t[k] == s[k + (b - a)]
    requires forall k :: b <= k < b + len ==> t[k] == s[k - (b - a)]
    requires forall k :: 0 <= k < |s| && !(a <= k < a + len) && !(b <= k < b + len) ==> t[k] == s[k]
    ensures t == BlocksSwapped(s, a, b, len)
  {
    var r := BlocksSwapped(s, a, b, len);
    assert t[..a] == s[..a];
    assert t[a..a + len] == s[b..b + len];
    assert t[a + len..b] == s[a + len..b];
    assert t[b..b + len] == s[a..a + len];
    assert t[b + len..] == s[b + len..];
    assert t == t[..a] + t[a..a + len] + t[a + len..b] + t[b..b + len] + t[b + len..];
  }

  lemma NothingToExchange<T>(s: seq<T>, first: nat, last: nat, top: nat)
    requires first <= last <= top <= |s| && (first == last || last == top)
    ensures Exchanged(s, first, last, top) == s
  {
  }

  /** The block swap inside exchange: argv[a..a+len) trades places with argv[b..b+len). */
  method SwapBlocks(argv: array<string>, a: nat, b: nat, len: nat)
    requires a + len <= b && b + len <= argv.Length
    modifies argv
    ensures argv[..] == BlocksSwapped(old(argv[..]), a, b, len)
  {
    ghost var was := argv[..];
    var i := 0;
    while i < len
      invariant 0 <= i <= len
      invariant forall k :: a <= k < a + i ==> argv[k] == was[k + (b - a)]
      invariant forall k :: b <= k < b + i ==> argv[k] == was[k - (b - a)]
      invariant forall k :: 0 <= k < argv.Length && !(a <= k < a + i) && !(b <= k < b + i) ==> argv[k] == was[k]
    {
      argv[a + i], argv[b + i] := argv[b + i], argv[a + i];
      i := i + 1;
    }
    SwappedPointwise(was, argv[..], a, b, len);
  }

  /** Putting the shorter lower block into its final place leaves a smaller exchange to do. */
  lemma ShortLowerBlock<T>(s: seq<T>, t: seq<T>, bottom: nat, middle: nat, top: nat)
    requires bottom <= middle <= top <= |s| && middle - bottom <= top - middle
    requires t == BlocksSwapped(s, bottom, top - (middle - bottom), middle - bottom)
    ensures Exchanged(t, bottom, middle, top - (middle - bottom)) == Exchanged(s, bottom, middle, top)
  {
    var len := middle - bottom;
    assert t[..bottom] == s[..bottom];
    assert t[bottom..middle] == s[top - len..top];
    assert t[middle..top - len] == s[middle..top - len];
    assert t[top - len..] == s[bottom..middle] + s[top..];
    assert s[middle..top] == s[middle..top - len] + s[top - len..top];
  }

  /** The same for a shorter upper block. */
  lemma ShortUpperBlock<T>(s: seq<T>, t: seq<T>, bottom: nat, middle: nat, top: nat)
    requires bottom <= middle <= top <= |s| && top - middle <= middle - bottom
    requires t == BlocksSwapped(s, bottom, middle, top - middle)
    ensures Exchanged(t, bottom + (top - middle), middle, top) == Exchanged(s, bottom, middle, top)
  {
    var len := top - middle;
    assert t[..bottom + len] == s[..bottom] + s[middle..top];
    assert t[bottom + len..middle] == s[bottom + len..middle];
    assert t[middle..top] == s[bottom..bottom + len];
    assert t[top..] == s[top..];
    assert s[bottom..middle] == s[bottom..bottom + len] + s[bottom + len..middle];
  }

  class Scanner {
    var optind: nat
    var nextchar: string
    var firstNonopt: nat
    var lastNonopt: nat
    var ordering: Ordering

    /** The static initial values: optind 0 asks the first call to initialise. */
    constructor ()
      ensures optind == 0
    {
      optind, nextchar, firstNonopt, lastNonopt, ordering := 0, "", 0, 0, Permute;
    }

    ghost function Now(argv: array<string>): State
      reads this, argv
    {
      State(argv[..], optind, nextchar, firstNonopt, lastNonopt, ordering)
    }

    /** exchange: rotates the skipped arguments past the options read after them. */
    method Exchange(argv: array<string>)
      requires firstNonopt <= lastNonopt <= optind <= argv.Length
      modifies argv, this`firstNonopt, this`lastNonopt
      ensures argv[..] == Exchanged(old(argv[..]), old(firstNonopt), old(lastNonopt), optind)
      ensures firstNonopt == old(firstNonopt) + (optind - old(lastNonopt)) && lastNonopt == optind
    {
      hide Exchanged;
      hide BlocksSwapped;
      var bottom: nat, middle: nat, top: nat := firstNonopt, lastNonopt, optind;
      ghost var goal := Exchanged(argv[..], bottom, middle, top);
      while top > middle && middle > bottom
        invariant 0 <= bottom <= middle <= top <= argv.Length
        invariant firstNonopt == old(firstNonopt) && lastNonopt == old(lastNonopt)
        invariant Exchanged(argv[..], bottom, middle, top) == goal
        decreases top - bottom
      {
        ghost var was := argv[..];
        if top - middle > middle - bottom {
          var len := middle - bottom;
          SwapBlocks(argv, bottom, top - len, len);
          ShortLowerBlock(was, argv[..], bottom, middle, top);
          top := top - len;
        } else {
          var len := top - middle;
          SwapBlocks(argv, bottom, middle, len);
          ShortUpperBlock(was, argv[..], bottom, middle, top);
          bottom := bottom + len;
        }
      }
      NothingToExchange(argv[..], bottom, middle, top);
      firstNonopt := firstNonopt + (optind - lastNonopt);
      lastNonopt := optind;
    }

    /** Handle the next option character (the last block of _getopt_internal). */
    method ShortOption(argv: array<string>, cfg: Config) returns (e: Event)
      requires Ready(Now(argv)) && nextchar != ""
      modifies this`nextchar, this`optind
      ensures var d := DecodeShort(cfg, old(nextchar), Following(argv[..], old(optind)));
        e == d.event && nextchar == d.next && optind == old(optind) + d.used
    {
      var c := nextchar[0];
      nextchar := nextchar[1..];
      var at := MyIndex(cfg.optstring, c);
      if nextchar == "" { optind := optind + 1; }
      if at == |cfg.optstring| || c == ':' {
        return Complaint('?' as int, IllegalChar, Some(c));
      }
      e := Plain(c as int, None);
      if at + 1 < |cfg.optstring| && cfg.optstring[at + 1] == ':' {
        if at + 2 < |cfg.optstring| && cfg.optstring[at + 2] == ':' {
          if nextchar != "" {
            e := Plain(c as int, Some(nextchar));
            optind := optind + 1;
          }
        } else if nextchar != "" {
          e := Plain(c as int, Some(nextchar));
          optind := optind + 1;
        } else if optind == argv.Length {
          e := Complaint(if cfg.optstring != "" && cfg.optstring[0] == ':' then ':' as int else '?' as int,
                         MissingArgument, Some(c));
        } else {
          e := Plain(c as int, Some(argv[optind]));
          optind := optind + 1;
        }
        nextchar := "";
      }
    }

    /** A long option that was found: its argument, its flag, its value. */
    method FoundLong(argv: array<string>, cfg: Config, p: LongOption, index: nat, argument: Option<string>)
      returns (e: Event)
      requires Ready(Now(argv)) && nextchar != ""
      modifies this`nextchar, this`optind
      ensures var d := DecodeLong(cfg, p, index, argument, Following(argv[..], old(optind)));
        e == d.event && nextchar == d.next && optind == old(optind) + d.used
    {
      var optarg: Option<string> := None;
      optind := optind + 1;
      nextchar := "";
      if argument.Some? {
        if p.hasArg != 0 {
          optarg := argument;
        } else {
          return Complaint('?' as int, ArgumentNotAllowed, None);
        }
      } else if p.hasArg == 1 {
        if optind < argv.Length {
          optarg := Some(argv[optind]);
          optind := optind + 1;
        } else {
          return Complaint(if cfg.optstring != "" && cfg.optstring[0] == ':' then ':' as int else '?' as int,
                           MissingArgument, None);
        }
      }
      if p.flag.Some? {
        return Event(0, optarg, Quiet, None, Some(index), Some((p.flag.value, p.val)));
      }
      return Event(p.val, optarg, Quiet, None, Some(index), None);
    }

    /** The decoding half of _getopt_internal: long option first, then short option. */
    method DecodeNext(argv: array<string>, cfg: Config) returns (e: Event)
      requires Ready(Now(argv)) && nextchar != ""
      modifies this`nextchar, this`optind
      ensures (Some(e), Now(argv)) == DecodeStep(cfg, old(Now(argv)))
    {
      hide DecodeShort, DecodeLong, MatchLong, PrefixBefore;
      var cur := argv[optind];
      if cfg.longopts.Some? && (cur[1] == '-' || cfg.longOnly) {
        var n := MyIndex(nextchar, '=');
        var m := LookUp(cfg.longopts.value, nextchar[..n]);
        match m
        case Ambiguous =>
          nextchar := "";
          optind := optind + 1;
          return Complaint('?' as int, AmbiguousName, None);
        case Unique(k) =>
          e := FoundLong(argv, cfg, cfg.longopts.value[k], k, if n < |nextchar| then Some(nextchar[n + 1..]) else None);
          return;
        case NoMatch =>
          var at := MyIndex(cfg.optstring, nextchar[0]);
          if !cfg.longOnly || cur[1] == '-' || at == |cfg.optstring| {
            nextchar := "";
            optind := optind + 1;
            return Complaint('?' as int, UnknownName, None);
          }
      }
      e := ShortOption(argv, cfg);
    }

    /** The initialisation made by the first call; the result is optstring without its order mark. */
    method Initialise(argv: array<string>, cfg: Config, posixlyCorrect: bool) returns (config: Config)
      requires argv.Length >= 1
      modifies this
      ensures Now(argv) == Begin(cfg, posixlyCorrect, argv[..]) && config == FirstCallConfig(cfg)
    {
      firstNonopt, lastNonopt, optind := 1, 1, 1;
      nextchar := "";
      config := cfg;
      if cfg.optstring != "" && cfg.optstring[0] == '-' {
        ordering := ReturnInOrder;
        config := cfg.(optstring := cfg.optstring[1..]);
      } else if cfg.optstring != "" && cfg.optstring[0] == '+' {
        ordering := RequireOrder;
        config := cfg.(optstring := cfg.optstring[1..]);
      } else if posixlyCorrect {
        ordering := RequireOrder;
      } else {
        ordering := Permute;
      }
    }

    /** The exchange before plain arguments are skipped. */
    method GatherInPlace(argv: array<string>)
      requires firstNonopt <= lastNonopt <= optind <= argv.Length
      modifies argv, this`firstNonopt, this`lastNonopt
      ensures Now(argv).(last := optind) == Gather(old(Now(argv)))
    {
      hide Exchanged;
      if firstNonopt != lastNonopt && lastNonopt != optind {
        Exchange(argv);
      } else if lastNonopt != optind {
        firstNonopt := optind;
      }
    }

    /** PERMUTE's work between elements: exchange if needed, then skip plain arguments. */
    method SkipNonOptionsInPlace(argv: array<string>)
      requires firstNonopt <= lastNonopt <= optind <= argv.Length
      modifies argv, this`firstNonopt, this`lastNonopt, this`optind
      ensures Now(argv) == SkipAhead(old(Now(argv)))
    {
      GatherInPlace(argv);
      hide Gather;
      ghost var g := Gather(old(Now(argv)));
      while optind < argv.Length && IsNonOption(argv[optind])
        invariant g.optind <= optind <= argv.Length
        invariant Now(argv).(last := g.last) == g.(optind := optind)
        invariant SkipNonOptions(g.argv, g.optind) == SkipNonOptions(g.argv, optind)
      {
        optind := optind + 1;
      }
      lastNonopt := optind;
    }

    /** The element "--": options end here, the rest counts as skipped arguments. */
    method EndOptions(argv: array<string>)
      requires firstNonopt <= lastNonopt <= optind < argv.Length
      modifies argv, this`firstNonopt, this`lastNonopt, this`optind
      ensures BackUp(Now(argv)) == Terminate(old(Now(argv)))
      ensures optind == argv.Length
    {
      optind := optind + 1;
      if firstNonopt != lastNonopt && lastNonopt != optind {
        Exchange(argv);
      } else if firstNonopt == lastNonopt {
        firstNonopt := optind;
      }
      lastNonopt := argv.Length;
      optind := argv.Length;
    }

    /** The block for an empty nextchar: either the call is over, or nextchar holds a new element's text. */
    method StartElement(argv: array<string>, cfg: Config) returns (over: bool, r: Option<Event>)
      requires Ready(Now(argv)) && nextchar == ""
      modifies this, argv
      ensures var st := old(Now(argv));
        var ready := if st.ordering == Permute then SkipAhead(st) else st;
        if over then (r, Now(argv)) == ElementStep(cfg, ready)
        else Ready(Now(argv)) && nextchar != "" && ElementStep(cfg, ready) == DecodeStep(cfg, Now(argv))
    {
      hide SkipAhead, Terminate, DecodeStep;
      if ordering == Permute {
        SkipNonOptionsInPlace(argv);
      }
      ghost var ready := Now(argv);
      if optind != argv.Length && argv[optind] == "--" {
        EndOptions(argv);
      }
      if optind == argv.Length {
        if firstNonopt != lastNonopt { optind := firstNonopt; }
        return true, None;
      }
      if IsNonOption(argv[optind]) {
        if ordering == RequireOrder { return true, None; }
        optind := optind + 1;
        return true, Some(Plain(NON_OPTION_CODE, Some(argv[optind - 1])));
      }
      nextchar := if cfg.longopts.Some? && argv[optind][1] == '-' then argv[optind][2..] else argv[optind][1..];
      assert Now(argv) == ready.(nextchar := ElementText(cfg, argv[optind]));
      return false, None;
    }

    /** _getopt_internal. None stands for EOF. */
    method GetoptInternal(argv: array<string>, cfg: Config, posixlyCorrect: bool) returns (r: Option<Event>)
      requires argv.Length >= 1
      requires optind == 0 || Ready(Now(argv))
      modifies this, argv
      ensures (r, Now(argv)) == Call(cfg, posixlyCorrect, old(Now(argv)))
    {
      hide SkipAhead, ElementStep, DecodeStep, Ready, Begin;
      var config := cfg;
      if optind == 0 {
        config := Initialise(argv, cfg, posixlyCorrect);
      }
      if nextchar == "" {
        var over, result := StartElement(argv, config);
        if over { return result; }
      }
      var e := DecodeNext(argv, config);
      return Some(e);
    }
  }
}
