/**
 What the elements of a command line mean, in terms of the option string and the names of the long options
 alone: every list of options and arguments, however spelled, is reported as just those, in order.
 */
module GetoptMeaning {
  import opened Common
  import opened Getopt
  import opened GetoptReference
  import opened GetoptRuns
  import opened GetoptScanner

  // ---------------------------------------------------------------- the option string

  /** c stands at k in the option string, and not before. */
  predicate At(s: string, c: char, k: nat) {
    k < |s| && s[k] == c && forall i :: 0 <= i < k ==> s[i] != c
  }

  datatype Kind = NoOption | Flag | Required | Optional

  /** What the colons behind a letter's first place say. */
  ghost predicate OfKind(s: string, c: char, kind: Kind) {
    match kind
    case NoOption => c == ':' || forall i :: 0 <= i < |s| ==> s[i] != c
    case Flag => c != ':' && exists k: nat :: At(s, c, k) && !(k + 1 < |s| && s[k + 1] == ':')
    case Required => c != ':' &&
      exists k: nat :: At(s, c, k) && k + 1 < |s| && s[k + 1] == ':' && !(k + 2 < |s| && s[k + 2] == ':')
    case Optional => c != ':' && exists k: nat :: At(s, c, k) && k + 2 < |s| && s[k + 1] == ':' && s[k + 2] == ':'
  }

  /** Code of a missing argument. */
  function MissedCode(cfg: Config): int {
    if |cfg.optstring| > 0 && cfg.optstring[0] == ':' then ':' as int else '?' as int
  }

  // ---------------------------------------------------------------- spelling options

  /** How a group of letters goes on: with its last letter's argument attached, or in the next element. */
  datatype Ending = Nothing | Attached(c: char, text: string) | Separate(c: char, text: string) | Missing(c: char)

  datatype Item =
    | Operand(text: string)
    | Letters(letters: string, ending: Ending)
    | Long(dashes: string, key: string, k: nat, value: Option<string>)
    | LongSeparate(dashes: string, key: string, k: nat, text: string)
    | LongMissing(dashes: string, key: string, k: nat)
    | LongWrong(dashes: string, key: string, value: Option<string>, message: Diagnostic)

  /** "=value", or nothing. */
  function Behind(value: Option<string>): string {
    if value.Some? then "=" + value.value else ""
  }

  /** The letters of a group with its ending, and what is attached. */
  function LettersText(letters: string, ending: Ending): string {
    match ending
    case Nothing => letters
    case Attached(c, text) => letters + [c] + text
    case Separate(c, _) => letters + [c]
    case Missing(c) => letters + [c]
  }

  function Spelled(item: Item): seq<string> {
    match item
    case Operand(text) => [text]
    case Letters(letters, ending) =>
      ["-" + LettersText(letters, ending)] + if ending.Separate? then [ending.text] else []
    case Long(dashes, key, _, value) => [dashes + (key + Behind(value))]
    case LongSeparate(dashes, key, _, text) => [dashes + key, text]
    case LongMissing(dashes, key, _) => [dashes + key]
    case LongWrong(dashes, key, value, _) => [dashes + (key + Behind(value))]
  }

  /** A letter that needs nothing, or is refused. */
  ghost predicate StandsAlone(cfg: Config, c: char) {
    OfKind(cfg.optstring, c, Flag) || OfKind(cfg.optstring, c, NoOption)
  }

  /** Every letter stands alone; the last one may also lack an argument that it need not have. */
  ghost predicate GoodLetters(cfg: Config, letters: string, ending: Ending) {
    && (forall i :: 0 <= i < |letters| - 1 ==> StandsAlone(cfg, letters[i]))
    && (letters != "" ==>
          var c := letters[|letters| - 1];
          StandsAlone(cfg, c) || (ending == Nothing && OfKind(cfg.optstring, c, Optional)))
    && match ending
       case Nothing => letters != ""
       case Attached(c, text) =>
         text != "" && (OfKind(cfg.optstring, c, Required) || OfKind(cfg.optstring, c, Optional))
       case Separate(c, _) => OfKind(cfg.optstring, c, Required)
       case Missing(c) => OfKind(cfg.optstring, c, Required)
  }

  /** Two dashes, or with long_only one, and a name without "=". */
  ghost predicate GoodName(cfg: Config, dashes: string, key: string) {
    && cfg.longopts.Some? && '=' !in key
    && (dashes == "--" || (cfg.longOnly && dashes == "-" && key != "" && key[0] != '-'))
  }

  /** The key is the first exact name k, or abbreviates it alone. */
  predicate Names(opts: seq<LongOption>, key: string, k: nat) {
    && k < |opts|
    && if exists j :: 0 <= j < |opts| && opts[j].name == key
       then opts[k].name == key && forall j :: 0 <= j < k ==> opts[j].name != key
       else key <= opts[k].name && forall j :: 0 <= j < |opts| && j != k ==> !(key <= opts[j].name)
  }

  ghost predicate Good(cfg: Config, item: Item) {
    match item
    case Operand(text) => |text| < 2 || text[0] != '-'
    case Letters(letters, ending) =>
      && (cfg.longopts.None? || !cfg.longOnly)
      && GoodLetters(cfg, letters, ending) && LettersText(letters, ending) != "-"
      && (cfg.longopts.Some? ==> LettersText(letters, ending)[0] != '-')
    case Long(dashes, key, k, value) =>
      && GoodName(cfg, dashes, key) && (key != "" || value.Some?) && Names(cfg.longopts.value, key, k)
      && if value.Some? then cfg.longopts.value[k].hasArg != 0 else cfg.longopts.value[k].hasArg != 1
    case LongSeparate(dashes, key, k, _) =>
      GoodName(cfg, dashes, key) && key != "" && Names(cfg.longopts.value, key, k) && cfg.longopts.value[k].hasArg == 1
    case LongMissing(dashes, key, k) =>
      GoodName(cfg, dashes, key) && key != "" && Names(cfg.longopts.value, key, k) && cfg.longopts.value[k].hasArg == 1
    case LongWrong(dashes, key, value, message) =>
      && GoodName(cfg, dashes, key) && (key != "" || value.Some?)
      && var opts := cfg.longopts.value;
      match message
      case UnknownName => (forall j :: 0 <= j < |opts| ==> !(key <= opts[j].name)) &&
        (dashes == "--" || forall i :: 0 <= i < |cfg.optstring| ==> cfg.optstring[i] != key[0])
      case AmbiguousName =>
        && (exists i, j :: 0 <= i < j < |opts| && key <= opts[i].name && key <= opts[j].name)
        && (forall j :: 0 <= j < |opts| ==> opts[j].name != key)
      case ArgumentNotAllowed => value.Some? && exists k: nat :: Names(opts, key, k) && opts[k].hasArg == 0
      case _ => false
  }

  predicate Misses(item: Item) {
    item.LongMissing? || (item.Letters? && item.ending.Missing?)
  }

  // ---------------------------------------------------------------- reporting options

  function OptionEvent(opt: LongOption, k: nat, value: Option<string>): Event {
    if opt.flag.Some? then Event(0, value, Quiet, None, Some(k), Some((opt.flag.value, opt.val)))
    else Event(opt.val, value, Quiet, None, Some(k), None)
  }

  ghost function LetterEvent(cfg: Config, c: char): Event {
    if OfKind(cfg.optstring, c, NoOption) then Event('?' as int, None, IllegalChar, Some(c), None, None)
    else Event(c as int, None, Quiet, None, None, None)
  }

  ghost function LetterEvents(cfg: Config, letters: string): (events: seq<Event>)
    ensures |events| == |letters|
  {
    if letters == "" then [] else [LetterEvent(cfg, letters[0])] + LetterEvents(cfg, letters[1..])
  }

  function EndingEvents(cfg: Config, ending: Ending): seq<Event> {
    match ending
    case Nothing => []
    case Attached(c, text) => [Event(c as int, Some(text), Quiet, None, None, None)]
    case Separate(c, text) => [Event(c as int, Some(text), Quiet, None, None, None)]
    case Missing(c) => [Event(MissedCode(cfg), None, MissingArgument, Some(c), None, None)]
  }

  ghost function Reported(cfg: Config, ordering: Ordering, item: Item): seq<Event>
    requires Good(cfg, item)
  {
    match item
    case Operand(text) => if ordering == ReturnInOrder then [Event(1, Some(text), Quiet, None, None, None)] else []
    case Letters(letters, ending) => LetterEvents(cfg, letters) + EndingEvents(cfg, ending)
    case Long(_, _, k, value) => [OptionEvent(cfg.longopts.value[k], k, value)]
    case LongSeparate(_, _, k, text) => [OptionEvent(cfg.longopts.value[k], k, Some(text))]
    case LongMissing(_, _, k) => [Event(MissedCode(cfg), None, MissingArgument, None, None, None)]
    case LongWrong(_, _, _, message) => [Event('?' as int, None, message, None, None, None)]
  }

  // ---------------------------------------------------------------- one letter

  lemma PlaceOf(s: string, c: char, k: nat)
    requires At(s, c, k)
    ensures PrefixBefore(s, c) == k
  {
  }

  lemma NoPlace(s: string, c: char)
    requires forall i :: 0 <= i < |s| ==> s[i] != c
    ensures PrefixBefore(s, c) == |s|
  {
  }

  /** A letter that stands at k in the option string. */
  lemma LetterAt(cfg: Config, c: char, left: string, following: Option<string>, k: nat)
    requires At(cfg.optstring, c, k) && c != ':'
    ensures var s := cfg.optstring;
      var d := DecodeShort(cfg, [c] + left, following);
      var alone := Event(c as int, None, Quiet, None, None, None);
      if !(k + 1 < |s| && s[k + 1] == ':') then d == Decoded(alone, left, if left == "" then 1 else 0)
      else if left != "" then d == Decoded(alone.(optarg := Some(left)), "", 1)
      else if k + 2 < |s| && s[k + 2] == ':' then d == Decoded(alone, "", 1)
      else if following.Some? then d == Decoded(alone.(optarg := following), "", 2)
      else d == Decoded(Event(MissedCode(cfg), None, MissingArgument, Some(c), None, None), "", 1)
  {
    hide PrefixBefore;
    var s := cfg.optstring;
    PlaceOf(s, c, k);
    assert ([c] + left)[1..] == left;
  }

  /** What a letter means, by its kind alone. */
  lemma LetterMeans(cfg: Config, c: char, left: string, following: Option<string>, kind: Kind)
    requires OfKind(cfg.optstring, c, kind)
    ensures var d := DecodeShort(cfg, [c] + left, following);
      var alone := Event(c as int, None, Quiet, None, None, None);
      match kind
      case NoOption =>
        d == Decoded(Event('?' as int, None, IllegalChar, Some(c), None, None), left, if left == "" then 1 else 0)
      case Flag => d == Decoded(alone, left, if left == "" then 1 else 0)
      case Optional => d == Decoded(if left == "" then alone else alone.(optarg := Some(left)), "", 1)
      case Required =>
        if left != "" then d == Decoded(alone.(optarg := Some(left)), "", 1)
        else if following.Some? then d == Decoded(alone.(optarg := following), "", 2)
        else d == Decoded(Event(MissedCode(cfg), None, MissingArgument, Some(c), None, None), "", 1)
  {
    var s := cfg.optstring;
    match kind
    case NoOption =>
      assert ([c] + left)[1..] == left;
      hide PrefixBefore;
      if c != ':' { NoPlace(s, c); }
    case Flag =>
      var k: nat :| At(s, c, k) && !(k + 1 < |s| && s[k + 1] == ':');
      hide DecodeShort;
      LetterAt(cfg, c, left, following, k);
    case Required =>
      var k: nat :| At(s, c, k) && k + 1 < |s| && s[k + 1] == ':' && !(k + 2 < |s| && s[k + 2] == ':');
      hide DecodeShort;
      LetterAt(cfg, c, left, following, k);
    case Optional =>
      var k: nat :| At(s, c, k) && k + 2 < |s| && s[k + 1] == ':' && s[k + 2] == ':';
      hide DecodeShort;
      LetterAt(cfg, c, left, following, k);
  }

  /** Every letter is of one kind. */
  lemma EveryLetterHasAKind(s: string, c: char) returns (kind: Kind)
    ensures OfKind(s, c, kind)
    ensures forall other :: OfKind(s, c, other) ==> other == kind
  {
    var k := PrefixBefore(s, c);
    if c == ':' || k == |s| {
      kind := NoOption;
      assert k == |s| ==> s[..k] == s;
    } else {
      assert At(s, c, k) by { assert forall i :: 0 <= i < k ==> s[i] == s[..k][i]; }
      kind := if !(k + 1 < |s| && s[k + 1] == ':') then Flag
        else if !(k + 2 < |s| && s[k + 2] == ':') then Required else Optional;
    }
    forall other | OfKind(s, c, other) ensures other == kind {
      forall j: nat | At(s, c, j) ensures j == k { PlaceOf(s, c, j); }
    }
  }

  // ---------------------------------------------------------------- one element

  /** Elements whose text is decoded letter by letter. */
  predicate ByLetters(cfg: Config, cur: string)
    requires |cur| > 1
  {
    cfg.longopts.None? || (cur[1] != '-' && !cfg.longOnly)
  }

  lemma DecodesLetter(cfg: Config, cur: string, next: string, following: Option<string>)
    requires !IsNonOption(cur) && next != "" && ByLetters(cfg, cur)
    ensures Decode(cfg, cur, next, following) == DecodeShort(cfg, next, following)
  {
    hide DecodeShort, DecodeLong, MatchLong, PrefixBefore;
  }

  lemma LastLetter(cfg: Config, cur: string, next: string, following: Option<string>)
    requires !IsNonOption(cur) && next != ""
    ensures var d := Decode(cfg, cur, next, following);
      d.used > 0 ==> ReadElement(cfg, cur, next, following) == Element([d.event], d.used)
    ensures var d := Decode(cfg, cur, next, following);
      d.used == 0 ==>
        var e := ReadElement(cfg, cur, d.next, following);
        ReadElement(cfg, cur, next, following) == Element([d.event] + e.events, e.used)
  {
    hide Decode;
  }

  /** What the next element is, where that matters. */
  predicate NextElementIs(ending: Ending, following: Option<string>) {
    (ending.Separate? ==> following == Some(ending.text)) && (ending.Missing? ==> following == None)
  }

  /** Any group of letters is read letter by letter. */
  lemma {:induction false} LettersAreRead(cfg: Config, cur: string, letters: string, ending: Ending,
                                          following: Option<string>)
    requires !IsNonOption(cur) && ByLetters(cfg, cur) && GoodLetters(cfg, letters, ending)
    requires NextElementIs(ending, following)
    ensures ReadElement(cfg, cur, LettersText(letters, ending), following)
      == Element(LetterEvents(cfg, letters) + EndingEvents(cfg, ending), if ending.Separate? then 2 else 1)
    decreases |letters|
  {
    hide ReadElement, Decode, DecodeShort, OfKind, IsNonOption, ByLetters, GoodLetters, LettersText;
    GoodLettersAreSome(cfg, letters, ending);
    var next := LettersText(letters, ending);
    LastLetter(cfg, cur, next, following);
    DecodesLetter(cfg, cur, next, following);
    if letters == "" {
      EndingIsRead(cfg, ending, following);
      assert [] + EndingEvents(cfg, ending) == EndingEvents(cfg, ending);
    } else {
      var rest := letters[1..];
      var left := LettersText(rest, ending);
      LettersSplit(cfg, letters, ending);
      FirstLetter(cfg, letters[0], left, following);
      EventsSplit(cfg, letters, ending);
      if left != "" { LettersAreRead(cfg, cur, rest, ending, following); }
    }
  }

  lemma GoodLettersAreSome(cfg: Config, letters: string, ending: Ending)
    requires GoodLetters(cfg, letters, ending)
    ensures LettersText(letters, ending) != "" && (letters == "" ==> ending != Nothing)
  {
    hide OfKind;
  }

  lemma LettersSplit(cfg: Config, letters: string, ending: Ending)
    requires GoodLetters(cfg, letters, ending) && letters != ""
    ensures var c, rest := letters[0], letters[1..];
      var left := LettersText(rest, ending);
      && LettersText(letters, ending) == [c] + left
      && (left == "" <==> rest == "" && ending == Nothing) && (left != "" ==> GoodLetters(cfg, rest, ending))
      && (StandsAlone(cfg, c) || (left == "" && OfKind(cfg.optstring, c, Optional)))
  {
    hide OfKind, StandsAlone, LettersText;
    var rest := letters[1..];
    TextSplit(letters, ending);
    if rest != "" {
      assert letters[0] == letters[..1][0];
      assert forall i :: 0 <= i < |rest| ==> rest[i] == letters[i + 1];
    }
  }

  lemma TextSplit(letters: string, ending: Ending)
    requires letters != ""
    ensures LettersText(letters, ending) == [letters[0]] + LettersText(letters[1..], ending)
    ensures LettersText(letters[1..], ending) == "" <==> letters[1..] == "" && ending == Nothing
  {
    var c, rest := [letters[0]], letters[1..];
    assert letters == c + rest;
    if ending != Nothing { InOnePiece(c, rest, [ending.c]); }
    if ending.Attached? { InOnePiece(c, rest + [ending.c], ending.text); }
  }

  lemma EventsSplit(cfg: Config, letters: string, ending: Ending)
    requires letters != ""
    ensures LetterEvents(cfg, letters) + EndingEvents(cfg, ending)
      == [LetterEvent(cfg, letters[0])] + (LetterEvents(cfg, letters[1..]) + EndingEvents(cfg, ending))
    ensures letters[1..] == "" && ending == Nothing ==>
      LetterEvents(cfg, letters) + EndingEvents(cfg, ending) == [LetterEvent(cfg, letters[0])]
  {
    hide LetterEvent;
  }

  lemma FirstLetter(cfg: Config, c: char, left: string, following: Option<string>)
    requires StandsAlone(cfg, c) || (left == "" && OfKind(cfg.optstring, c, Optional))
    ensures DecodeShort(cfg, [c] + left, following) == Decoded(LetterEvent(cfg, c), left, if left == "" then 1 else 0)
  {
    var kind := EveryLetterHasAKind(cfg.optstring, c);
    hide DecodeShort, OfKind;
    LetterMeans(cfg, c, left, following, kind);
  }

  lemma EndingIsRead(cfg: Config, ending: Ending, following: Option<string>)
    requires ending != Nothing && GoodLetters(cfg, "", ending) && NextElementIs(ending, following)
    ensures var d := DecodeShort(cfg, LettersText("", ending), following);
      [d.event] == EndingEvents(cfg, ending) && d.used == if ending.Separate? then 2 else 1
  {
    var c := ending.c;
    var kind := if OfKind(cfg.optstring, c, Required) then Required else Optional;
    hide DecodeShort, OfKind;
    var left := if ending.Attached? then ending.text else "";
    assert LettersText("", ending) == [c] + left;
    LetterMeans(cfg, c, left, following, kind);
  }

  // ---------------------------------------------------------------- long options

  lemma {:induction false} NoneCounted(opts: seq<LongOption>, key: string)
    requires forall j :: 0 <= j < |opts| ==> !(key <= opts[j].name)
    ensures MatchLong(opts, key) == NoMatch
  {
    var exact := FirstName(opts, name => name == key);
    assert AbbreviationCount(opts, key) == 0;
  }

  lemma TwoCounted(opts: seq<LongOption>, key: string, i: nat, j: nat)
    requires i < j < |opts| && key <= opts[i].name && key <= opts[j].name
    requires forall l :: 0 <= l < |opts| ==> opts[l].name != key
    ensures MatchLong(opts, key) == Ambiguous
  {
    CountIsOne(opts, key, i);
    var exact := FirstName(opts, name => name == key);
    assert AbbreviationCount(opts, key) > 0;
  }

  lemma NameBeforeValue(key: string, value: Option<string>)
    requires '=' !in key
    ensures var next := key + Behind(value);
      PrefixBefore(next, '=') == |key| && next[..|key|] == key
    ensures value.Some? ==> |key| < |key + Behind(value)| && (key + Behind(value))[|key| + 1..] == value.value
    ensures value.None? ==> key + Behind(value) == key
  {
    var next := key + Behind(value);
    if value.Some? {
      assert next[|key|] == '=';
      assert forall i :: 0 <= i < |key| ==> next[i] == key[i];
      PlaceOf(next, '=', |key|);
    } else {
      NoPlace(next, '=');
    }
  }

  /** An element whose name is looked up, once the name is found, ambiguous or unknown. */
  lemma NameIsLookedUp(cfg: Config, cur: string, key: string, value: Option<string>, following: Option<string>)
    requires !IsNonOption(cur) && cfg.longopts.Some? && (cur[1] == '-' || cfg.longOnly)
    requires '=' !in key && key + Behind(value) != ""
    ensures var d := Decode(cfg, cur, key + Behind(value), following);
      match MatchLong(cfg.longopts.value, key)
      case Unique(k) => d == DecodeLong(cfg, cfg.longopts.value[k], k, value, following)
      case Ambiguous => d == Decoded(Event('?' as int, None, AmbiguousName, None, None, None), "", 1)
      case NoMatch => cur[1] == '-' || (key + Behind(value))[0] !in cfg.optstring ==>
        d == Decoded(Event('?' as int, None, UnknownName, None, None, None), "", 1)
  {
    hide DecodeLong, DecodeShort, PrefixBefore, MatchLong, Behind;
    NameBeforeValue(key, value);
  }

  /** What a long option means, by its has_arg and by what is there. */
  lemma LongMeans(cfg: Config, opt: LongOption, k: nat, value: Option<string>, following: Option<string>)
    ensures var d := DecodeLong(cfg, opt, k, value, following);
      if value.Some? && opt.hasArg == 0
      then d == Decoded(Event('?' as int, None, ArgumentNotAllowed, None, None, None), "", 1)
      else if value.Some? || opt.hasArg != 1 then d == Decoded(OptionEvent(opt, k, value), "", 1)
      else if following.Some? then d == Decoded(OptionEvent(opt, k, following), "", 2)
      else d == Decoded(Event(MissedCode(cfg), None, MissingArgument, None, None, None), "", 1)
  {
  }

  /** With long_only, a name that is none but starts with an option letter is read by letters. */
  lemma LongOnlyFallsThrough(cfg: Config, cur: string, key: string, value: Option<string>, following: Option<string>)
    requires !IsNonOption(cur) && cfg.longopts.Some? && cfg.longOnly && cur[1] != '-'
    requires '=' !in key && key + Behind(value) != ""
    requires forall j :: 0 <= j < |cfg.longopts.value| ==> !(key <= cfg.longopts.value[j].name)
    requires exists i :: 0 <= i < |cfg.optstring| && cfg.optstring[i] == (key + Behind(value))[0]
    ensures Decode(cfg, cur, key + Behind(value), following)
      == Decode(cfg.(longopts := None), cur, key + Behind(value), following)
  {
    hide Decode, DecodeShort, MatchLong, Behind;
    var next := key + Behind(value);
    NoneCounted(cfg.longopts.value, key);
    NameBeforeValue(key, value);
    ShortInstead(cfg, cur, next, following);
    LettersIgnoreNames(cfg, next, following);
    DecodesLetter(cfg.(longopts := None), cur, next, following);
  }

  lemma ShortInstead(cfg: Config, cur: string, next: string, following: Option<string>)
    requires !IsNonOption(cur) && next != "" && cfg.longopts.Some? && cfg.longOnly && cur[1] != '-'
    requires MatchLong(cfg.longopts.value, next[..PrefixBefore(next, '=')]) == NoMatch && next[0] in cfg.optstring
    ensures Decode(cfg, cur, next, following) == DecodeShort(cfg, next, following)
  {
    hide DecodeShort, DecodeLong, MatchLong, PrefixBefore;
  }

  lemma LettersIgnoreNames(cfg: Config, next: string, following: Option<string>)
    requires next != ""
    ensures DecodeShort(cfg.(longopts := None), next, following) == DecodeShort(cfg, next, following)
  {
    hide PrefixBefore;
  }

  /** The text of a long item behind its dashes. */
  function LongText(item: Item): string
    requires !item.Operand? && !item.Letters?
  {
    match item
    case Long(_, key, _, value) => key + Behind(value)
    case LongSeparate(_, key, _, _) => key
    case LongMissing(_, key, _) => key
    case LongWrong(_, key, value, _) => key + Behind(value)
  }

  lemma LongItemIsDecoded(cfg: Config, ordering: Ordering, item: Item, cur: string, following: Option<string>)
    requires Good(cfg, item) && !item.Operand? && !item.Letters? && cur == item.dashes + LongText(item)
    requires item.LongSeparate? ==> following == Some(item.text)
    requires item.LongMissing? ==> following == None
    ensures !IsNonOption(cur) && cur != "--" && LongText(item) != "" && ElementText(cfg, cur) == LongText(item)
    ensures var d := Decode(cfg, cur, LongText(item), following);
      [d.event] == Reported(cfg, ordering, item) && d.used == if item.LongSeparate? then 2 else 1
  {
    hide Decode, MatchLong, DecodeLong, Behind;
    var value := if item.Long? || item.LongWrong? then item.value else None;
    var opts := cfg.longopts.value;
    NoValue(item.key);
    LongStarts(cfg, item, cur);
    NameIsLookedUp(cfg, cur, item.key, value, following);
    if item.LongWrong? {
      match item.message
      case UnknownName => NoneCounted(opts, item.key);
      case AmbiguousName =>
        var i, j :| 0 <= i < j < |opts| && item.key <= opts[i].name && item.key <= opts[j].name;
        TwoCounted(opts, item.key, i, j);
      case ArgumentNotAllowed =>
        var k: nat :| Names(opts, item.key, k) && opts[k].hasArg == 0;
        NamedIsMatched(opts, item.key, k);
        LongMeans(cfg, opts[k], k, value, following);
    } else {
      NamedIsMatched(opts, item.key, item.k);
      LongMeans(cfg, opts[item.k], item.k, value, following);
    }
  }

  lemma NoValue(key: string)
    ensures key + Behind(None) == key
  {
  }

  lemma NamedIsMatched(opts: seq<LongOption>, key: string, k: nat)
    requires Names(opts, key, k)
    ensures k < |opts| && MatchLong(opts, key) == Unique(k)
  {
    hide MatchLong;
    AbbreviationRule(opts, key, k);
  }

  lemma LongStarts(cfg: Config, item: Item, cur: string)
    requires Good(cfg, item) && !item.Operand? && !item.Letters? && cur == item.dashes + LongText(item)
    ensures !IsNonOption(cur) && cur != "--" && LongText(item) != "" && ElementText(cfg, cur) == LongText(item)
    ensures item.dashes == "--" ==> cur[1] == '-'
    ensures item.dashes != "--" ==> cur[1] != '-' && LongText(item)[0] == item.key[0] && cfg.longOnly
  {
    hide Names;
    var text := LongText(item);
    assert text != "";
    assert item.dashes == "--" ==> cur[2..] == text && cur[0] == '-' && cur[1] == '-';
    assert item.dashes == "-" ==> cur[1..] == text && cur[1] == text[0] == item.key[0];
  }

  // ---------------------------------------------------------------- whole command lines

  lemma OptionThenRest(cfg: Config, ordering: Ordering, args: seq<string>, events: seq<Event>, used: nat)
    requires args != [] && args[0] != "--" && !IsNonOption(args[0])
    requires ReadElement(cfg, args[0], ElementText(cfg, args[0]), Following(args, 0)) == Element(events, used)
    ensures 1 <= used <= |args|
    ensures var p := Reference(cfg, ordering, args[used..]);
      Reference(cfg, ordering, args) == Reading(args[..used] + p.opts, p.rest, events + p.events, p.ended)
  {
    hide ReadElement, ElementText;
  }

  /** Reading goes on after an item with its reports. */
  ghost predicate ItemFirst(cfg: Config, ordering: Ordering, item: Item, rest: seq<string>)
    requires Good(cfg, item)
  {
    var p, q := Reference(cfg, ordering, rest), Reference(cfg, ordering, Spelled(item) + rest);
    if item.Operand? && ordering == Permute then q == p.(rest := Spelled(item) + p.rest)
    else q == Reading(Spelled(item) + p.opts, p.rest, Reported(cfg, ordering, item) + p.events, p.ended)
  }

  lemma ItemIsRead(cfg: Config, ordering: Ordering, item: Item, rest: seq<string>)
    requires Good(cfg, item) && (Misses(item) ==> rest == []) && (item.Operand? ==> ordering != RequireOrder)
    ensures ItemFirst(cfg, ordering, item, rest)
  {
    match item
    case Operand(_) => OperandIsRead(cfg, ordering, item, rest);
    case Letters(_, _) => LettersItemIsRead(cfg, ordering, item, rest);
    case _ => LongItemIsRead(cfg, ordering, item, rest);
  }

  lemma OperandIsRead(cfg: Config, ordering: Ordering, item: Item, rest: seq<string>)
    requires Good(cfg, item) && item.Operand? && ordering != RequireOrder
    ensures ItemFirst(cfg, ordering, item, rest)
  {
    hide AfterElement;
    var args := Spelled(item) + rest;
    assert args[1..] == rest;
  }

  lemma LettersItemIsRead(cfg: Config, ordering: Ordering, item: Item, rest: seq<string>)
    requires Good(cfg, item) && (Misses(item) ==> rest == []) && item.Letters?
    ensures ItemFirst(cfg, ordering, item, rest)
  {
    hide Reference, ReadElement, OfKind;
    var args, text := Spelled(item) + rest, LettersText(item.letters, item.ending);
    var cur := "-" + text;
    assert args[0] == cur && cur[1..] == text && cur[1] == text[0];
    var used := if item.ending.Separate? then 2 else 1;
    assert item.ending.Separate? ==> args[1] == item.ending.text;
    LettersAreRead(cfg, cur, item.letters, item.ending, Following(args, 0));
    OptionThenRest(cfg, ordering, args, Reported(cfg, ordering, item), used);
    assert args[used..] == rest && args[..used] == Spelled(item);
  }

  lemma LongItemIsRead(cfg: Config, ordering: Ordering, item: Item, rest: seq<string>)
    requires Good(cfg, item) && (Misses(item) ==> rest == []) && !item.Letters? && !item.Operand?
    ensures ItemFirst(cfg, ordering, item, rest)
  {
    hide Reference, ReadElement, Decode, ElementText, Behind, Good, Reported;
    var args := Spelled(item) + rest;
    var cur := item.dashes + LongText(item);
    SpelledLong(item);
    assert args[0] == cur;
    var used := if item.LongSeparate? then 2 else 1;
    assert item.LongSeparate? ==> args[1] == item.text;
    LongItemIsDecoded(cfg, ordering, item, cur, Following(args, 0));
    LastLetter(cfg, cur, LongText(item), Following(args, 0));
    OptionThenRest(cfg, ordering, args, Reported(cfg, ordering, item), used);
    assert args[used..] == rest && args[..used] == Spelled(item);
  }

  lemma SpelledLong(item: Item)
    requires !item.Letters? && !item.Operand?
    ensures Spelled(item) == [item.dashes + LongText(item)] + if item.LongSeparate? then [item.text] else []
  {
  }

  function AllSpelled(items: seq<Item>): seq<string> {
    if items == [] then [] else Spelled(items[0]) + AllSpelled(items[1..])
  }

  /** The elements of options, and those of operands. */
  function OptionsSpelled(items: seq<Item>): seq<string> {
    if items == [] then [] else (if items[0].Operand? then [] else Spelled(items[0])) + OptionsSpelled(items[1..])
  }

  function Operands(items: seq<Item>): seq<string> {
    if items == [] then [] else (if items[0].Operand? then [items[0].text] else []) + Operands(items[1..])
  }

  ghost predicate AllGood(cfg: Config, items: seq<Item>) {
    forall i :: 0 <= i < |items| ==> Good(cfg, items[i]) && (Misses(items[i]) ==> i == |items| - 1)
  }

  ghost function AllReported(cfg: Config, ordering: Ordering, items: seq<Item>): seq<Event>
    requires AllGood(cfg, items)
  {
    if items == [] then [] else Reported(cfg, ordering, items[0]) + AllReported(cfg, ordering, items[1..])
  }

  /** "--" at the front of what follows the items, and what is behind it. */
  function Dashes(tail: seq<string>): seq<string> {
    if tail != [] && tail[0] == "--" then ["--"] else []
  }

  function AfterDashes(tail: seq<string>): seq<string> {
    if tail != [] && tail[0] == "--" then tail[1..] else tail
  }

  /** Where options stop: at the end, at "--", or at an operand that nothing is moved past. */
  ghost predicate Stops(ordering: Ordering, items: seq<Item>, tail: seq<string>) {
    && (tail == [] || tail[0] == "--" || (ordering == RequireOrder && (|tail[0]| < 2 || tail[0][0] != '-')))
    && (ordering == RequireOrder ==> forall i :: 0 <= i < |items| ==> !items[i].Operand?)
    && (items != [] && Misses(items[|items| - 1]) ==> tail == [])
  }

  /** Items are read one after another, in every ordering. */
  lemma {:induction false} ItemsAreRead(cfg: Config, ordering: Ordering, items: seq<Item>, tail: seq<string>)
    requires AllGood(cfg, items) && Stops(ordering, items, tail)
    ensures Reference(cfg, ordering, AllSpelled(items) + tail) == Reading(
      (if ordering == Permute then OptionsSpelled(items) else AllSpelled(items)) + Dashes(tail),
      (if ordering == Permute then Operands(items) else []) + AfterDashes(tail),
      AllReported(cfg, ordering, items), Dashes(tail) != [])
    decreases |items|
  {
    hide Reference, Good, Reported, Dashes, AfterDashes, Spelled;
    if items == [] {
      NothingLeft(cfg, ordering, tail);
    } else {
      var rest := items[1..];
      ItemIsRead(cfg, ordering, items[0], AllSpelled(rest) + tail);
      ItemsAreRead(cfg, ordering, rest, tail);
      assert items == [items[0]] + rest && AllSpelled(items) + tail == Spelled(items[0]) + (AllSpelled(rest) + tail);
      ItemInFront(items[0], rest, tail);
      if items[0].Operand? && ordering == Permute { OperandReportsNothing(cfg, items); }
    }
  }

  lemma OperandReportsNothing(cfg: Config, items: seq<Item>)
    requires AllGood(cfg, items) && items != [] && items[0].Operand?
    ensures AllReported(cfg, Permute, items) == AllReported(cfg, Permute, items[1..])
  {
  }

  lemma NothingLeft(cfg: Config, ordering: Ordering, tail: seq<string>)
    requires Stops(ordering, [], tail)
    ensures Reference(cfg, ordering, AllSpelled([]) + tail) == Reading(
      (if ordering == Permute then OptionsSpelled([]) else AllSpelled([])) + Dashes(tail),
      (if ordering == Permute then Operands([]) else []) + AfterDashes(tail), [], Dashes(tail) != [])
  {
    hide AfterElement;
    assert AllSpelled([]) + tail == tail;
    assert [] + Dashes(tail) == Dashes(tail) && [] + AfterDashes(tail) == AfterDashes(tail);
  }

  /** One more item in front of the reading. */
  lemma ItemInFront(item: Item, items: seq<Item>, tail: seq<string>)
    ensures var all := [item] + items;
      && Spelled(item) + (AllSpelled(items) + Dashes(tail)) == AllSpelled(all) + Dashes(tail)
      && (!item.Operand? ==> Operands(all) == Operands(items))
      && (!item.Operand? ==>
          Spelled(item) + (OptionsSpelled(items) + Dashes(tail)) == OptionsSpelled(all) + Dashes(tail))
      && (item.Operand? ==> Spelled(item) + (Operands(items) + AfterDashes(tail)) == Operands(all) + AfterDashes(tail))
      && (item.Operand? ==> OptionsSpelled(all) == OptionsSpelled(items))
  {
    hide Spelled;
    var all, dashes, after := [item] + items, Dashes(tail), AfterDashes(tail);
    hide Dashes, AfterDashes;
    assert all[1..] == items && all[0] == item;
    InOnePiece(Spelled(item), AllSpelled(items), dashes);
    InOnePiece(Spelled(item), OptionsSpelled(items), dashes);
    InOnePiece(Spelled(item), Operands(items), after);
    if item.Operand? { OperandSpelled(item); }
    assert [] + OptionsSpelled(items) == OptionsSpelled(items) && [] + Operands(items) == Operands(items);
  }

  lemma OperandSpelled(item: Item)
    requires item.Operand?
    ensures Spelled(item) == [item.text]
  {
  }

  lemma InOnePiece<T>(a: seq<T>, b: seq<T>, c: seq<T>)
    ensures a + b + c == a + (b + c)
  {
  }

  /**
   Any list of options and operands, however it is spelled, and anything behind "--": the caller's loop
   reports exactly these options with these arguments, in this order, and leaves argv as the program name,
   the options' elements, and the operands.
   */
  lemma EverySpellingIsRead(cfg: Config, posixlyCorrect: bool, prog: string, items: seq<Item>, tail: seq<string>)
    requires Unmarked(cfg) && AllGood(cfg, items)
    requires Stops(if posixlyCorrect then RequireOrder else Permute, items, tail)
    ensures var r := RunAll(cfg, posixlyCorrect, [prog] + AllSpelled(items) + tail);
      var opts := OptionsSpelled(items) + Dashes(tail);
      && r.events == AllReported(cfg, Permute, items)
      && r.final.argv == [prog] + opts + (Operands(items) + AfterDashes(tail))
      && r.final.optind == 1 + |opts|
  {
    hide RunAll, Reference, Good, Reported, Dashes, AfterDashes, Spelled;
    var argv := [prog] + AllSpelled(items) + tail;
    var ordering := if posixlyCorrect then RequireOrder else Permute;
    WholeRun(cfg, posixlyCorrect, argv);
    assert argv[1..] == AllSpelled(items) + tail;
    ItemsAreRead(cfg, ordering, items, tail);
    if posixlyCorrect { OptionsOnly(cfg, items); }
  }

  lemma {:induction false} OptionsOnly(cfg: Config, items: seq<Item>)
    requires AllGood(cfg, items) && forall i :: 0 <= i < |items| ==> !items[i].Operand?
    ensures OptionsSpelled(items) == AllSpelled(items) && Operands(items) == []
    ensures AllReported(cfg, RequireOrder, items) == AllReported(cfg, Permute, items)
  {
    hide Good, Spelled;
    if items != [] { OptionsOnly(cfg, items[1..]); }
  }

  // ---------------------------------------------------------------- every command line is spelled so

  /** The letters of an element, up to the one that ends it. */
  lemma {:induction false} SplitLetters(cfg: Config, text: string, following: Option<string>)
    returns (letters: string, ending: Ending)
    requires text != ""
    ensures GoodLetters(cfg, letters, ending) && LettersText(letters, ending) == text
    ensures NextElementIs(ending, following)
    decreases |text|
  {
    var c, left := text[0], text[1..];
    var kind := EveryLetterHasAKind(cfg.optstring, c);
    hide OfKind;
    if left == "" && kind != Required {
      letters, ending := [c], Nothing;
    } else if kind == Flag || kind == NoOption {
      var l, e := SplitLetters(cfg, left, following);
      letters, ending := [c] + l, e;
      assert forall i :: 0 < i < |letters| ==> letters[i] == l[i - 1];
    } else {
      letters := "";
      ending := if left != "" then Attached(c, left)
        else if following.Some? then Separate(c, following.value) else Missing(c);
    }
  }

  lemma SplitName(text: string) returns (key: string, value: Option<string>)
    ensures '=' !in key && text == key + Behind(value)
  {
    var n := PrefixBefore(text, '=');
    key, value := text[..n], if n < |text| then Some(text[n + 1..]) else None;
  }

  lemma AmbiguousMeans(opts: seq<LongOption>, key: string)
    requires MatchLong(opts, key) == Ambiguous
    ensures forall j :: 0 <= j < |opts| ==> opts[j].name != key
    ensures exists i, j :: 0 <= i < j < |opts| && key <= opts[i].name && key <= opts[j].name
  {
    var i :| 0 <= i < |opts| && key <= opts[i].name;
    CountIsOne(opts, key, i);
    var j :| 0 <= j < |opts| && j != i && key <= opts[j].name;
    assert key <= opts[if i < j then i else j].name && key <= opts[if i < j then j else i].name;
  }

  lemma NoMatchMeans(opts: seq<LongOption>, key: string)
    requires MatchLong(opts, key) == NoMatch
    ensures forall j :: 0 <= j < |opts| ==> !(key <= opts[j].name)
  {
  }

  /** The long item for a name and its value. */
  lemma LongSpelling(cfg: Config, text: string, following: Option<string>) returns (item: Item)
    requires cfg.longopts.Some? && text != ""
    ensures Good(cfg, item) && !item.Operand? && !item.Letters? && item.dashes == "--" && LongText(item) == text
    ensures item.LongSeparate? ==> following == Some(item.text)
    ensures item.LongMissing? ==> following == None
  {
    hide MatchLong, Names;
    var opts := cfg.longopts.value;
    var key, value := SplitName(text);
    var m := MatchLong(opts, key);
    NoValue(key);
    match m
    case NoMatch =>
      NoMatchMeans(opts, key);
      item := LongWrong("--", key, value, UnknownName);
    case Ambiguous =>
      AmbiguousMeans(opts, key);
      item := LongWrong("--", key, value, AmbiguousName);
    case Unique(k) =>
      NamedIfMatched(opts, key, k);
      var hasArg := opts[k].hasArg;
      item := if value.Some? && hasArg == 0 then LongWrong("--", key, value, ArgumentNotAllowed)
        else if value.Some? || hasArg != 1 then Long("--", key, k, value)
        else if following.Some? then LongSeparate("--", key, k, following.value)
        else LongMissing("--", key, k);
  }

  lemma NamedIfMatched(opts: seq<LongOption>, key: string, k: nat)
    requires MatchLong(opts, key) == Unique(k)
    ensures Names(opts, key, k)
  {
    AbbreviationRule(opts, key, k);
  }

  /** The first item of a command line. */
  lemma FirstItem(cfg: Config, args: seq<string>) returns (item: Item)
    requires cfg.longopts.None? || !cfg.longOnly
    requires args != [] && args[0] != "--"
    ensures Good(cfg, item) && Spelled(item) <= args && (Misses(item) ==> args == Spelled(item))
    ensures item.Operand? <==> IsNonOption(args[0])
  {
    hide GoodLetters, Names;
    var cur, following := args[0], Following(args, 0);
    if IsNonOption(cur) {
      item := Operand(cur);
    } else if cfg.longopts.Some? && cur[1] == '-' {
      assert cur == "--" + cur[2..];
      item := LongSpelling(cfg, cur[2..], following);
      hide Good;
      SpelledLong(item);
    } else {
      var letters, ending := SplitLetters(cfg, cur[1..], following);
      assert cur == "-" + cur[1..];
      item := Letters(letters, ending);
    }
  }

  /** Without long_only every command line is a list of items, and what follows where options stop. */
  lemma {:induction false} EveryCommandLineIsSpelled(cfg: Config, ordering: Ordering, args: seq<string>)
    returns (items: seq<Item>, tail: seq<string>)
    requires cfg.longopts.None? || !cfg.longOnly
    ensures AllGood(cfg, items) && Stops(ordering, items, tail) && AllSpelled(items) + tail == args
    decreases |args|
  {
    hide Good, Spelled;
    if args == [] || args[0] == "--" || (ordering == RequireOrder && IsNonOption(args[0])) {
      items, tail := [], args;
    } else {
      var item := FirstItem(cfg, args);
      SpelledIsSomething(item);
      var n := |Spelled(item)|;
      var rest, more := EveryCommandLineIsSpelled(cfg, ordering, args[n..]);
      items, tail := [item] + rest, more;
      assert args == Spelled(item) + args[n..];
      NothingSpelled(rest);
      assert forall i :: 0 < i < |items| ==> items[i] == rest[i - 1];
    }
  }

  lemma SpelledIsSomething(item: Item)
    ensures Spelled(item) != []
  {
  }

  lemma NothingSpelled(items: seq<Item>)
    ensures AllSpelled(items) == [] ==> items == []
  {
    if items != [] { SpelledIsSomething(items[0]); }
  }

  /** The name that the friends server is started with, as its option string takes it. */
  lemma ServerNameIsRead(name: string)
    requires name != ""
    ensures RunAll(Config("n:o:h?", None, false), false, ["friendsd", "-n" + name]).events
      == [Event('n' as int, Some(name), Quiet, None, None, None)]
  {
    hide RunAll;
    var cfg, item := Config("n:o:h?", None, false), Letters("", Attached('n', name));
    assert "-" + ("" + ['n'] + name) == "-n" + name;
    assert At(cfg.optstring, 'n', 0) && Spelled(item) == ["-n" + name];
    assert OfKind(cfg.optstring, 'n', Required);
    assert [item][1..] == [] && ["friendsd"] + AllSpelled([item]) + [] == ["friendsd", "-n" + name];
    EverySpellingIsRead(cfg, false, "friendsd", [item], []);
  }
}
