/** The sscanf scanning that src/friendsd.c does on packets and on stored texts. */
module FriendsText {
  import opened Common
  import opened Decimal

  predicate IsSpace(c: char) {
    c in {' ', '\t', '\n', '\U{000B}', '\U{000C}', '\r'}
  }

  /** A word as "%s" reads it. */
  predicate IsWord(s: string) {
    s != "" && forall i :: 0 <= i < |s| ==> !IsSpace(s[i])
  }

  function SkipSpace(s: string): (t: string)
    ensures |t| <= |s| && (t != "" ==> !IsSpace(t[0]))
  {
    if s != "" && IsSpace(s[0]) then SkipSpace(s[1..]) else s
  }

  /** Leading characters that are not blank, at most width of them, and what follows. */
  function Span(s: string, width: nat): (r: (string, string))
    ensures s == r.0 + r.1 && |r.0| <= width && (r.0 != "" ==> IsWord(r.0))
  {
    if s == "" || width == 0 || IsSpace(s[0]) then ("", s)
    else
      var (w, rest) := Span(s[1..], width - 1);
      hide IsWord, IsSpace;
      LongerWord(s, w, rest);
      ([s[0]] + w, rest)
  }

  lemma LongerWord(s: string, w: string, rest: string)
    requires s != "" && !IsSpace(s[0]) && s[1..] == w + rest && (w != "" ==> IsWord(w))
    ensures s == [s[0]] + w + rest && IsWord([s[0]] + w)
  {
    hide IsSpace;
  }

  /** "%Ns": a word after blanks; "" when there is none. */
  function Word(s: string, width: nat): (r: (string, string))
    ensures |r.0| <= width && (r.0 != "" ==> IsWord(r.0))
  {
    Span(SkipSpace(s), width)
  }

  /** Several word directives in a row: the words converted before the first failure. */
  function Words(s: string, widths: seq<nat>): (ws: seq<string>)
    ensures |ws| <= |widths| && forall i :: 0 <= i < |ws| ==> IsWord(ws[i]) && |ws[i]| <= widths[i]
    decreases |widths|
  {
    if widths == [] then []
    else
      var (w, rest) := Word(s, widths[0]);
      if w == "" then [] else [w] + Words(rest, widths[1..])
  }

  /** "%[^\n]". */
  function Line(s: string): string {
    if s == "" || s[0] == '\n' then "" else [s[0]] + Line(s[1..])
  }

  predicate Contains(s: string, part: string) {
    exists i :: 0 <= i <= |s| && part <= s[i..]
  }

  // ---------------------------------------------------------------- packets

  datatype SndPacket = SndPacket(id: string, to: string, text: string)

  datatype PosPacket = PosPacket(id: string, timesec: string)

  /** "SND: %s %s %[^\n]" converting all three. */
  function ParseSnd(mesg: string): (r: Option<SndPacket>)
    ensures r.Some? ==> IsWord(r.value.id) && IsWord(r.value.to)
  {
    if !("SND: " <= mesg) then None
    else
      var (id, r1) := Word(mesg[4..], |mesg|);
      var (to, r2) := Word(r1, |mesg|);
      var text := Line(SkipSpace(r2));
      if id == "" || to == "" || text == "" then None else Some(SndPacket(id, to, text))
  }

  const QUERY := "queryqueryqueryqueryqu"

  /** "POS: %30s %40s %40s %40s %40s %10s %10s" converting all seven, for an id that is not a query. */
  function ParsePos(mesg: string): (r: Option<PosPacket>)
    ensures r.Some? ==> IsWord(r.value.id) && |r.value.id| <= 30
  {
    if !("POS: " <= mesg) then None
    else
      var ws := Words(mesg[4..], [30, 40, 40, 40, 40, 10, 10]);
      if |ws| == 7 && !Contains(ws[0], QUERY) then Some(PosPacket(ws[0], ws[4])) else None
  }

  /** "ACK: %s ". */
  function ParseAck(mesg: string): (r: Option<string>)
    ensures r.Some? ==> IsWord(r.value)
  {
    if !("ACK: " <= mesg) then None
    else
      var (id, _) := Word(mesg[4..], |mesg|);
      if id == "" then None else Some(id)
  }

  /** The second word of a stored text that starts with a mark: sscanf (txt, "POS: %s %s", ...). */
  function SecondWord(txt: string, mark: string): (r: Option<string>)
    ensures r.Some? ==> IsWord(r.value)
  {
    if !(mark <= txt) then None
    else
      var ws := Words(txt[|mark|..], [|txt|, |txt|]);
      if |ws| == 2 then Some(ws[1]) else None
  }

  /** atol: blanks, a sign, digits. */
  function Atol(s: string): int {
    Atoi(SkipSpace(s))
  }

  // ---------------------------------------------------------------- reading a text that was put together

  lemma {:induction false} SpanOfWord(w: string, rest: string, width: nat)
    requires IsWord(w) && |w| <= width && (rest == "" || IsSpace(rest[0]))
    ensures Span(w + rest, width) == (w, rest)
    decreases |w|
  {
    assert (w + rest)[1..] == w[1..] + rest;
    if |w| == 1 {
      assert w[1..] + rest == rest;
    } else {
      SpanOfWord(w[1..], rest, width - 1);
    }
    assert [w[0]] + w[1..] == w;
  }

  /** One blank, a word, and something blank after it. */
  lemma WordAfterBlank(w: string, rest: string, width: nat)
    requires IsWord(w) && |w| <= width && (rest == "" || IsSpace(rest[0]))
    ensures Word(" " + w + rest, width) == (w, rest)
  {
    var s := " " + w + rest;
    assert s[1..] == w + rest;
    assert SkipSpace(w + rest) == w + rest;
    SpanOfWord(w, rest, width);
  }
}
