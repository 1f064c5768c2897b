/**
 What each kind of packet leaves in the friends server's table, in terms of the packet's own words: a position, a
 message, and the confirmation that an acknowledgement makes.
 */
module FriendsdPackets {
  import opened Common
  import opened Decimal
  import opened FriendsText
  import opened Friendsd
  import opened FriendsdRuns

  // ---------------------------------------------------------------- words and what is between them

  /** One or more blanks, tabs, line ends and the like. */
  predicate Gap(s: string) {
    s != "" && forall i :: 0 <= i < |s| ==> s[i] in {' ', '\t', '\n', '\U{000B}', '\U{000C}', '\r'}
  }

  predicate Solid(s: string) {
    s != "" && forall i :: 0 <= i < |s| ==> s[i] !in {' ', '\t', '\n', '\U{000B}', '\U{000C}', '\r'}
  }

  /** Words, each with a gap in front. */
  function Spaced(gaps: seq<string>, words: seq<string>): string
    requires |gaps| == |words|
  {
    if words == [] then "" else gaps[0] + (words[0] + Spaced(gaps[1..], words[1..]))
  }

  predicate AllSpaced(gaps: seq<string>, words: seq<string>) {
    |gaps| == |words| && forall i :: 0 <= i < |words| ==> Gap(gaps[i]) && Solid(words[i])
  }

  /** Nothing, or something that starts with a gap. */
  predicate Loose(s: string) {
    s == "" || s[0] in {' ', '\t', '\n', '\U{000B}', '\U{000C}', '\r'}
  }

  lemma {:induction false} SkipGap(gap: string, rest: string)
    requires (gap == "" || Gap(gap)) && rest != "" && !Loose(rest)
    ensures SkipSpace(gap + rest) == rest
    decreases |gap|
  {
    if gap == "" {
      assert gap + rest == rest;
    } else {
      assert (gap + rest)[1..] == gap[1..] + rest;
      SkipGap(gap[1..], rest);
    }
  }

  lemma WordAfterGap(gap: string, word: string, rest: string, width: nat)
    requires Gap(gap) && Solid(word) && |word| <= width && Loose(rest)
    ensures Word(gap + (word + rest), width) == (word, rest)
  {
    assert (word + rest)[0] == word[0];
    SkipGap(gap, word + rest);
    SpanOfWord(word, rest, width);
  }

  lemma SpacedIsLoose(gaps: seq<string>, words: seq<string>, more: string)
    requires AllSpaced(gaps, words) && Loose(more)
    ensures Loose(Spaced(gaps, words) + more)
  {
    if words != [] { assert (Spaced(gaps, words) + more)[0] == gaps[0][0]; }
  }

  lemma {:induction false} WordsOfSpaced(gaps: seq<string>, words: seq<string>, more: string, widths: seq<nat>)
    requires AllSpaced(gaps, words) && Loose(more) && |widths| == |words|
    requires forall i :: 0 <= i < |words| ==> |words[i]| <= widths[i]
    ensures Words(Spaced(gaps, words) + more, widths) == words
    decreases |words|
  {
    hide Word, Loose, Gap, Solid;
    if words != [] {
      var left := Spaced(gaps[1..], words[1..]);
      assert Spaced(gaps, words) + more == gaps[0] + (words[0] + (left + more));
      SpacedIsLoose(gaps[1..], words[1..], more);
      WordAfterGap(gaps[0], words[0], left + more, widths[0]);
      WordsOfSpaced(gaps[1..], words[1..], more, widths[1..]);
      SolidIsSomething(words[0]);
      assert [words[0]] + words[1..] == words;
    }
  }

  lemma SolidIsSomething(s: string)
    requires Solid(s)
    ensures s != "" && IsWord(s)
  {
  }

  // ---------------------------------------------------------------- what is stored

  /** A week, after which data are too old; a message is dated so that it lasts two days. */
  const WEEK := 604800
  const TWO_DAYS := 172800

  /** The server's own entry, or one that is not older than a week. */
  predicate Young(e: Entry, now: int) {
    "SRV:" <= e.txt || now - e.times <= WEEK
  }

  /** e is stored instead of every entry with its id, or added; nothing else goes but what is too old. A table of
      499 other entries is emptied. */
  ghost predicate LeavesEntry(t: Table, r: Table, e: Entry, now: int) {
    && r.counter == t.counter && r.ackTail == t.ackTail
    && if |t.entries| >= 499 && forall i :: 0 <= i < |t.entries| ==> t.entries[i].id != e.id then r.entries == []
       else
         && (now - e.times <= WEEK ==> e in r.entries)
         && (forall x :: x in r.entries ==> x == e || (x in t.entries && x.id != e.id))
         && (forall x :: x in t.entries && x.id != e.id && Young(x, now) ==> x in r.entries)
  }

  lemma StoringLeavesEntry(serverid: string, t: Table, e: Entry, now: int)
    requires |e.id| <= ID_LENGTH && !("SRV:" <= e.txt)
    ensures LeavesEntry(t, t.(entries := Sweep(Stored(t.entries, e.id, e.txt, e.times), now)), e, now)
  {
    hide Refreshed, Sweep;
    var s := Stored(t.entries, e.id, e.txt, e.times);
    var r := Sweep(s, now);
    SweepKeepsIds(s, now);
    SweepKeepsYoung(s, now);
    if s != [] {
      StoredIsThere(t.entries, e);
      forall x | x in r ensures x == e || (x in t.entries && x.id != e.id) {
        var k :| 0 <= k < |r| && r[k] == x;
        assert r[k] in s;
      }
    } else {
      NothingSwept(now);
    }
  }

  lemma NothingSwept(now: int)
    ensures Sweep([], now) == []
  {
  }

  /** What storing leaves: the new entry, and all entries under other ids. */
  lemma StoredIsThere(entries: seq<Entry>, e: Entry)
    requires |e.id| <= ID_LENGTH && Stored(entries, e.id, e.txt, e.times) != []
    ensures var s := Stored(entries, e.id, e.txt, e.times);
      e in s && forall x :: x in s <==> x == e || (x in entries && x.id != e.id)
  {
    var s := Stored(entries, e.id, e.txt, e.times);
    if HasId(entries, e.id) {
      var k :| 0 <= k < |entries| && entries[k].id == e.id;
      assert s[k] == e;
      forall x | x in entries && x.id != e.id ensures x in s {
        var i :| 0 <= i < |entries| && entries[i] == x;
        assert s[i] == x;
      }
    }
  }

  /** No sweep removes the server's own entry, nor one that is not older than a week. */
  lemma {:induction false} SweepKeepsYoung(s: seq<Entry>, now: int)
    ensures forall x :: x in s && Young(x, now) ==> x in Sweep(s, now)
    decreases |s|
  {
    if s == [] {
    } else if !Expired(s[0], now) {
      SweepKeepsYoung(s[1..], now);
      assert s == [s[0]] + s[1..];
    } else if |s| > 1 {
      SweepKeepsYoung(s[2..], now);
      assert s == [s[0], s[1]] + s[2..];
    }
  }

  // ---------------------------------------------------------------- a position

  /** Widths of id, name, latitude, longitude, time, speed, course. */
  const POS_WIDTHS: seq<nat> := [30, 40, 40, 40, 40, 10, 10]

  /** A position packet's words: seven, none too long, the fifth being the time n. */
  predicate PositionWords(gaps: seq<string>, words: seq<string>, more: string, n: int) {
    && AllSpaced(gaps, words) && |words| == 7 && Loose(more) && gaps[0][0] == ' '
    && (forall i :: 0 <= i < 7 ==> |words[i]| <= POS_WIDTHS[i])
    && words[4] == IntText(n)
  }

  lemma PositionIsParsed(gaps: seq<string>, words: seq<string>, more: string, n: int)
    requires PositionWords(gaps, words, more, n)
    ensures var mesg := "POS:" + Spaced(gaps, words) + more;
      ParsePos(mesg) == if Contains(words[0], QUERY) then None else Some(PosPacket(words[0], words[4]))
  {
    hide ParsePos, Words, Spaced, Contains, Gap, Solid, Loose;
    WordsOfSpaced(gaps, words, more, POS_WIDTHS);
    SpacedStarts(gaps, words, more);
    var rest := Spaced(gaps, words) + more;
    MarkInFront("POS:", rest);
    InOnePiece("POS:", Spaced(gaps, words), more);
    SevenWords("POS:" + rest, words);
  }

  lemma SpacedStarts(gaps: seq<string>, words: seq<string>, more: string)
    requires AllSpaced(gaps, words) && words != []
    ensures gaps[0] != "" && Spaced(gaps, words) + more != "" && (Spaced(gaps, words) + more)[0] == gaps[0][0]
  {
  }

  lemma InOnePiece(a: string, b: string, c: string)
    ensures a + b + c == a + (b + c)
  {
  }

  lemma SevenWords(mesg: string, words: seq<string>)
    requires "POS: " <= mesg && Words(mesg[4..], [30, 40, 40, 40, 40, 10, 10]) == words && |words| == 7
    ensures ParsePos(mesg) == if Contains(words[0], QUERY) then None else Some(PosPacket(words[0], words[4]))
  {
    hide Words, Contains;
  }

  lemma MarkInFront(mark: string, rest: string)
    requires |mark| == 4 && rest != "" && rest[0] == ' '
    ensures (mark + rest)[4..] == rest && mark + " " <= mark + rest
  {
    assert (mark + rest)[..5] == mark + " ";
  }

  lemma TimeIsRead(n: int)
    ensures Atol(IntText(n)) == n
  {
    hide NatText;
    AtoiPrinted(n);
    assert IntText(n) != "" && (IsDigit(IntText(n)[0]) || IntText(n)[0] == '-');
    assert !IsSpace(IntText(n)[0]);
  }

  /**
   A position is stored under the first word, as far as 200 characters go, with the number in the fifth
   word as its time: it is too old exactly a week after that. A query stores nothing.
   */
  lemma PositionIsStored(serverid: string, t: Table, gaps: seq<string>, words: seq<string>, more: string, n: int,
                         now: int, garbage: string)
    requires PositionWords(gaps, words, more, n)
    ensures var mesg := "POS:" + Spaced(gaps, words) + more;
      var r := Received(serverid, t, Packet(mesg, now, garbage));
      var e := Entry(words[0], if |mesg| <= 200 then mesg else mesg[..200], n);
      if exists i :: 0 <= i <= |words[0]| && "queryqueryqueryqueryqu" <= words[0][i..]
      then r == t.(entries := Sweep(t.entries, now))
      else LeavesEntry(t, r, e, now) && (forall later :: Expired(e, later) <==> later - n > WEEK)
  {
    hide Sweep, ParsePos, ParseSnd, ParseAck, Stored, Atol, IntText, Spaced, LeavesEntry;
    var mesg := "POS:" + Spaced(gaps, words) + more;
    PositionIsParsed(gaps, words, more, n);
    TimeIsRead(n);
    OneKind(mesg);
    NoOtherKind(mesg);
    var id, txt := words[0], if |mesg| <= 200 then mesg else mesg[..200];
    assert Contains(id, QUERY) <==> exists i :: 0 <= i <= |id| && "queryqueryqueryqueryqu" <= id[i..];
    assert mesg[0] == 'P' && txt[0] == 'P';
    if !Contains(id, QUERY) { StoringLeavesEntry(serverid, t, Entry(id, txt, n), now); }
  }

  lemma NoOtherKind(mesg: string)
    ensures mesg != "" && mesg[0] == 'P' ==> ParseSnd(mesg).None? && ParseAck(mesg).None?
    ensures mesg != "" && mesg[0] == 'S' ==> ParsePos(mesg).None? && ParseAck(mesg).None?
    ensures mesg != "" && mesg[0] == 'A' ==> ParsePos(mesg).None? && ParseSnd(mesg).None?
  {
    hide Word, Words, Line, Contains;
  }

  // ---------------------------------------------------------------- a message

  /** A message packet: an id, an addressee, and a text that is not blank at its start. */
  predicate MessageWords(g: string, id: string, h: string, to: string, k: string, text: string) {
    && Gap(g) && g[0] == ' ' && Solid(id) && |id| <= 30 && Gap(h) && Solid(to) && Gap(k) && text != "" && !Loose(text)
  }

  lemma MessageIsParsed(g: string, id: string, h: string, to: string, k: string, text: string)
    requires MessageWords(g, id, h, to, k, text)
    ensures ParseSnd("SND:" + (g + (id + (h + (to + (k + text)))))) == Some(SndPacket(id, to, Line(text)))
  {
    var mesg := "SND:" + (g + (id + (h + (to + (k + text)))));
    MarkInFront("SND:", g + (id + (h + (to + (k + text)))));
    assert Loose(h + (to + (k + text))) && Loose(k + text);
    WordAfterGap(g, id, h + (to + (k + text)), |mesg|);
    WordAfterGap(h, to, k + text, |mesg|);
    SkipGap(k, text);
    assert Line(text) != "";
    hide Word, SkipSpace, Line;
  }

  /** A message is stored whole under its id, and is too old exactly two days after that. */
  lemma MessageIsStored(serverid: string, t: Table, g: string, id: string, h: string, to: string, k: string,
                        text: string, now: int, garbage: string)
    requires MessageWords(g, id, h, to, k, text)
    ensures var mesg := "SND:" + (g + (id + (h + (to + (k + text)))));
      var r := Received(serverid, t, Packet(mesg, now, garbage));
      var e := Entry(id, mesg, now - WEEK + TWO_DAYS);
      LeavesEntry(t, r, e, now) && forall later :: Expired(e, later) <==> later - now > TWO_DAYS
  {
    hide Sweep, ParsePos, ParseSnd, ParseAck, Stored, LeavesEntry;
    var mesg := "SND:" + (g + (id + (h + (to + (k + text)))));
    MessageIsParsed(g, id, h, to, k, text);
    NoOtherKind(mesg);
    assert mesg[0] == 'S' && mesg[1] == 'N';
    StoringLeavesEntry(serverid, t, Entry(id, mesg, now - WEEK + TWO_DAYS), now);
  }

  // ---------------------------------------------------------------- an acknowledgement

  lemma AckIsParsed(g: string, id: string, more: string)
    requires Gap(g) && g[0] == ' ' && Solid(id) && Loose(more)
    ensures ParseAck("ACK:" + (g + (id + more))) == Some(id)
  {
    var mesg := "ACK:" + (g + (id + more));
    MarkInFront("ACK:", g + (id + more));
    WordAfterGap(g, id, more, |mesg|);
    hide Word;
  }

  /** The second word of a text that is stored. */
  lemma SecondWordIs(mark: string, g: string, first: string, h: string, second: string, more: string)
    requires Gap(g) && Solid(first) && Gap(h) && Solid(second) && Loose(more)
    ensures SecondWord(mark + (g + (first + (h + (second + more)))), mark) == Some(second)
  {
    var txt := mark + (g + (first + (h + (second + more))));
    var gaps, words := [g, h], [first, second];
    assert txt[|mark|..] == g + (first + (h + (second + more)));
    assert gaps[1..] == [h] && words[1..] == [second] && [h][1..] == [] && [second][1..] == [];
    assert Spaced(gaps, words) + more == g + (first + (h + (second + more))) by {
      assert Spaced([h], [second]) == h + (second + "");
      assert Spaced(gaps, words) == g + (first + (h + (second + "")));
    }
    WordsOfSpaced(gaps, words, more, [|txt|, |txt|]);
    hide Words;
  }

  /**
   From the three packets to the confirmation: a position of the sender and a message with the same id
   tail are stored, the message's id is acknowledged, and the entry becomes a text that names the sender
   as addressee and the message's addressee as reader, under the next number and the server's tail.
   */
  lemma ConfirmationIsMade(serverid: string, t: Table, j: nat, k: nat, g: string, pid: string, h: string,
                           name: string, posmore: string, id: string, to: string, mesmore: string, ack: string,
                           now: int, garbage: string)
    requires ServerIdOk(serverid) && TableOk(serverid, t) && t.counter <= INT_MAX
    requires j < |t.entries| && k < |t.entries| && t.entries[k].id == id && |id| >= 5 && ClientId(serverid, id)
    requires Gap(g) && g[0] == ' ' && Solid(pid) && Gap(h) && Solid(name) && Solid(id) && Solid(to)
    requires Loose(posmore) && Loose(mesmore) && Loose(ack)
    requires t.entries[j].txt == "POS:" + (g + (pid + (h + (name + posmore))))
    requires t.entries[k].txt == "SND:" + (g + (id + (h + (to + mesmore))))
    requires |t.entries[j].id| >= 5 && t.entries[j].id[5..] == id[5..]
    requires forall i :: 0 <= i < j ==> (if |t.entries[i].id| >= 5 then t.entries[i].id[5..] else "") != id[5..]
    ensures var r := Received(serverid, t, Packet("ACK:" + (g + (id + ack)), now, garbage));
      var sid := "MSG" + PaddedText(t.counter, 2) + serverid[5..];
      var e := Entry(sid,
        "SND: " + sid + " " + name + " \nConfirmation:\n The user " + to + " has read your message!",
        now - WEEK + TWO_DAYS);
      && r.counter == t.counter + 1 && e in r.entries
      && (forall x :: x in r.entries ==> x.id != id && (x == e || x in t.entries))
      && (forall x :: x in t.entries && x.id != id && Young(x, now) ==> x in r.entries)
  {
    hide Gap, Solid, Loose, ParseAck, ParseSnd, ParsePos, Acked, Sweep, SecondWord, KnownId, ClientId, ServerIdOk,
      Confirmation, PaddedText;
    var mesg := "ACK:" + (g + (id + ack));
    AckIsParsed(g, id, ack);
    NoOtherKind(mesg);
    assert mesg[0] == 'A';
    SecondWordIs("POS:", g, pid, h, name, posmore);
    SecondWordIs("SND:", g, id, h, to, mesmore);
    FirstIs(t.entries, id[5..], j);
    AckConfirmsMessage(serverid, t, k, garbage, now);
    ConfirmationNamesSender(serverid, t, k, garbage, now);
    var a := Acked(serverid, t, id, garbage, now);
    ConfirmationSpelled(serverid, t.counter, name, to);
    assert a.entries[k] in a.entries;
    SweepKeepsYoung(a.entries, now);
    SweepKeepsIds(a.entries, now);
    SweptOnly(t, a, k, id, now);
  }

  lemma FirstIs(entries: seq<Entry>, tail: string, j: nat)
    requires j < |entries| && |entries[j].id| >= 5 && entries[j].id[5..] == tail
    requires forall i :: 0 <= i < j ==> (if |entries[i].id| >= 5 then entries[i].id[5..] else "") != tail
    ensures FirstWithTail(entries, tail) == j
  {
  }

  lemma ConfirmationSpelled(serverid: string, n: nat, name: string, to: string)
    requires ServerIdOk(serverid)
    ensures MessageId(serverid, n) == "MSG" + PaddedText(n, 2) + serverid[5..]
    ensures var sid := MessageId(serverid, n);
      Confirmation(sid, name, to)
        == "SND: " + sid + " " + name + " \nConfirmation:\n The user " + to + " has read your message!"
  {
    hide PaddedText;
  }

  lemma SweptOnly(t: Table, a: Table, k: nat, id: string, now: int)
    requires |a.entries| == |t.entries| && k < |t.entries| && !Names(a, id)
    requires forall i :: 0 <= i < |t.entries| && i != k ==> a.entries[i] == t.entries[i]
    requires t.entries[k].id == id
    ensures forall x :: x in Sweep(a.entries, now) ==> x.id != id && (x == a.entries[k] || x in t.entries)
    ensures forall x :: x in t.entries && x.id != id ==> x in a.entries
  {
    hide Sweep;
    SweepKeepsIds(a.entries, now);
    var r := Sweep(a.entries, now);
    forall x | x in r ensures x.id != id && (x == a.entries[k] || x in t.entries) {
      var i :| 0 <= i < |r| && r[i] == x;
      assert r[i] in a.entries;
      var l :| 0 <= l < |a.entries| && a.entries[l] == x;
    }
    forall x | x in t.entries && x.id != id ensures x in a.entries {
      var l :| 0 <= l < |t.entries| && t.entries[l] == x;
      assert a.entries[l] == x;
    }
  }

  // ---------------------------------------------------------------- what is ignored

  predicate Blank(s: string) {
    s == "" || Gap(s)
  }

  lemma {:induction false} BlankHasNoWord(s: string, width: nat)
    requires Blank(s)
    ensures SkipSpace(s) == "" && Word(s, width) == ("", "")
  {
    if s != "" { BlankHasNoWord(s[1..], width); }
  }

  /** Words that end before the directives do. */
  lemma {:induction false} TooFewWords(gaps: seq<string>, words: seq<string>, blank: string, widths: seq<nat>)
    requires AllSpaced(gaps, words) && Blank(blank) && |words| < |widths|
    requires forall i :: 0 <= i < |words| ==> |words[i]| <= widths[i]
    ensures Words(Spaced(gaps, words) + blank, widths) == words
    decreases |words|
  {
    hide Word, Loose, Gap, Solid;
    if words == [] {
      assert Spaced(gaps, words) + blank == blank;
      BlankHasNoWord(blank, widths[0]);
    } else {
      var left := Spaced(gaps[1..], words[1..]);
      assert Spaced(gaps, words) + blank == gaps[0] + (words[0] + (left + blank));
      BlankIsLoose(blank);
      SpacedIsLoose(gaps[1..], words[1..], blank);
      WordAfterGap(gaps[0], words[0], left + blank, widths[0]);
      TooFewWords(gaps[1..], words[1..], blank, widths[1..]);
      SolidIsSomething(words[0]);
      assert [words[0]] + words[1..] == words;
    }
  }

  lemma BlankIsLoose(s: string)
    requires Blank(s)
    ensures Loose(s)
  {
  }

  /** A position of fewer than seven words stores nothing. */
  lemma ShortPositionIsIgnored(serverid: string, t: Table, gaps: seq<string>, words: seq<string>, blank: string,
                               now: int, garbage: string)
    requires AllSpaced(gaps, words) && Blank(blank) && |words| < 7
    requires forall i :: 0 <= i < |words| ==> |words[i]| <= POS_WIDTHS[i]
    ensures var p := Packet("POS:" + Spaced(gaps, words) + blank, now, garbage);
      Received(serverid, t, p) == t.(entries := Sweep(t.entries, now))
  {
    hide Words, Spaced, Sweep, ParseSnd, ParsePos, ParseAck, Gap, Solid;
    var rest := Spaced(gaps, words) + blank;
    TooFewWords(gaps, words, blank, POS_WIDTHS);
    var mesg := "POS:" + Spaced(gaps, words) + blank;
    InOnePiece("POS:", Spaced(gaps, words), blank);
    BehindMark("POS:", rest);
    NoOtherKind(mesg);
    NotSevenWords(mesg);
  }

  lemma BehindMark(mark: string, rest: string)
    requires |mark| == 4
    ensures (mark + rest)[4..] == rest && (mark + rest)[0] == mark[0]
  {
  }

  lemma NotSevenWords(mesg: string)
    requires |mesg| >= 4 && |Words(mesg[4..], [30, 40, 40, 40, 40, 10, 10])| < 7
    ensures ParsePos(mesg) == None
  {
    hide Words, Contains;
  }

  /** A message needs an id, an addressee and a text, each behind a gap. */
  lemma ShortMessageIsIgnored(serverid: string, t: Table, gaps: seq<string>, words: seq<string>, blank: string,
                              now: int, garbage: string)
    requires AllSpaced(gaps, words) && Blank(blank) && |words| < 3
    ensures var p := Packet("SND:" + Spaced(gaps, words) + blank, now, garbage);
      Received(serverid, t, p) == t.(entries := Sweep(t.entries, now))
  {
    var mesg, rest := "SND:" + Spaced(gaps, words) + blank, Spaced(gaps, words) + blank;
    assert mesg == "SND:" + rest && mesg[4..] == rest && mesg[0] == 'S';
    NoOtherKind(mesg);
    NoMessage(mesg, gaps, words, blank);
    hide ParseSnd, ParsePos, ParseAck, Sweep;
  }

  lemma NoMessage(mesg: string, gaps: seq<string>, words: seq<string>, blank: string)
    requires AllSpaced(gaps, words) && Blank(blank) && |words| < 3
    requires |mesg| > 4 ==> mesg[4..] == Spaced(gaps, words) + blank
    ensures ParseSnd(mesg) == None
  {
    hide Word, Loose, Gap, Solid, ParseSnd, SkipSpace;
    var n := |mesg|;
    BlankHasNoWord(blank, n);
    BlankIsLoose(blank);
    NothingInLine();
    if words == [] || n <= 4 {
      assert n > 4 ==> mesg[4..] == blank;
      NoThirdPart(mesg, "", "", "", "");
    } else {
      var left := Spaced(gaps[1..], words[1..]);
      assert mesg[4..] == gaps[0] + (words[0] + (left + blank));
      SpacedIsLoose(gaps[1..], words[1..], blank);
      WordAfterGap(gaps[0], words[0], left + blank, n);
      if |words| == 1 {
        assert left + blank == blank;
        NoThirdPart(mesg, words[0], blank, "", "");
      } else {
        assert gaps[1..] == [gaps[1]] && words[1..] == [words[1]];
        OneSpaced(gaps[1], words[1]);
        assert left + blank == gaps[1] + (words[1] + blank);
        WordAfterGap(gaps[1], words[1], blank, n);
        NoThirdPart(mesg, words[0], left + blank, words[1], blank);
      }
    }
  }

  /** What the three directives of a message find, where one of them finds nothing. */
  lemma NoThirdPart(mesg: string, id: string, r: string, to: string, rest: string)
    requires |mesg| > 4 ==> Word(mesg[4..], |mesg|) == (id, r)
    requires id != "" ==> Word(r, |mesg|) == (to, rest)
    requires id != "" && to != "" ==> Line(SkipSpace(rest)) == ""
    ensures ParseSnd(mesg) == None
  {
    hide Word, SkipSpace, Line;
  }

  lemma OneSpaced(g: string, word: string)
    ensures Spaced([g], [word]) == g + word
  {
    assert [g][1..] == [] && [word][1..] == [];
    assert word + "" == word;
  }

  lemma NothingInLine()
    ensures Line("") == ""
  {
  }

  /** Any other packet stores nothing. */
  lemma OtherPacketIsIgnored(serverid: string, t: Table, p: Packet)
    requires !("POS: " <= p.mesg) && !("SND: " <= p.mesg) && !("ACK: " <= p.mesg)
    ensures Received(serverid, t, p) == t.(entries := Sweep(t.entries, p.now))
  {
    hide Word, Words, Sweep;
  }
}
