/**
 Two runs of packets: one that reaches confirmation number 100, whose ACK begets another confirmation, and one in
 which a message is read and deleted without a confirmation.
 */
module FriendsdHundred {
  import opened Common
  import opened Decimal
  import opened FriendsText
  import opened Friendsd
  import opened FriendsdRuns
  import opened FriendsdMessages

  const SERVER := "abcdefgh"
  const CLIENT := "client"
  const SEND := Packet("SND: " + CLIENT + " s hi", 0, "")
  const READ := Packet("ACK: " + CLIENT, 0, "")

  /** A message is sent and acknowledged, n times over. */
  function Rounds(n: nat): (packets: seq<Packet>)
    ensures |packets| == 2 * n
  {
    if n == 0 then [] else Rounds(n - 1) + [SEND] + [READ]
  }

  // ---------------------------------------------------------------- the packets' texts

  lemma AckText(id: string)
    requires IsWord(id)
    ensures ParseAck("ACK: " + id) == Some(id)
  {
    hide Word, IsWord;
    var mesg := "ACK: " + id;
    assert mesg[4..] == " " + id + "" && mesg[..5] == "ACK: ";
    WordAfterBlank(id, "", |mesg|);
    WordsAreNotEmpty(id, id);
  }

  lemma RoundTexts()
    ensures ParseAck(READ.mesg) == Some(CLIENT) && ParseSnd(SEND.mesg).Some? && ParseSnd(SEND.mesg).value.id == CLIENT
  {
    hide Word, Line, SkipSpace;
    AckText(CLIENT);
    SendText(CLIENT);
  }

  lemma SendText(id: string)
    requires IsWord(id)
    ensures var snd := ParseSnd("SND: " + id + " s hi"); snd.Some? && snd.value.id == id
  {
    hide Word, Line, SkipSpace;
    var mesg := "SND: " + id + " s hi";
    assert mesg[4..] == " " + id + " s hi" && " s hi" == " " + "s" + " hi" && mesg[..5] == "SND: ";
    WordAfterBlank(id, " s hi", |mesg|);
    WordAfterBlank("s", " hi", |mesg|);
    LastWord();
  }

  lemma LastWord()
    ensures Line(SkipSpace(" hi")) != ""
  {
    assert " hi"[1..] == "hi" && SkipSpace("hi") == "hi";
  }

  lemma ServerFacts()
    ensures ServerIdOk(SERVER) && Tail(SERVER) == "fgh" && ClientId(SERVER, CLIENT) && SERVER != CLIENT
  {
    assert SERVER[0] == 'a';
  }

  lemma GoodRoundPackets()
    ensures GoodPacket(SERVER, SEND) && GoodPacket(SERVER, READ)
  {
    hide ParseSnd, ParsePos, ParseAck;
    RoundTexts();
    ServerFacts();
    OneKind(SEND.mesg);
    OneKind(READ.mesg);
  }

  // ---------------------------------------------------------------- the table after n rounds

  /** The server's own entry, then the confirmations in order, none of them expired at time 0. */
  ghost predicate AfterRounds(t: Table, n: nat) {
    && t.counter == n && |t.entries| == n + 1 && TableOk(SERVER, t)
    && t.entries[0].id == SERVER
    && (forall i :: 0 <= i < n ==> t.entries[i + 1].id == MessageId(SERVER, i))
    && (forall i :: 0 <= i <= n ==> !Expired(t.entries[i], 0))
  }

  lemma {:induction false} NothingSwept(s: seq<Entry>, now: int)
    requires forall i :: 0 <= i < |s| ==> !Expired(s[i], now)
    ensures Sweep(s, now) == s
  {
    hide Expired;
    if s != [] { NothingSwept(s[1..], now); }
  }

  lemma FreshMessage(id: string, txt: string)
    ensures !Expired(Entry(id, txt, MessageTime(0)), 0)
  {
  }

  lemma ReceivedSend(t: Table, id: string, mesg: string)
    requires ParseSnd(mesg).Some? && ParseSnd(mesg).value.id == id && |id| <= ID_LENGTH
    requires !HasId(t.entries, id) && |t.entries| + 1 < MAXLISTENTRIES
    requires forall i :: 0 <= i < |t.entries| ==> !Expired(t.entries[i], 0)
    ensures Received(SERVER, t, Packet(mesg, 0, "")) == t.(entries := t.entries + [Entry(id, mesg, MessageTime(0))])
  {
    hide ParseSnd, ParsePos, ParseAck, Sweep, Expired;
    OneKind(mesg);
    FreshMessage(id, mesg);
    NothingSwept(t.entries + [Entry(id, mesg, MessageTime(0))], 0);
  }

  lemma SendStep(t: Table, n: nat)
    requires AfterRounds(t, n) && n < 200
    ensures Received(SERVER, t, SEND) == t.(entries := t.entries + [Entry(CLIENT, SEND.mesg, MessageTime(0))])
  {
    hide ParseSnd, Received, TableOk, Expired, MessageId;
    RoundTexts();
    forall i | 0 <= i < |t.entries| ensures t.entries[i].id != CLIENT {
      if i > 0 { MessageIsNotClient(i - 1); }
    }
    ReceivedSend(t, CLIENT, SEND.mesg);
  }

  lemma MessageIsNotClient(n: nat)
    ensures MessageId(SERVER, n) != CLIENT
  {
    assert MessageId(SERVER, n)[..3] == "MSG";
  }

  lemma ReadStep(t: Table, n: nat)
    requires AfterRounds(t, n) && n < 200
    ensures AfterRounds(Received(SERVER, Received(SERVER, t, SEND), READ), n + 1)
  {
    hide ParseSnd, ParsePos, ParseAck, Sweep, TableOk, Expired, MessageId, Acked, Received, KnownId, ClientId;
    SendStep(t, n);
    RoundTexts();
    ServerFacts();
    GoodRoundPackets();
    PacketKeepsOk(SERVER, t, SEND);
    var sent := Received(SERVER, t, SEND);
    AckConfirmsMessage(SERVER, sent, n + 1, "", 0);
    var r := Acked(SERVER, sent, CLIENT, "", 0);
    ReceivedAck(sent, CLIENT, READ.mesg);
    PacketKeepsOk(SERVER, sent, READ);
    FreshMessage(r.entries[n + 1].id, r.entries[n + 1].txt);
    forall i | 0 <= i < |r.entries| ensures !Expired(r.entries[i], 0) {
      if i <= n { assert r.entries[i] == t.entries[i]; }
    }
    NothingSwept(r.entries, 0);
  }

  lemma ReceivedAck(t: Table, ackid: string, mesg: string)
    requires ParseAck(mesg) == Some(ackid)
    ensures var r := Acked(SERVER, t, ackid, "", 0);
      Received(SERVER, t, Packet(mesg, 0, "")) == r.(entries := Sweep(r.entries, 0))
  {
    hide ParseSnd, ParsePos, ParseAck, Sweep, Acked;
    OneKind(mesg);
  }

  lemma RunStep(t: Table, before: seq<Packet>, p: Packet)
    ensures RunOf(SERVER, t, before + [p]) == Received(SERVER, RunOf(SERVER, t, before), p)
    ensures AllAccepted(before + [p]) == AllAccepted(before) + Accepted(p)
  {
    hide Received, Accepted;
    assert (before + [p])[..|before|] == before;
  }

  lemma {:induction false} RoundsReach(n: nat, stack: string)
    requires n <= 200
    ensures AfterRounds(RunOf(SERVER, Start(SERVER, "", 0, stack), Rounds(n)), n)
    ensures AllAccepted(Rounds(n)) == n
  {
    hide Received, Accepted, AfterRounds, RunOf, AllAccepted;
    var start := Start(SERVER, "", 0, stack);
    if n == 0 {
      StartRounds(stack);
    } else {
      RoundsReach(n - 1, stack);
      var before := Rounds(n - 1);
      RunStep(start, before, SEND);
      RunStep(start, before + [SEND], READ);
      ReadStep(RunOf(SERVER, start, before), n - 1);
      RoundAccepts();
    }
  }

  lemma RoundAccepts()
    ensures Accepted(SEND) == 1 && Accepted(READ) == 0
  {
    hide ParseSnd, ParseAck;
    RoundTexts();
    OneKind(READ.mesg);
  }

  lemma StartRounds(stack: string)
    ensures AfterRounds(RunOf(SERVER, Start(SERVER, "", 0, stack), []), 0) && AllAccepted([]) == 0
  {
    hide TableOk;
    InitialTableOk(SERVER, "", 0, stack);
    assert "SRV: " + "" == "SRV: " && "SRV: "[..4] == "SRV:";
  }

  lemma {:induction false} RoundsAreRounds(n: nat, i: nat)
    requires i < 2 * n
    ensures Rounds(n)[i] in {SEND, READ}
  {
    if i < 2 * (n - 1) { RoundsAreRounds(n - 1, i); }
  }

  /** Up to a hundred rounds meet the conditions on packets, and use them up: as many confirmations as
      messages. */
  lemma RoundsQualify(n: nat, stack: string)
    requires n <= 100
    ensures forall i :: 0 <= i < |Rounds(n)| ==> GoodPacket(SERVER, Rounds(n)[i])
    ensures AcksAvoidPositions(Rounds(n)) && AllAccepted(Rounds(n)) <= 100
    ensures RunOf(SERVER, Start(SERVER, "", 0, stack), Rounds(n)).counter == AllAccepted(Rounds(n))
  {
    hide GoodPacket, AllAccepted, RunOf, Rounds, ParsePos, ParseAck, ParseSnd;
    GoodRoundPackets();
    RoundTexts();
    OneKind(SEND.mesg);
    OneKind(READ.mesg);
    forall i | 0 <= i < |Rounds(n)| ensures Rounds(n)[i] in {SEND, READ} { RoundsAreRounds(n, i); }
    RoundsReach(n, stack);
  }

  // ---------------------------------------------------------------- one confirmation too many

  lemma HundredIsWord()
    ensures IsWord(MessageId(SERVER, 100))
  {
    hide PaddedText;
    ServerFacts();
    var id, digits := MessageId(SERVER, 100), PaddedText(100, 2);
    assert forall i :: 0 <= i < |digits| ==> IsDigit(digits[i]);
    assert id == "MSG" + digits + "fgh";
  }

  /**
   A hundred and one messages sent and acknowledged, and then an ACK of confirmation number 100, the
   hundred-and-first: the server has made one confirmation more than it accepted messages.
   */
  lemma OneConfirmationTooMany(stack: string)
    ensures var packets := Rounds(101) + [Packet("ACK: " + MessageId(SERVER, 100), 0, "")];
      var r := RunOf(SERVER, Start(SERVER, "", 0, stack), packets);
      r.counter == 102 && AllAccepted(packets) == 101
  {
    hide Received, Accepted, AfterRounds, RunOf, AllAccepted, MessageId, ParseAck, Sweep, Acked;
    var start := Start(SERVER, "", 0, stack);
    var last := Packet("ACK: " + MessageId(SERVER, 100), 0, "");
    RoundsReach(101, stack);
    RunStep(start, Rounds(101), last);
    HundredIsWord();
    AckText(MessageId(SERVER, 100));
    LastAck(RunOf(SERVER, start, Rounds(101)), last);
  }

  lemma LastAck(t: Table, last: Packet)
    requires AfterRounds(t, 101) && last == Packet(last.mesg, 0, "")
      && ParseAck(last.mesg) == Some(MessageId(SERVER, 100))
    ensures Received(SERVER, t, last).counter == 102 && Accepted(last) == 0
  {
    hide Received, MessageId, ParseAck, ParseSnd, Sweep, Acked, TableOk, Expired;
    ServerFacts();
    OneKind(last.mesg);
    assert t.entries[100 + 1].id == MessageId(SERVER, 100);
    AckOfConfirmation(SERVER, t, 101, 100, "", 0);
    ReceivedAck(t, MessageId(SERVER, 100), last.mesg);
  }

  // ---------------------------------------------------------------- one confirmation too few

  const OWN := Packet("ACK: " + "MSG00fgh", 0, "")
  const SHORT_SEND := Packet("SND: " + "c" + " s hi", 0, "")
  const SHORT_READ := Packet("ACK: " + "c", 0, "")

  lemma ShortTexts()
    ensures ParseAck(OWN.mesg) == Some("MSG00fgh") && ParseAck(SHORT_READ.mesg) == Some("c")
    ensures ParseSnd(SHORT_SEND.mesg).Some? && ParseSnd(SHORT_SEND.mesg).value.id == "c"
  {
    hide Word, Line, SkipSpace;
    AckText("c");
    AckText("MSG00fgh");
    SendText("c");
  }

  lemma ShortPackets()
    ensures forall p :: p in {OWN, SHORT_SEND, SHORT_READ} ==> GoodPacket(SERVER, p)
    ensures Accepted(OWN) == 0 && Accepted(SHORT_SEND) == 1 && Accepted(SHORT_READ) == 0
  {
    hide ParseSnd, ParsePos, ParseAck;
    ShortTexts();
    assert ClientId(SERVER, "c");
    OneKind(OWN.mesg);
    OneKind(SHORT_SEND.mesg);
    OneKind(SHORT_READ.mesg);
  }

  lemma ServerStays(line: string)
    ensures !Expired(Entry(SERVER, "SRV: " + line, 0), 0)
  {
  }

  /** After an ACK for the server, the message of a client with a short id is accepted, read, and never confirmed. */
  lemma OneConfirmationTooFew(line: string, stack: string)
    ensures var start := Start(SERVER, line, 0, stack);
      var packets := [OWN] + [SHORT_SEND] + [SHORT_READ];
      && (forall i :: 0 <= i < |packets| ==> GoodPacket(SERVER, packets[i]))
      && RunOf(SERVER, start, packets) == start.(ackTail := Tail(SERVER)) && AllAccepted(packets) == 1
  {
    hide ParseSnd, ParsePos, ParseAck, Sweep, Expired, AllAccepted, RunOf, Received, Acked, GoodPacket, Accepted;
    ShortTexts();
    ShortPackets();
    ServerStays(line);
    var start := Start(SERVER, line, 0, stack);
    var heard := start.(ackTail := Tail(SERVER));
    RunStep(start, [], OWN);
    RunStep(start, [] + [OWN], SHORT_SEND);
    RunStep(start, [] + [OWN] + [SHORT_SEND], SHORT_READ);
    assert [] + [OWN] == [OWN];
    NothingRun(start);
    AckNamesNone(SERVER, start, "MSG00fgh", "", 0);
    ReceivedAck(start, "MSG00fgh", OWN.mesg);
    NothingSwept(start.entries, 0);
    ReceivedSend(heard, "c", SHORT_SEND.mesg);
    var sent := Received(SERVER, heard, SHORT_SEND);
    ServerFacts();
    AckNamesOne(SERVER, sent, 1, "", 0);
    ReceivedAck(sent, "c", SHORT_READ.mesg);
    assert Without(sent.entries, 1) == start.entries;
  }

  lemma NothingRun(t: Table)
    ensures RunOf(SERVER, t, []) == t && AllAccepted([]) == 0
  {
  }
}
