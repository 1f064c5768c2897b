/** Which message each confirmation of the friends server confirms, over all runs. */
module FriendsdMessages {
  import opened Common
  import opened FriendsText
  import opened Friendsd
  import opened FriendsdRuns

  /**
   The account of a run: causes[n] is the SND packet behind confirmation n, acks[n] the ACK packet that made
   it, and waiting[id] the SND packet behind the client's message that is stored under id.
   */
  datatype Account = Account(causes: seq<nat>, acks: seq<nat>, waiting: map<string, nat>)

  predicate SentAs(packets: seq<Packet>, i: nat, id: string) {
    i < |packets| && ParseSnd(packets[i].mesg).Some? && ParseSnd(packets[i].mesg).value.id == id
  }

  /** The text is stored under the id. */
  predicate Stores(t: Table, id: string, txt: string) {
    exists k :: 0 <= k < |t.entries| && t.entries[k].id == id && t.entries[k].txt == txt
  }

  /** Confirmation n was made by packet a, an ACK of the id of the earlier SND packet i, whose text was stored then. */
  ghost predicate Confirms(serverid: string, start: Table, packets: seq<Packet>, n: nat, i: nat, a: nat) {
    && i < a < |packets|
    && ParseSnd(packets[i].mesg).Some? && ParseAck(packets[a].mesg) == Some(ParseSnd(packets[i].mesg).value.id)
    && RunOf(serverid, start, packets[..a]).counter == n
    && RunOf(serverid, start, packets[..a + 1]).counter == n + 1
    && Stores(RunOf(serverid, start, packets[..a]), ParseSnd(packets[i].mesg).value.id, packets[i].mesg)
  }

  /** A client's entry holds the text of the SND packet that waits under its id and has caused no confirmation. */
  predicate IsWaiting(e: Entry, packets: seq<Packet>, acc: Account) {
    && e.id in acc.waiting && SentAs(packets, acc.waiting[e.id], e.id)
    && packets[acc.waiting[e.id]].mesg == e.txt && acc.waiting[e.id] !in acc.causes
  }

  ghost predicate AllWaiting(serverid: string, entries: seq<Entry>, packets: seq<Packet>, acc: Account) {
    forall k :: 0 <= k < |entries| && FromClient(serverid, entries[k]) ==> IsWaiting(entries[k], packets, acc)
  }

  /** Every confirmation made so far has its own message, and every stored message its own packet. */
  ghost predicate Accounted(serverid: string, start: Table, packets: seq<Packet>, acc: Account) {
    var r := RunOf(serverid, start, packets);
    && |acc.causes| == |acc.acks| == r.counter
    && (forall n :: 0 <= n < r.counter ==> Confirms(serverid, start, packets, n, acc.causes[n], acc.acks[n]))
    && (forall m, n :: 0 <= m < n < |acc.causes| ==> acc.causes[m] != acc.causes[n])
    && AllWaiting(serverid, r.entries, packets, acc)
  }

  // ---------------------------------------------------------------- one packet

  lemma ConfirmsStays(serverid: string, start: Table, before: seq<Packet>, p: Packet, n: nat, i: nat, a: nat)
    requires Confirms(serverid, start, before, n, i, a)
    ensures Confirms(serverid, start, before + [p], n, i, a)
  {
    hide RunOf;
    var packets := before + [p];
    assert packets[..a] == before[..a] && packets[..a + 1] == before[..a + 1];
  }

  lemma WaitingStays(serverid: string, entries: seq<Entry>, before: seq<Packet>, p: Packet, acc: Account)
    requires AllWaiting(serverid, entries, before, acc)
    ensures AllWaiting(serverid, entries, before + [p], acc)
  {
    hide FromClient, ParseSnd;
    assert forall i :: 0 <= i < |before| ==> (before + [p])[i] == before[i];
  }

  /** Every entry after storing is an old one under another id, or the new one. */
  lemma StoredEntries(entries: seq<Entry>, id: string, txt: string, times: int, k: nat)
    requires |id| <= ID_LENGTH && k < |Stored(entries, id, txt, times)|
    ensures var e := Stored(entries, id, txt, times)[k];
      e == Entry(id, txt, times) || (e.id != id && k < |entries| && e == entries[k])
  {
  }

  lemma SndWaits(serverid: string, t: Table, packets: seq<Packet>, acc: Account)
    requires packets != [] && AllWaiting(serverid, t.entries, packets, acc) && |packets| - 1 !in acc.causes
    requires var snd := ParseSnd(packets[|packets| - 1].mesg); snd.Some? && |snd.value.id| <= ID_LENGTH
    ensures var p := packets[|packets| - 1];
      AllWaiting(serverid, AfterSnd(t, p).entries, packets,
        acc.(waiting := acc.waiting[ParseSnd(p.mesg).value.id := |packets| - 1]))
  {
    hide FromClient, ParseSnd, Stored;
    var p := packets[|packets| - 1];
    var id := ParseSnd(p.mesg).value.id;
    var r := AfterSnd(t, p);
    forall k | 0 <= k < |r.entries| && FromClient(serverid, r.entries[k])
      ensures IsWaiting(r.entries[k], packets, acc.(waiting := acc.waiting[id := |packets| - 1]))
    {
      StoredEntries(t.entries, id, p.mesg, MessageTime(p.now), k);
    }
  }

  lemma PosWaits(serverid: string, t: Table, p: Packet, packets: seq<Packet>, acc: Account)
    requires AllWaiting(serverid, t.entries, packets, acc)
    requires ParsePos(p.mesg).Some? ==> |ParsePos(p.mesg).value.id| <= ID_LENGTH
    ensures AllWaiting(serverid, AfterPos(t, p).entries, packets, acc)
  {
    hide ClientId, ParsePos, Stored, IsWaiting, Cut;
    OneKind(p.mesg);
    var r := AfterPos(t, p);
    if pos :| ParsePos(p.mesg) == Some(pos) {
      forall k | 0 <= k < |r.entries| && FromClient(serverid, r.entries[k])
        ensures IsWaiting(r.entries[k], packets, acc)
      {
        StoredEntries(t.entries, pos.id, Cut(p.mesg, POS_LENGTH), Atol(pos.timesec), k);
      }
    }
  }

  /** The account after an ACK of ackid by packet a. */
  function AfterAcking(serverid: string, t: Table, acc: Account, ackid: string, a: nat): Account {
    if Names(t, ackid) && !Own(serverid, t, ackid) && ackid in acc.waiting
    then acc.(causes := acc.causes + [acc.waiting[ackid]], acks := acc.acks + [a]) else acc
  }

  lemma AckWaits(serverid: string, t: Table, ackid: string, garbage: string, now: int, packets: seq<Packet>,
                 acc: Account, a: nat)
    requires ServerIdOk(serverid) && TableOk(serverid, t) && t.counter <= INT_MAX && Consumes(serverid, t, ackid)
    requires AllWaiting(serverid, t.entries, packets, acc)
    ensures var r := Acked(serverid, t, ackid, garbage, now);
      var after := AfterAcking(serverid, t, acc, ackid, a);
      && AllWaiting(serverid, r.entries, packets, after)
      && r.counter - t.counter == |after.causes| - |acc.causes|
      && (after != acc ==>
          && SentAs(packets, acc.waiting[ackid], ackid) && acc.waiting[ackid] !in acc.causes
          && Stores(t, ackid, packets[acc.waiting[ackid]].mesg))
  {
    hide Acked, ClientId, IsMessage, Without, TableOk, ParseSnd, MessageId, Own;
    if Names(t, ackid) {
      var k :| 0 <= k < |t.entries| && t.entries[k].id == ackid;
      AckNamesStored(serverid, t, k, garbage, now);
      if Own(serverid, t, ackid) {
        WithoutWaits(serverid, t.entries, k, packets, acc);
      } else {
        assert IsWaiting(t.entries[k], packets, acc);
        ClientIdsAreNotMessageIds(serverid, t.counter);
        OnlyNamed(serverid, t, k);
      }
    } else {
      AckNamesNone(serverid, t, ackid, garbage, now);
    }
  }

  lemma OnlyNamed(serverid: string, t: Table, k: nat)
    requires TableOk(serverid, t) && k < |t.entries|
    ensures forall i :: 0 <= i < |t.entries| && i != k ==> t.entries[i].id != t.entries[k].id
  {
    hide KnownId;
  }

  lemma WithoutWaits(serverid: string, entries: seq<Entry>, k: nat, packets: seq<Packet>, acc: Account)
    requires k < |entries| && AllWaiting(serverid, entries, packets, acc)
    ensures AllWaiting(serverid, Without(entries, k), packets, acc)
  {
    hide FromClient, IsWaiting;
    var r := Without(entries, k);
    forall i | 0 <= i < |r| && FromClient(serverid, r[i]) ensures IsWaiting(r[i], packets, acc) {
      assert r[i] == entries[if i < k then i else i + 1];
    }
  }

  lemma SweepWaits(serverid: string, entries: seq<Entry>, now: int, packets: seq<Packet>, acc: Account)
    requires AllWaiting(serverid, entries, packets, acc)
    ensures AllWaiting(serverid, Sweep(entries, now), packets, acc)
  {
    hide FromClient, IsWaiting;
    SweepKeepsIds(entries, now);
    var r := Sweep(entries, now);
    forall i | 0 <= i < |r| && FromClient(serverid, r[i]) ensures IsWaiting(r[i], packets, acc) {
      assert r[i] in entries;
      var k :| 0 <= k < |entries| && entries[k] == r[i];
    }
  }

  /** One more packet: the account goes on. */
  lemma PacketAccounted(serverid: string, start: Table, before: seq<Packet>, p: Packet, acc: Account)
    returns (after: Account)
    requires var t := RunOf(serverid, start, before);
      ServerIdOk(serverid) && TableOk(serverid, t) && t.counter <= INT_MAX && AckConsumes(serverid, t, p)
    requires GoodPacket(serverid, p) && Accounted(serverid, start, before, acc)
    ensures Accounted(serverid, start, before + [p], after)
  {
    hide ParseSnd, ParsePos, ParseAck, Stored, Acked, Sweep, TableOk, Consumes, AllWaiting, Confirms, ClientId,
      Stores;
    var t, packets, a := RunOf(serverid, start, before), before + [p], |before|;
    assert packets[..a] == before && packets[a] == p && packets[..a + 1] == packets;
    OneKind(p.mesg);
    WaitingStays(serverid, t.entries, before, p, acc);
    CausesAreOld(serverid, start, before, acc);
    if ParseSnd(p.mesg).Some? {
      ClientIdLength(serverid, ParseSnd(p.mesg).value.id);
      SndWaits(serverid, t, packets, acc);
      after := acc.(waiting := acc.waiting[ParseSnd(p.mesg).value.id := a]);
      SweepWaits(serverid, AfterSnd(t, p).entries, p.now, packets, after);
    } else if ParseAck(p.mesg).Some? {
      var ackid := ParseAck(p.mesg).value;
      AckWaits(serverid, t, ackid, p.garbage, p.now, packets, acc, a);
      after := AfterAcking(serverid, t, acc, ackid, a);
      SweepWaits(serverid, AfterAck(serverid, t, p).entries, p.now, packets, after);
      if after != acc {
        SentBefore(before, p, acc.waiting[ackid], ackid);
        NewConfirms(serverid, start, packets, t.counter, acc.waiting[ackid], a);
      }
    } else {
      if ParsePos(p.mesg).Some? { ClientIdLength(serverid, ParsePos(p.mesg).value.id); }
      PosWaits(serverid, t, p, packets, acc);
      after := acc;
      SweepWaits(serverid, AfterPos(t, p).entries, p.now, packets, after);
    }
    forall n | 0 <= n < t.counter ensures Confirms(serverid, start, packets, n, after.causes[n], after.acks[n]) {
      ConfirmsStays(serverid, start, before, p, n, acc.causes[n], acc.acks[n]);
    }
  }

  lemma CausesAreOld(serverid: string, start: Table, before: seq<Packet>, acc: Account)
    requires Accounted(serverid, start, before, acc)
    ensures |before| !in acc.causes
  {
    hide RunOf, ParseSnd, ParseAck, Stores, AllWaiting;
    forall n | 0 <= n < |acc.causes| ensures acc.causes[n] < |before| {
      assert Confirms(serverid, start, before, n, acc.causes[n], acc.acks[n]);
    }
  }

  /** An ACK packet is no SND packet, so what it names was sent earlier. */
  lemma SentBefore(before: seq<Packet>, p: Packet, i: nat, id: string)
    requires SentAs(before + [p], i, id) && ParseAck(p.mesg).Some?
    ensures i < |before|
  {
    hide ParseSnd, ParseAck;
    OneKind(p.mesg);
  }

  lemma NewConfirms(serverid: string, start: Table, packets: seq<Packet>, n: nat, i: nat, a: nat)
    requires i < a < |packets| && ParseSnd(packets[i].mesg).Some?
    requires ParseAck(packets[a].mesg) == Some(ParseSnd(packets[i].mesg).value.id)
    requires RunOf(serverid, start, packets[..a]).counter == n
      && RunOf(serverid, start, packets[..a + 1]).counter == n + 1
    requires Stores(RunOf(serverid, start, packets[..a]), ParseSnd(packets[i].mesg).value.id, packets[i].mesg)
    ensures Confirms(serverid, start, packets, n, i, a)
  {
  }

  // ---------------------------------------------------------------- all runs

  /**
   Over every run whose ACKs name clients' messages or entries recognised as the server's own, each
   confirmation was made by an ACK of an SND packet that came before and was stored at that time, and no
   two confirmations have the same SND packet: at most one confirmation per message, none from a
   confirmation. Messages still stored have caused none.
   */
  lemma {:induction false} EachConfirmationHasItsMessage(serverid: string, line: string, now: int, stack: string,
                                                          packets: seq<Packet>)
    returns (acc: Account)
    requires ServerIdOk(serverid) && |packets| <= INT_MAX
    requires forall i :: 0 <= i < |packets| ==> GoodPacket(serverid, packets[i])
    requires forall i :: 0 <= i < |packets| ==>
      AckConsumes(serverid, RunOf(serverid, Start(serverid, line, now, stack), packets[..i]), packets[i])
    ensures Accounted(serverid, Start(serverid, line, now, stack), packets, acc)
    decreases |packets|
  {
    hide Accounted, AckConsumes, GoodPacket, TableOk, Received;
    var start := Start(serverid, line, now, stack);
    InitialTableOk(serverid, line, now, stack);
    if packets == [] {
      acc := Account([], [], map[]);
      NothingToAccount(serverid, line, now, stack);
    } else {
      var n := |packets| - 1;
      var before := packets[..n];
      EveryRunKeepsOk(serverid, start, before);
      assert forall i :: 0 <= i < n ==> before[..i] == packets[..i];
      var earlier := EachConfirmationHasItsMessage(serverid, line, now, stack, before);
      acc := PacketAccounted(serverid, start, before, packets[n], earlier);
      assert before + [packets[n]] == packets;
    }
  }

  lemma NothingToAccount(serverid: string, line: string, now: int, stack: string)
    ensures Accounted(serverid, Start(serverid, line, now, stack), [], Account([], [], map[]))
  {
    hide ClientId;
    assert ("SRV: " + line)[1] == 'R';
  }

  // ---------------------------------------------------------------- conditions on the packets alone

  /** No ACK names an id under which a position is reported. */
  predicate AcksAvoidPositions(packets: seq<Packet>) {
    forall a, i :: 0 <= a < |packets| && 0 <= i < |packets|
      && ParseAck(packets[a].mesg).Some? && ParsePos(packets[i].mesg).Some?
      ==> ParseAck(packets[a].mesg).value != ParsePos(packets[i].mesg).value.id
  }

  predicate ReportsPosition(packets: seq<Packet>, id: string) {
    exists i :: 0 <= i < |packets| && ParsePos(packets[i].mesg).Some? && ParsePos(packets[i].mesg).value.id == id
  }

  /** A client's entry is a message, or a position was reported under its id. */
  predicate MessageOrPosition(serverid: string, e: Entry, packets: seq<Packet>) {
    ClientId(serverid, e.id) ==> IsMessage(e) || ReportsPosition(packets, e.id)
  }

  ghost predicate MessagesOrPositions(serverid: string, entries: seq<Entry>, packets: seq<Packet>) {
    forall k :: 0 <= k < |entries| ==> MessageOrPosition(serverid, entries[k], packets)
  }

  lemma PacketKeepsKinds(serverid: string, t: Table, before: seq<Packet>, p: Packet)
    requires ServerIdOk(serverid) && TableOk(serverid, t) && t.counter <= INT_MAX && GoodPacket(serverid, p)
    requires MessagesOrPositions(serverid, t.entries, before)
    ensures MessagesOrPositions(serverid, Received(serverid, t, p).entries, before + [p])
  {
    hide ParseSnd, ParsePos, ParseAck, Stored, Acked, Sweep, MessagesOrPositions, TableOk, ClientId;
    var packets := before + [p];
    KindsStay(serverid, t.entries, before, p);
    OneKind(p.mesg);
    var r := AfterAck(serverid, AfterPos(AfterSnd(t, p), p), p);
    if ParseSnd(p.mesg).Some? {
      ClientIdLength(serverid, ParseSnd(p.mesg).value.id);
      StoringKeepsKinds(serverid, t.entries, ParseSnd(p.mesg).value.id, p.mesg, MessageTime(p.now), packets);
    } else if ParseAck(p.mesg).Some? {
      AckKeepsKinds(serverid, t, ParseAck(p.mesg).value, p.garbage, p.now, packets);
    } else if pos :| ParsePos(p.mesg) == Some(pos) {
      ClientIdLength(serverid, pos.id);
      assert packets[|before|] == p;
      StoringKeepsKinds(serverid, t.entries, pos.id, Cut(p.mesg, POS_LENGTH), Atol(pos.timesec), packets);
    }
    SweepKeepsKinds(serverid, r.entries, p.now, packets);
  }

  lemma KindsStay(serverid: string, entries: seq<Entry>, before: seq<Packet>, p: Packet)
    requires MessagesOrPositions(serverid, entries, before)
    ensures MessagesOrPositions(serverid, entries, before + [p])
  {
    hide ClientId, ParsePos, IsMessage;
    var packets := before + [p];
    assert forall i :: 0 <= i < |before| ==> packets[i] == before[i];
  }

  lemma StoringKeepsKinds(serverid: string, entries: seq<Entry>, id: string, txt: string, times: int,
                          packets: seq<Packet>)
    requires |id| <= ID_LENGTH
    ensures MessagesOrPositions(serverid, entries, packets) && ("SND:" <= txt || ReportsPosition(packets, id)) ==>
      MessagesOrPositions(serverid, Stored(entries, id, txt, times), packets)
  {
    hide ClientId, ReportsPosition, Stored;
    var r := Stored(entries, id, txt, times);
    if MessagesOrPositions(serverid, entries, packets) && ("SND:" <= txt || ReportsPosition(packets, id)) {
      forall k | 0 <= k < |r| ensures MessageOrPosition(serverid, r[k], packets) {
        StoredEntries(entries, id, txt, times, k);
      }
    }
  }

  lemma AckKeepsKinds(serverid: string, t: Table, ackid: string, garbage: string, now: int, packets: seq<Packet>)
    requires ServerIdOk(serverid) && TableOk(serverid, t) && t.counter <= INT_MAX
    requires MessagesOrPositions(serverid, t.entries, packets)
    ensures MessagesOrPositions(serverid, Acked(serverid, t, ackid, garbage, now).entries,
      packets)
  {
    hide Acked, ClientId, IsMessage, ReportsPosition, TableOk, MessageId, Own;
    if Names(t, ackid) {
      var k :| 0 <= k < |t.entries| && t.entries[k].id == ackid;
      AckNamesStored(serverid, t, k, garbage, now);
      ClientIdsAreNotMessageIds(serverid, t.counter);
    } else {
      AckNamesNone(serverid, t, ackid, garbage, now);
    }
  }

  lemma SweepKeepsKinds(serverid: string, entries: seq<Entry>, now: int, packets: seq<Packet>)
    requires MessagesOrPositions(serverid, entries, packets)
    ensures MessagesOrPositions(serverid, Sweep(entries, now), packets)
  {
    hide MessageOrPosition;
    SweepKeepsIds(entries, now);
    var r := Sweep(entries, now);
    forall i | 0 <= i < |r| ensures MessageOrPosition(serverid, r[i], packets) {
      assert r[i] in entries;
      var k :| 0 <= k < |entries| && entries[k] == r[i];
    }
  }

  lemma {:induction false} RunKeepsKinds(serverid: string, line: string, now: int, stack: string, packets: seq<Packet>)
    requires ServerIdOk(serverid) && |packets| <= INT_MAX
    requires forall i :: 0 <= i < |packets| ==> GoodPacket(serverid, packets[i])
    ensures MessagesOrPositions(serverid, RunOf(serverid, Start(serverid, line, now, stack), packets).entries, packets)
    decreases |packets|
  {
    hide GoodPacket, TableOk, Received, MessagesOrPositions;
    var start := Start(serverid, line, now, stack);
    InitialTableOk(serverid, line, now, stack);
    if packets == [] {
      ServerIsNoClient(serverid, line, now, stack);
    } else {
      var n := |packets| - 1;
      var before := packets[..n];
      EveryRunKeepsOk(serverid, start, before);
      RunKeepsKinds(serverid, line, now, stack, before);
      PacketKeepsKinds(serverid, RunOf(serverid, start, before), before, packets[n]);
      assert before + [packets[n]] == packets;
    }
  }

  lemma ServerIsNoClient(serverid: string, line: string, now: int, stack: string)
    requires ServerIdOk(serverid)
    ensures MessagesOrPositions(serverid, Start(serverid, line, now, stack).entries, [])
  {
    assert serverid[5..] == Tail(serverid);
  }

  /** With fewer than a hundred and one confirmations made, an ACK that names no position's id consumes. */
  lemma AvoidingConsumes(serverid: string, t: Table, ackid: string, packets: seq<Packet>)
    requires ServerIdOk(serverid) && TableOk(serverid, t) && t.counter <= 100
    requires MessagesOrPositions(serverid, t.entries, packets) && !ReportsPosition(packets, ackid)
    ensures Consumes(serverid, t, ackid)
  {
    hide ClientId, IsMessage, ReportsPosition, TableOk, Own;
    forall k | 0 <= k < |t.entries| && t.entries[k].id == ackid
      ensures FromClient(serverid, t.entries[k]) || Own(serverid, t, ackid)
    {
      KnownIsClientOrOwn(serverid, t, k);
      assert MessageOrPosition(serverid, t.entries[k], packets);
    }
  }

  lemma {:induction false} AcceptedGrow(packets: seq<Packet>, n: nat)
    requires n <= |packets|
    ensures AllAccepted(packets[..n]) <= AllAccepted(packets)
    decreases |packets|
  {
    hide Accepted;
    if n < |packets| {
      assert packets[..|packets| - 1][..n] == packets[..n];
      AcceptedGrow(packets[..|packets| - 1], n);
    } else {
      assert packets[..n] == packets;
    }
  }

  /** Conditions that the packets alone decide: at most a hundred messages, and no ACK of a position's id. */
  lemma {:induction false} PacketsAlone(serverid: string, line: string, now: int, stack: string, packets: seq<Packet>)
    requires ServerIdOk(serverid) && |packets| <= INT_MAX
    requires forall i :: 0 <= i < |packets| ==> GoodPacket(serverid, packets[i])
    requires AllAccepted(packets) <= 100 && AcksAvoidPositions(packets)
    ensures forall i :: 0 <= i < |packets| ==>
      AckConsumes(serverid, RunOf(serverid, Start(serverid, line, now, stack), packets[..i]), packets[i])
    decreases |packets|
  {
    hide GoodPacket, TableOk, Received, MessagesOrPositions, RunOf, Consumes, ParseAck, ParsePos, Accepted, AllAccepted;
    if packets != [] {
      var n := |packets| - 1;
      var before, start := packets[..n], Start(serverid, line, now, stack);
      AcceptedGrow(packets, n);
      PacketsAlone(serverid, line, now, stack, before);
      assert forall i :: 0 <= i < n ==> before[..i] == packets[..i];
      EveryRunConserves(serverid, line, now, stack, before);
      InitialTableOk(serverid, line, now, stack);
      EveryRunKeepsOk(serverid, start, before);
      RunKeepsKinds(serverid, line, now, stack, before);
      if ParseAck(packets[n].mesg).Some? {
        AvoidingConsumes(serverid, RunOf(serverid, start, before), ParseAck(packets[n].mesg).value, before);
      }
    }
  }

  /** Under these conditions every confirmation has a message of its own. */
  lemma EveryConfirmationOfAHundred(serverid: string, line: string, now: int, stack: string, packets: seq<Packet>)
    returns (acc: Account)
    requires ServerIdOk(serverid) && |packets| <= INT_MAX
    requires forall i :: 0 <= i < |packets| ==> GoodPacket(serverid, packets[i])
    requires AllAccepted(packets) <= 100 && AcksAvoidPositions(packets)
    ensures Accounted(serverid, Start(serverid, line, now, stack), packets, acc)
    ensures RunOf(serverid, Start(serverid, line, now, stack), packets).counter <= AllAccepted(packets)
  {
    hide Accounted, AckConsumes, GoodPacket, RunOf, AllAccepted, AcksAvoidPositions;
    PacketsAlone(serverid, line, now, stack, packets);
    acc := EachConfirmationHasItsMessage(serverid, line, now, stack, packets);
    EveryRunConserves(serverid, line, now, stack, packets);
  }
}
