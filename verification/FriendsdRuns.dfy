/** What every run of packets keeps in the friends server's table, and the life of a message. */
module FriendsdRuns {
  import opened Decimal
  import opened FriendsText
  import opened Friendsd

  // ---------------------------------------------------------------- ids

  predicate EndsWith(s: string, tail: string) {
    |tail| <= |s| && s[|s| - |tail|..] == tail
  }

  /** What friends_init makes with crypt: 22 characters. Only its length and its not looking like a message id
      matter. */
  predicate ServerIdOk(serverid: string) {
    5 < |serverid| <= 22 && !("MSG" <= serverid)
  }

  /** The largest value of the C int messagecounter. */
  const INT_MAX := 0x7fff_ffff

  /** No client uses the server's id tail, and ids fit their buffer. */
  predicate ClientId(serverid: string, id: string) {
    |id| <= ID_LENGTH && !EndsWith(id, Tail(serverid))
  }

  predicate GoodPacket(serverid: string, p: Packet) {
    && (ParseSnd(p.mesg).Some? ==> ClientId(serverid, ParseSnd(p.mesg).value.id))
    && (ParsePos(p.mesg).Some? ==> ClientId(serverid, ParsePos(p.mesg).value.id))
  }

  lemma CounterDigits(n: nat)
    requires n <= INT_MAX
    ensures |PaddedText(n, 2)| <= 10 && (|PaddedText(n, 2)| == 2 <==> n < 100)
  {
    assert Pow10(1) == 10;
    assert Pow10(2) == 100;
    assert Pow10(4) == 10000 by { assert Pow10(3) == 1000; }
    assert Pow10(7) == 10000000 by { assert Pow10(5) == 100000; assert Pow10(6) == 1000000; }
    assert Pow10(10) == 10000000000 by { assert Pow10(8) == 100000000; assert Pow10(9) == 1000000000; }
    TextLength(n, 10);
    TextLength(n, 2);
  }

  /** No confirmation's id is cut or looks like another kind of id. */
  lemma MessageIdFits(serverid: string, n: nat)
    requires ServerIdOk(serverid) && n <= INT_MAX
    ensures |MessageId(serverid, n)| <= ID_LENGTH
    ensures EndsWith(MessageId(serverid, n), Tail(serverid)) && MessageId(serverid, n) != serverid
    ensures Tail(MessageId(serverid, n)) == Tail(serverid) <==> n < 100
  {
    CounterDigits(n);
    var id := MessageId(serverid, n);
    var digits := PaddedText(n, 2);
    assert id[|id| - |Tail(serverid)|..] == Tail(serverid);
    assert id[..3] == "MSG";
    assert id[5..] == digits[2..] + Tail(serverid);
    assert |digits| == 2 ==> digits[2..] == "" && id[5..] == Tail(serverid);
  }

  /** The ids of two confirmations differ. */
  lemma MessageIdsDiffer(serverid: string, m: nat, n: nat)
    requires MessageId(serverid, m) == MessageId(serverid, n)
    ensures m == n
  {
    var a, b := MessageId(serverid, m), MessageId(serverid, n);
    var t := |Tail(serverid)|;
    assert a[3..|a| - t] == PaddedText(m, 2);
    assert b[3..|b| - t] == PaddedText(n, 2);
    TextInjective(m, n, 2);
  }

  // ---------------------------------------------------------------- the table invariant

  predicate Distinct(entries: seq<Entry>) {
    forall i, j :: 0 <= i < j < |entries| ==> entries[i].id != entries[j].id
  }

  /** An id in the table is the server's, a confirmation's, or a client's. */
  predicate KnownId(serverid: string, counter: nat, id: string) {
    || id == serverid
    || (exists k: nat :: k < counter && id == MessageId(serverid, k))
    || ClientId(serverid, id)
  }

  ghost predicate TableOk(serverid: string, t: Table) {
    && |t.entries| < MAXLISTENTRIES
    && Distinct(t.entries)
    && forall i :: 0 <= i < |t.entries| ==> KnownId(serverid, t.counter, t.entries[i].id)
  }

  /** The table that main sets up; stack is what the buffer ackid holds at first. */
  function Start(serverid: string, line: string, now: int, stack: string): Table {
    Table([Entry(serverid, "SRV: " + line, now)], 0, stack)
  }

  lemma InitialTableOk(serverid: string, line: string, now: int, stack: string)
    ensures TableOk(serverid, Start(serverid, line, now, stack))
  {
  }

  lemma StoringKeepsOk(serverid: string, t: Table, id: string, txt: string, times: int)
    requires TableOk(serverid, t) && ClientId(serverid, id)
    ensures TableOk(serverid, t.(entries := Stored(t.entries, id, txt, times)))
  {
    hide ClientId;
    assert |id| <= ID_LENGTH by { ClientIdLength(serverid, id); }
  }

  lemma ClientIdLength(serverid: string, id: string)
    requires ClientId(serverid, id)
    ensures |id| <= ID_LENGTH
  {
  }

  /** A new confirmation's id is not in the table. */
  lemma NextIdIsNew(serverid: string, t: Table, i: nat)
    requires ServerIdOk(serverid) && TableOk(serverid, t) && t.counter <= INT_MAX && i < |t.entries|
    ensures t.entries[i].id != MessageId(serverid, t.counter)
  {
    MessageIdFits(serverid, t.counter);
    forall k: nat | k < t.counter ensures MessageId(serverid, k) != MessageId(serverid, t.counter) {
      if MessageId(serverid, k) == MessageId(serverid, t.counter) { MessageIdsDiffer(serverid, k, t.counter); }
    }
    assert KnownId(serverid, t.counter, t.entries[i].id);
  }

  /** Where an ACK names no entry, nothing happens. */
  lemma {:induction false} AckOfNothing(serverid: string, a: Acking, i: nat, ackid: string, now: int)
    requires i <= |a.table.entries| && forall k :: i <= k < |a.table.entries| ==> a.table.entries[k].id != ackid
    ensures AckFrom(serverid, a, i, ackid, now) == a
    decreases |a.table.entries| - i
  {
    if i < |a.table.entries| { AckOfNothing(serverid, a, i + 1, ackid, now); }
  }

  lemma {:induction false} AckReaches(serverid: string, a: Acking, i: nat, k: nat, ackid: string, now: int)
    requires i <= k < |a.table.entries| && forall j :: i <= j < k ==> a.table.entries[j].id != ackid
    ensures AckFrom(serverid, a, i, ackid, now) == AckFrom(serverid, a, k, ackid, now)
    decreases k - i
  {
    hide Confirmed;
    if i < k { AckReaches(serverid, a, i + 1, k, ackid, now); }
  }

  /** What is at ackid + 5 looks like the end of the server's id. */
  predicate Own(serverid: string, t: Table, ackid: string) {
    Heard(t, ackid).ackTail == Tail(serverid)
  }

  /** With distinct ids, an ACK touches the one entry it names: removed if taken for the server's, else confirmed. */
  lemma AckNamesOne(serverid: string, t: Table, k: nat, garbage: string, now: int)
    requires Distinct(t.entries) && k < |t.entries|
    ensures var ackid := t.entries[k].id;
      var h := Heard(t, ackid);
      Acked(serverid, t, ackid, garbage, now) ==
        if Own(serverid, t, ackid) then h.(entries := Without(t.entries, k))
        else Confirmed(serverid, Acking(h, garbage, ""), k, now).table
  {
    var ackid := t.entries[k].id;
    var a := Acking(Heard(t, ackid), garbage, "");
    AckReaches(serverid, a, 0, k, ackid, now);
    if !Own(serverid, t, ackid) {
      var c := Confirmed(serverid, a, k, now);
      AckOfNothing(serverid, c, k + 1, ackid, now);
    }
  }

  lemma AckNamesNone(serverid: string, t: Table, ackid: string, garbage: string, now: int)
    requires !Names(t, ackid)
    ensures Acked(serverid, t, ackid, garbage, now) == Heard(t, ackid)
  {
    AckOfNothing(serverid, Acking(Heard(t, ackid), garbage, ""), 0, ackid, now);
  }

  predicate Names(t: Table, ackid: string) {
    exists k :: 0 <= k < |t.entries| && t.entries[k].id == ackid
  }

  lemma RemovingKeepsOk(serverid: string, t: Table, k: nat)
    requires TableOk(serverid, t) && k < |t.entries|
    ensures TableOk(serverid, t.(entries := Without(t.entries, k)))
  {
    hide KnownId;
  }

  lemma HeardKeepsOk(serverid: string, t: Table, ackid: string)
    requires TableOk(serverid, t)
    ensures TableOk(serverid, Heard(t, ackid))
  {
    hide KnownId;
  }

  lemma AckKeepsOk(serverid: string, t: Table, ackid: string, garbage: string, now: int)
    requires ServerIdOk(serverid) && TableOk(serverid, t) && t.counter <= INT_MAX
    ensures var r := Acked(serverid, t, ackid, garbage, now);
      TableOk(serverid, r) && t.counter <= r.counter <= t.counter + 1
  {
    hide KnownId, Confirmed, Acked, Heard, Own;
    var h := Heard(t, ackid);
    HeardKeepsOk(serverid, t, ackid);
    if Names(t, ackid) {
      var k :| 0 <= k < |t.entries| && t.entries[k].id == ackid;
      AckNamesOne(serverid, t, k, garbage, now);
      if Own(serverid, t, ackid) {
        RemovingKeepsOk(serverid, h, k);
      } else {
        ConfirmingKeepsOk(serverid, h, k, Acking(h, garbage, ""), now);
        ConfirmedEntries(serverid, Acking(h, garbage, ""), k, now);
      }
    } else {
      AckNamesNone(serverid, t, ackid, garbage, now);
    }
  }

  lemma ConfirmedEntries(serverid: string, a: Acking, k: nat, now: int)
    requires ServerIdOk(serverid) && a.table.counter <= INT_MAX && k < |a.table.entries|
    ensures var r := Confirmed(serverid, a, k, now);
      && r.table.counter == a.table.counter + 1
      && r.table.entries == a.table.entries[k := Entry(MessageId(serverid, a.table.counter),
           Confirmation(MessageId(serverid, a.table.counter), r.sender, r.reader), MessageTime(now))]
  {
    hide Confirmation, SecondWord;
    MessageIdFits(serverid, a.table.counter);
  }

  lemma ConfirmingKeepsOk(serverid: string, t: Table, k: nat, a: Acking, now: int)
    requires ServerIdOk(serverid) && TableOk(serverid, t) && t.counter <= INT_MAX && k < |t.entries| && a.table == t
    ensures TableOk(serverid, Confirmed(serverid, a, k, now).table)
  {
    hide Confirmation, Confirmed, MessageId, ClientId;
    ConfirmedEntries(serverid, a, k, now);
    var r := Confirmed(serverid, a, k, now).table;
    forall i | 0 <= i < |t.entries| ensures t.entries[i].id != MessageId(serverid, t.counter) {
      NextIdIsNew(serverid, t, i);
    }
    forall i | 0 <= i < |r.entries| ensures KnownId(serverid, r.counter, r.entries[i].id) {
      if i != k { assert KnownId(serverid, t.counter, t.entries[i].id); }
    }
  }

  /** Every entry of r is one of s. */
  predicate Among(r: seq<Entry>, s: seq<Entry>) {
    forall i :: 0 <= i < |r| ==> r[i] in s
  }

  lemma KeptInFront(e: Entry, r: seq<Entry>, s: seq<Entry>)
    requires Among(r, s) && |r| <= |s|
    ensures Among([e] + r, [e] + s)
    ensures Distinct([e] + s) && Distinct(r) ==> Distinct([e] + r)
  {
    var q, t := [e] + r, [e] + s;
    forall i | 0 <= i < |q| ensures q[i] in t {
      if i > 0 { assert q[i] == r[i - 1] && r[i - 1] in s; }
    }
    if Distinct(t) && Distinct(r) {
      FirstIsAlone(e, r, s);
      forall i, j | 0 <= i < j < |q| ensures q[i].id != q[j].id {
        assert q[j] == r[j - 1] && (i > 0 ==> q[i] == r[i - 1]);
      }
    }
  }

  lemma FirstIsAlone(e: Entry, r: seq<Entry>, s: seq<Entry>)
    requires Among(r, s) && Distinct([e] + s)
    ensures forall i :: 0 <= i < |r| ==> r[i].id != e.id
  {
    var t := [e] + s;
    forall i | 0 <= i < |r| ensures r[i].id != e.id {
      assert r[i] in s;
      var k :| 0 <= k < |s| && s[k] == r[i];
      assert t[0] == e && t[k + 1] == r[i];
    }
  }

  lemma DroppedInFront(e: Entry, r: seq<Entry>, s: seq<Entry>)
    requires Among(r, s)
    ensures Among(r, [e] + s)
  {
    forall i | 0 <= i < |r| ensures r[i] in [e] + s {
      assert r[i] in s;
    }
  }

  lemma DistinctTail(e: Entry, s: seq<Entry>)
    requires Distinct([e] + s)
    ensures Distinct(s)
  {
    assert forall i :: 0 <= i < |s| ==> s[i] == ([e] + s)[i + 1];
  }

  lemma {:induction false} SweepKeepsIds(s: seq<Entry>, now: int)
    ensures |Sweep(s, now)| <= |s| && Among(Sweep(s, now), s)
    ensures Distinct(s) ==> Distinct(Sweep(s, now))
    decreases |s|
  {
    hide Expired, Among, Distinct;
    if s == [] {
      NothingKept();
    } else if !Expired(s[0], now) {
      SweepKeepsIds(s[1..], now);
      assert s == [s[0]] + s[1..];
      if Distinct(s) { DistinctTail(s[0], s[1..]); }
      KeptInFront(s[0], Sweep(s[1..], now), s[1..]);
    } else if |s| == 1 {
      assert s == [s[0]] + [];
      NothingKept();
      DroppedInFront(s[0], [], []);
    } else {
      SweepKeepsIds(s[2..], now);
      var rest := [s[1]] + s[2..];
      assert s == [s[0]] + rest;
      if Distinct(s) {
        DistinctTail(s[0], rest);
        DistinctTail(s[1], s[2..]);
      }
      KeptInFront(s[1], Sweep(s[2..], now), s[2..]);
      DroppedInFront(s[0], [s[1]] + Sweep(s[2..], now), rest);
    }
  }

  lemma NothingKept()
    ensures Among([], []) && Distinct([])
  {
  }

  lemma SweepKeepsOk(serverid: string, t: Table, now: int)
    requires TableOk(serverid, t)
    ensures TableOk(serverid, t.(entries := Sweep(t.entries, now)))
  {
    hide KnownId;
    SweepKeepsIds(t.entries, now);
    var r := Sweep(t.entries, now);
    forall i | 0 <= i < |r| ensures KnownId(serverid, t.counter, r[i].id) {
      assert r[i] in t.entries;
      var k :| 0 <= k < |t.entries| && t.entries[k] == r[i];
    }
  }

  /** One packet keeps the table in order. */
  lemma PacketKeepsOk(serverid: string, t: Table, p: Packet)
    requires ServerIdOk(serverid) && TableOk(serverid, t) && GoodPacket(serverid, p) && t.counter <= INT_MAX
    ensures TableOk(serverid, Received(serverid, t, p))
    ensures t.counter <= Received(serverid, t, p).counter <= t.counter + 1
  {
    hide TableOk, Stored, Acked, Sweep, ParseSnd, ParsePos, ParseAck;
    var snd := ParseSnd(p.mesg);
    if snd.Some? { StoringKeepsOk(serverid, t, snd.value.id, p.mesg, MessageTime(p.now)); }
    var t1 := AfterSnd(t, p);
    var pos := ParsePos(p.mesg);
    if pos.Some? { StoringKeepsOk(serverid, t1, pos.value.id, Cut(p.mesg, POS_LENGTH), Atol(pos.value.timesec)); }
    var t2 := AfterPos(t1, p);
    var ack := ParseAck(p.mesg);
    if ack.Some? { AckKeepsOk(serverid, t2, ack.value, p.garbage, p.now); }
    SweepKeepsOk(serverid, AfterAck(serverid, t2, p), p.now);
  }

  function RunOf(serverid: string, t: Table, packets: seq<Packet>): Table {
    if packets == [] then t
    else Received(serverid, RunOf(serverid, t, packets[..|packets| - 1]), packets[|packets| - 1])
  }

  /** In every run of good packets the table stays below its size and its ids stay pairwise distinct. */
  lemma {:induction false} EveryRunKeepsOk(serverid: string, t: Table, packets: seq<Packet>)
    requires ServerIdOk(serverid) && TableOk(serverid, t) && t.counter + |packets| <= INT_MAX
    requires forall i :: 0 <= i < |packets| ==> GoodPacket(serverid, packets[i])
    ensures TableOk(serverid, RunOf(serverid, t, packets))
    ensures t.counter <= RunOf(serverid, t, packets).counter <= t.counter + |packets|
  {
    hide TableOk, GoodPacket, Received;
    if packets != [] {
      var before := packets[..|packets| - 1];
      EveryRunKeepsOk(serverid, t, before);
      PacketKeepsOk(serverid, RunOf(serverid, t, before), packets[|packets| - 1]);
    }
  }

  // ---------------------------------------------------------------- the life of a message

  predicate IsMessage(e: Entry) {
    "SND:" <= e.txt
  }

  /** A message that a client sent, as opposed to a confirmation. */
  predicate FromClient(serverid: string, e: Entry) {
    IsMessage(e) && ClientId(serverid, e.id)
  }

  /** A client's id is taken for the server's own exactly when it is too short to overwrite what is left of one. */
  lemma ClientIsOwnExactlyWhen(serverid: string, t: Table, id: string)
    requires ServerIdOk(serverid) && ClientId(serverid, id)
    ensures Own(serverid, t, id) <==> |id| < 5 && t.ackTail == Tail(serverid)
  {
  }

  /**
   Acknowledging a client's message turns it, in place, into one confirmation with a new id; except that
   an id of fewer than five characters, after an ACK for the server itself, makes the server delete it.
   */
  lemma AckConfirmsMessage(serverid: string, t: Table, k: nat, garbage: string, now: int)
    requires ServerIdOk(serverid) && TableOk(serverid, t) && t.counter <= INT_MAX
    requires k < |t.entries| && ClientId(serverid, t.entries[k].id)
    ensures var sid := MessageId(serverid, t.counter);
      var id := t.entries[k].id;
      var r := Acked(serverid, t, id, garbage, now);
      if |id| < 5 && t.ackTail == Tail(serverid) then r == t.(entries := Without(t.entries, k))
      else
        && r.counter == t.counter + 1
        && |r.entries| == |t.entries|
        && (forall i :: 0 <= i < |t.entries| && i != k ==> r.entries[i] == t.entries[i])
        && r.entries[k].id == sid && IsMessage(r.entries[k]) && r.entries[k].times == MessageTime(now)
        && !Names(r, id)
  {
    hide KnownId, Confirmed, Acked, MessageId, Confirmation, ClientId, Own;
    var a, ackid := Acking(Heard(t, t.entries[k].id), garbage, ""), t.entries[k].id;
    AckNamesOne(serverid, t, k, garbage, now);
    ClientIsOwnExactlyWhen(serverid, t, ackid);
    ConfirmedEntries(serverid, a, k, now);
    NextIdIsNew(serverid, t, k);
    var r := Confirmed(serverid, a, k, now);
    ConfirmationIsMessage(MessageId(serverid, t.counter), r.sender, r.reader);
  }

  lemma ConfirmationIsMessage(sid: string, sender: string, reader: string)
    ensures "SND:" <= Confirmation(sid, sender, reader)
  {
    var rest := " " + sid + " " + sender + " \nConfirmation:\n The user " + reader + " has read your message!";
    assert Confirmation(sid, sender, reader) == "SND:" + rest;
  }

  /** What the last ACK of an id of five or more characters left at ackid + 5. */
  function LastTail(packets: seq<Packet>, stack: string): string {
    if packets == [] then stack
    else
      var n := |packets| - 1;
      var ack := ParseAck(packets[n].mesg);
      if ack.Some? && |ack.value| >= 5 then Tail(ack.value) else LastTail(packets[..n], stack)
  }

  lemma {:induction false} AckFromKeepsTail(serverid: string, a: Acking, i: nat, ackid: string, now: int)
    requires i <= |a.table.entries|
    ensures AckFrom(serverid, a, i, ackid, now).table.ackTail == a.table.ackTail
    decreases |a.table.entries| - i
  {
    hide Confirmed;
    if i < |a.table.entries| {
      AckFromKeepsTail(serverid, if a.table.entries[i].id == ackid then Confirmed(serverid, a, i, now) else a, i + 1,
        ackid, now);
    }
  }

  /** The packets alone decide what stands at ackid + 5, and so which short ids are taken for the server's. */
  lemma {:induction false} RunLeavesTail(serverid: string, t: Table, packets: seq<Packet>)
    ensures RunOf(serverid, t, packets).ackTail == LastTail(packets, t.ackTail)
    decreases |packets|
  {
    hide AckFrom, Stored, Sweep, ParseSnd, ParsePos, ParseAck;
    if packets != [] {
      var n := |packets| - 1;
      RunLeavesTail(serverid, t, packets[..n]);
      var p := packets[n];
      var t2 := AfterPos(AfterSnd(RunOf(serverid, t, packets[..n]), p), p);
      var ack := ParseAck(p.mesg);
      if ack.Some? {
        AckFromKeepsTail(serverid, Acking(Heard(t2, ack.value), p.garbage, ""), 0, ack.value, p.now);
      }
    }
  }

  /** The ACK of one of the server's own ids is recognised by what it writes. */
  lemma OwnIds(serverid: string, t: Table, n: nat)
    requires ServerIdOk(serverid) && n <= INT_MAX
    ensures Own(serverid, t, serverid) && (Own(serverid, t, MessageId(serverid, n)) <==> n < 100)
  {
    hide PaddedText;
    MessageIdFits(serverid, n);
  }

  /**
   The ACK of a stored confirmation removes it exactly when its number has two digits. A number of 100
   or more makes an id that is not recognised as the server's own, and the ACK makes another confirmation.
   */
  lemma AckOfConfirmation(serverid: string, t: Table, k: nat, n: nat, garbage: string, now: int)
    requires ServerIdOk(serverid) && TableOk(serverid, t) && n < t.counter <= INT_MAX
    requires k < |t.entries| && t.entries[k].id == MessageId(serverid, n)
    ensures var r := Acked(serverid, t, t.entries[k].id, garbage, now);
      if n < 100 then r == Heard(t, t.entries[k].id).(entries := Without(t.entries, k))
      else r.counter == t.counter + 1 && |r.entries| == |t.entries| && r.entries[k].id == MessageId(serverid, t.counter)
  {
    hide KnownId, Confirmed, Acked, MessageId, Own;
    AckNamesOne(serverid, t, k, garbage, now);
    OwnIds(serverid, t, n);
    ConfirmedEntries(serverid, Acking(Heard(t, t.entries[k].id), garbage, ""), k, now);
  }

  /** A concrete server: confirmation number 100 begets the next one when it is acknowledged. */
  lemma Number100BegetsAnother(garbage: string, stack: string)
    ensures var serverid := "abcdefgh";
      var t := Table([Entry(MessageId(serverid, 100), "SND: x y z", 0)], 101, stack);
      ServerIdOk(serverid) && TableOk(serverid, t) &&
      Acked(serverid, t, t.entries[0].id, garbage, 0).counter == 102
  {
    hide MessageId, Acked;
    var serverid := "abcdefgh";
    var t := Table([Entry(MessageId(serverid, 100), "SND: x y z", 0)], 101, stack);
    assert serverid[0] == 'a';
    assert KnownId(serverid, 101, t.entries[0].id);
    AckOfConfirmation(serverid, t, 0, 100, garbage, 0);
  }

  lemma ConfirmationText(sid: string, sender: string, reader: string) returns (text: string, body: string)
    ensures body != "" && body[0] == 'C' && text == " \n" + body
    ensures var mesg := Confirmation(sid, sender, reader);
      "SND: " <= mesg && mesg[4..] == " " + sid + (" " + sender + text) && |mesg| >= |sid| && |mesg| >= |sender|
  {
    body := "Confirmation:\n The user " + reader + " has read your message!";
    text := " \n" + body;
    var mesg, rest := Confirmation(sid, sender, reader), sid + (" " + sender + text);
    ConfirmationParts(sid, sender, reader);
    hide Confirmation;
    assert mesg[..5] == "SND: " && mesg[4..] == " " + rest;
  }

  lemma ConfirmationParts(sid: string, sender: string, reader: string)
    ensures Confirmation(sid, sender, reader)
      == "SND: " + (sid + (" " + sender + (" \n" + ("Confirmation:\n The user " + reader + " has read your message!"))))
  {
    ConfirmationBreak();
    Regroup("SND: ", sid, " ", sender, " \n", "Confirmation:\n The user ", reader, " has read your message!");
  }

  lemma ConfirmationBreak()
    ensures " \n" + "Confirmation:\n The user " == " \nConfirmation:\n The user "
  {
  }

  lemma Regroup(a: string, b: string, c: string, d: string, e: string, f: string, g: string, h: string)
    ensures a + b + c + d + (e + f) + g + h == a + (b + (c + d + (e + (f + g + h))))
  {
    assert a + b + c + d + (e + f) + g + h == a + b + (c + d) + (e + (f + g + h));
  }

  /** A confirmation is itself a message: a client scanning it finds the id to acknowledge and the sender as
      addressee. */
  lemma ConfirmationIsForSender(sid: string, sender: string, reader: string)
    requires IsWord(sid) && IsWord(sender)
    ensures var r := ParseSnd(Confirmation(sid, sender, reader));
      r.Some? && r.value.id == sid && r.value.to == sender
  {
    hide Word, Line, SkipSpace, Confirmation, IsWord;
    var text, body := ConfirmationText(sid, sender, reader);
    var mesg := Confirmation(sid, sender, reader);
    WordAfterBlank(sid, " " + sender + text, |mesg|);
    WordAfterBlank(sender, text, |mesg|);
    LineAfterBlanks(body);
    WordsAreNotEmpty(sid, sender);
  }

  lemma WordsAreNotEmpty(s: string, t: string)
    requires IsWord(s) && IsWord(t)
    ensures s != "" && t != ""
  {
  }

  lemma LineAfterBlanks(s: string)
    requires s != "" && s[0] == 'C'
    ensures Line(SkipSpace(" \n" + s)) != ""
  {
    var t := " \n" + s;
    assert t[1..] == "\n" + s;
    assert ("\n" + s)[1..] == s;
    assert SkipSpace(s) == s;
    assert SkipSpace("\n" + s) == s;
  }

  /**
   The confirmation names the sender when the sender's position is the first entry with the id tail that
   is at ackid + 5: reading it as a message gives the name in that position's text. Another entry first,
   such as the message itself, or none, leaves whatever the buffer held.
   */
  lemma ConfirmationNamesSender(serverid: string, t: Table, k: nat, garbage: string, now: int)
    requires ServerIdOk(serverid) && TableOk(serverid, t) && t.counter <= INT_MAX
    requires k < |t.entries| && ClientId(serverid, t.entries[k].id)
    ensures var id := t.entries[k].id;
      var j := FirstWithTail(t.entries, Heard(t, id).ackTail);
      var r := Acked(serverid, t, id, garbage, now);
      && (|id| >= 5 ==> j <= k)
      && (|id| >= 5 || t.ackTail != Tail(serverid) ==>
          var sender := if j < |t.entries| then Or(SecondWord(t.entries[j].txt, "POS:"), garbage) else garbage;
          && k < |r.entries|
          && r.entries[k].txt == Confirmation(MessageId(serverid, t.counter), sender, Reader(t.entries[k].txt)))
  {
    hide Confirmation, SecondWord, KnownId, Acked, MessageId, ClientId, Own;
    var id := t.entries[k].id;
    AckNamesOne(serverid, t, k, garbage, now);
    ClientIsOwnExactlyWhen(serverid, t, id);
    ConfirmedEntries(serverid, Acking(Heard(t, id), garbage, ""), k, now);
  }

  /** The addressee of a stored message, "" for another text. */
  function Reader(txt: string): string {
    Or(SecondWord(txt, "SND:"), "")
  }

  // ---------------------------------------------------------------- messages are conserved

  /** Stored client messages. */
  function Messages(serverid: string, entries: seq<Entry>): nat {
    if entries == [] then 0
    else Messages(serverid, entries[..|entries| - 1]) + if FromClient(serverid, entries[|entries| - 1]) then 1 else 0
  }

  function Accepted(p: Packet): nat {
    if ParseSnd(p.mesg).Some? then 1 else 0
  }

  function AllAccepted(packets: seq<Packet>): nat {
    if packets == [] then 0 else AllAccepted(packets[..|packets| - 1]) + Accepted(packets[|packets| - 1])
  }

  /** Every entry the ACK names is a client's message, or is recognised as the server's own. */
  predicate Consumes(serverid: string, t: Table, ackid: string) {
    forall k :: 0 <= k < |t.entries| && t.entries[k].id == ackid ==>
      FromClient(serverid, t.entries[k]) || Own(serverid, t, ackid)
  }

  predicate AckConsumes(serverid: string, t: Table, p: Packet) {
    ParseAck(p.mesg).Some? ==> Consumes(serverid, t, ParseAck(p.mesg).value)
  }

  lemma {:induction false} MessagesOfUpdate(serverid: string, s: seq<Entry>, r: seq<Entry>, k: nat)
    requires |r| == |s| && k < |s| && forall i :: 0 <= i < |s| && i != k ==> r[i] == s[i]
    ensures Messages(serverid, r) + (if FromClient(serverid, s[k]) then 1 else 0)
         == Messages(serverid, s) + (if FromClient(serverid, r[k]) then 1 else 0)
    decreases |s|
  {
    hide FromClient;
    var n := |s| - 1;
    if k < n {
      MessagesOfUpdate(serverid, s[..n], r[..n], k);
    } else {
      assert r[..n] == s[..n];
    }
  }

  lemma {:induction false} MessagesConcat(serverid: string, s: seq<Entry>, r: seq<Entry>)
    ensures Messages(serverid, s + r) == Messages(serverid, s) + Messages(serverid, r)
    decreases |r|
  {
    hide FromClient;
    if r == [] {
      assert s + r == s;
    } else {
      assert (s + r)[..|s + r| - 1] == s + r[..|r| - 1];
      MessagesConcat(serverid, s, r[..|r| - 1]);
    }
  }

  lemma MessagesOne(serverid: string, e: Entry)
    ensures Messages(serverid, [e]) == if FromClient(serverid, e) then 1 else 0
  {
    hide FromClient;
    assert [e][..0] == [];
  }

  lemma MessagesWithout(serverid: string, s: seq<Entry>, k: nat)
    requires k < |s|
    ensures Messages(serverid, Without(s, k)) <= Messages(serverid, s)
  {
    hide FromClient;
    assert s == s[..k] + ([s[k]] + s[k + 1..]);
    MessagesConcat(serverid, s[..k], [s[k]] + s[k + 1..]);
    MessagesConcat(serverid, [s[k]], s[k + 1..]);
    MessagesConcat(serverid, s[..k], s[k + 1..]);
  }

  lemma {:induction false} MessagesOfSweep(serverid: string, s: seq<Entry>, now: int)
    ensures Messages(serverid, Sweep(s, now)) <= Messages(serverid, s)
    decreases |s|
  {
    hide FromClient, Expired, Messages;
    if s == [] {
    } else if !Expired(s[0], now) {
      MessagesOfSweep(serverid, s[1..], now);
      assert s == [s[0]] + s[1..];
      MessagesConcat(serverid, [s[0]], s[1..]);
      MessagesConcat(serverid, [s[0]], Sweep(s[1..], now));
    } else if |s| == 1 {
      MessagesNone(serverid);
    } else {
      MessagesOfSweep(serverid, s[2..], now);
      assert s == [s[0]] + ([s[1]] + s[2..]);
      MessagesConcat(serverid, [s[0]], [s[1]] + s[2..]);
      MessagesConcat(serverid, [s[1]], s[2..]);
      MessagesConcat(serverid, [s[1]], Sweep(s[2..], now));
    }
  }

  lemma MessagesNone(serverid: string)
    ensures Messages(serverid, []) == 0
  {
  }

  /** Storing adds at most one message, and none when the text is not one. */
  lemma MessagesOfStored(serverid: string, entries: seq<Entry>, id: string, txt: string, times: int)
    requires Distinct(entries) && |id| <= ID_LENGTH
    ensures Messages(serverid, Stored(entries, id, txt, times))
         <= Messages(serverid, entries) + if "SND:" <= txt then 1 else 0
  {
    hide ClientId;
    MessagesNone(serverid);
    if HasId(entries, id) {
      var k :| 0 <= k < |entries| && entries[k].id == id;
      var r := Refreshed(entries, id, txt, times);
      MessagesOfUpdate(serverid, entries, r, k);
    } else if |entries| + 1 < MAXLISTENTRIES {
      MessagesConcat(serverid, entries, [Entry(id, txt, times)]);
      MessagesOne(serverid, Entry(id, txt, times));
    }
  }

  lemma ClientIdsAreNotMessageIds(serverid: string, n: nat)
    requires ServerIdOk(serverid) && n <= INT_MAX
    ensures !ClientId(serverid, MessageId(serverid, n))
  {
    MessageIdFits(serverid, n);
  }

  /** Confirmations made, and client messages that are still stored. */
  function Load(serverid: string, t: Table): nat {
    t.counter + Messages(serverid, t.entries)
  }

  /** An ACK for an entry of that kind uses up a stored message for each confirmation it makes; any other does not. */
  lemma AckConserves(serverid: string, t: Table, ackid: string, garbage: string, now: int)
    requires ServerIdOk(serverid) && TableOk(serverid, t) && t.counter <= INT_MAX
    ensures var r := Acked(serverid, t, ackid, garbage, now);
      Load(serverid, r) <= Load(serverid, t) <==> Consumes(serverid, t, ackid)
  {
    hide Messages, Acked, ClientId, IsMessage, Without, TableOk, Own, Heard;
    if Names(t, ackid) {
      var k :| 0 <= k < |t.entries| && t.entries[k].id == ackid;
      OnlyOneNamed(serverid, t, k);
      var r := Acked(serverid, t, ackid, garbage, now);
      AckNamesStored(serverid, t, k, garbage, now);
      if Own(serverid, t, ackid) {
        MessagesWithout(serverid, t.entries, k);
      } else {
        MessagesOfUpdate(serverid, t.entries, r.entries, k);
        ClientIdsAreNotMessageIds(serverid, t.counter);
      }
    } else {
      AckNamesNone(serverid, t, ackid, garbage, now);
    }
  }

  lemma OnlyOneNamed(serverid: string, t: Table, k: nat)
    requires TableOk(serverid, t) && k < |t.entries|
    ensures Consumes(serverid, t, t.entries[k].id) <==>
      FromClient(serverid, t.entries[k]) || Own(serverid, t, t.entries[k].id)
  {
    hide FromClient, KnownId, Own;
  }

  /** What an ACK does to the entry it names, as far as counting messages goes. */
  lemma AckNamesStored(serverid: string, t: Table, k: nat, garbage: string, now: int)
    requires ServerIdOk(serverid) && TableOk(serverid, t) && t.counter <= INT_MAX && k < |t.entries|
    ensures var ackid := t.entries[k].id;
      var r := Acked(serverid, t, ackid, garbage, now);
      if Own(serverid, t, ackid) then r == Heard(t, ackid).(entries := Without(t.entries, k))
      else
        && r.counter == t.counter + 1 && |r.entries| == |t.entries|
        && (forall i :: 0 <= i < |t.entries| && i != k ==> r.entries[i] == t.entries[i])
        && r.entries[k].id == MessageId(serverid, t.counter)
  {
    hide KnownId, Confirmed, Acked, Without, MessageId, Own;
    AckNamesOne(serverid, t, k, garbage, now);
    ConfirmedEntries(serverid, Acking(Heard(t, t.entries[k].id), garbage, ""), k, now);
  }

  /** While confirmations have two-digit numbers, every ACK that names stored messages is of that kind. */
  lemma AcksOfMessagesConsume(serverid: string, t: Table, ackid: string)
    requires ServerIdOk(serverid) && TableOk(serverid, t) && t.counter <= 100
    requires forall k :: 0 <= k < |t.entries| && t.entries[k].id == ackid ==> IsMessage(t.entries[k])
    ensures Consumes(serverid, t, ackid)
  {
    hide ClientId, IsMessage, Own;
    forall k | 0 <= k < |t.entries| && t.entries[k].id == ackid
      ensures FromClient(serverid, t.entries[k]) || Own(serverid, t, ackid)
    {
      KnownIsClientOrOwn(serverid, t, k);
    }
  }

  lemma KnownIsClientOrOwn(serverid: string, t: Table, k: nat)
    requires ServerIdOk(serverid) && TableOk(serverid, t) && t.counter <= 100 && k < |t.entries|
    ensures ClientId(serverid, t.entries[k].id) || Own(serverid, t, t.entries[k].id)
  {
    hide ClientId, MessageId, Own;
    var id := t.entries[k].id;
    assert KnownId(serverid, t.counter, id);
    OwnIds(serverid, t, 0);
    if !ClientId(serverid, id) && id != serverid {
      var n: nat :| n < t.counter && id == MessageId(serverid, n);
      OwnIds(serverid, t, n);
    }
  }

  /** The three kinds of packet exclude each other. */
  lemma OneKind(mesg: string)
    ensures ParseSnd(mesg).Some? ==> ParsePos(mesg).None? && ParseAck(mesg).None?
    ensures ParsePos(mesg).Some? ==> ParseAck(mesg).None?
    ensures ParseSnd(mesg).Some? ==> "SND:" <= mesg
    ensures ParsePos(mesg).Some? ==> !("SND:" <= Cut(mesg, POS_LENGTH))
  {
    hide Word, Words, Line, Contains;
    assert ParseSnd(mesg).Some? ==> mesg[0] == 'S';
    assert ParsePos(mesg).Some? ==> mesg[0] == 'P';
    assert ParseAck(mesg).Some? ==> mesg[0] == 'A';
  }

  lemma PacketConserves(serverid: string, t: Table, p: Packet)
    requires ServerIdOk(serverid) && TableOk(serverid, t) && GoodPacket(serverid, p) && t.counter <= INT_MAX
    requires AckConsumes(serverid, t, p)
    ensures var r := Received(serverid, t, p);
      r.counter + Messages(serverid, r.entries) <= t.counter + Messages(serverid, t.entries) + Accepted(p)
  {
    hide Messages, Stored, Acked, Sweep, ParseSnd, ParsePos, ParseAck, Consumes, KnownId, Cut, ClientId;
    OneKind(p.mesg);
    var snd, pos, ack := ParseSnd(p.mesg), ParsePos(p.mesg), ParseAck(p.mesg);
    if snd.Some? {
      ClientIdLength(serverid, snd.value.id);
      MessagesOfStored(serverid, t.entries, snd.value.id, p.mesg, MessageTime(p.now));
    }
    if pos.Some? {
      ClientIdLength(serverid, pos.value.id);
      MessagesOfStored(serverid, t.entries, pos.value.id, Cut(p.mesg, POS_LENGTH), Atol(pos.value.timesec));
    }
    if ack.Some? { AckConserves(serverid, t, ack.value, p.garbage, p.now); }
    MessagesOfSweep(serverid, AfterAck(serverid, AfterPos(AfterSnd(t, p), p), p).entries, p.now);
  }

  /**
   Over every run whose ACKs name clients' messages or entries recognised as the server's own,
   confirmations made plus client messages still stored never exceed the messages accepted: each message
   becomes at most one confirmation, and no confirmation becomes another.
   */
  lemma {:induction false} EveryRunConserves(serverid: string, line: string, now: int, stack: string,
                                             packets: seq<Packet>)
    requires ServerIdOk(serverid) && |packets| <= INT_MAX
    requires forall i :: 0 <= i < |packets| ==> GoodPacket(serverid, packets[i])
    requires forall i :: 0 <= i < |packets| ==>
      AckConsumes(serverid, RunOf(serverid, Start(serverid, line, now, stack), packets[..i]), packets[i])
    ensures var r := RunOf(serverid, Start(serverid, line, now, stack), packets);
      r.counter + Messages(serverid, r.entries) <= AllAccepted(packets)
    decreases |packets|
  {
    hide Messages, Received, Accepted, AckConsumes, GoodPacket, TableOk;
    var t := Start(serverid, line, now, stack);
    InitialTableOk(serverid, line, now, stack);
    if packets == [] {
      MessagesOne(serverid, t.entries[0]);
    } else {
      var n := |packets| - 1;
      var before := packets[..n];
      EveryRunKeepsOk(serverid, t, before);
      assert forall i :: 0 <= i < n ==> before[..i] == packets[..i];
      EveryRunConserves(serverid, line, now, stack, before);
      PacketConserves(serverid, RunOf(serverid, t, before), packets[n]);
    }
  }
}
