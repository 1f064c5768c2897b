/**
 The friends server of src/friendsd.c: its table and what each packet does to it. C strings are values;
 the clock and the text left on the stack by an earlier packet are parameters.
 */
module Friendsd {
  import opened Common
  import opened Decimal
  import opened FriendsText

  /** Maximum age of data: one week. */
  const MAXSEC := 7 * 24 * 3600

  /** Maximum age of messages: two days. */
  const MAXMSGTIME := 48 * 3600

  const MAXLISTENTRIES := 500
  const ID_LENGTH := 30
  const POS_LENGTH := 200

  datatype Entry = Entry(id: string, txt: string, times: int)

  /**
   list[..listnum], messagecounter, and ackTail, the text at ackid + 5: an acknowledged id of fewer than five
   characters leaves there what an earlier one wrote.
   */
  datatype Table = Table(entries: seq<Entry>, counter: nat, ackTail: string)

  /** A packet, the clock when it is handled, and what the uninitialised buffer msgname holds. */
  datatype Packet = Packet(mesg: string, now: int, garbage: string)

  // ---------------------------------------------------------------- storing

  /** strncpy into a buffer that keeps n characters. */
  function Cut(s: string, n: nat): string {
    if |s| <= n then s else s[..n]
  }

  function Refreshed(entries: seq<Entry>, id: string, txt: string, times: int): (r: seq<Entry>)
    ensures |r| == |entries|
    ensures forall k :: 0 <= k < |r| ==> r[k] == if entries[k].id == id then Entry(id, txt, times) else entries[k]
  {
    if entries == [] then []
    else [if entries[0].id == id then Entry(id, txt, times) else entries[0]] + Refreshed(entries[1..], id, txt, times)
  }

  predicate HasId(entries: seq<Entry>, id: string) {
    exists k :: 0 <= k < |entries| && entries[k].id == id
  }

  /** Update every entry with the id, or add one; adding the 500th empties the table. */
  function Stored(entries: seq<Entry>, id: string, txt: string, times: int): seq<Entry> {
    if HasId(entries, id) then Refreshed(entries, id, txt, times)
    else if |entries| + 1 >= MAXLISTENTRIES then []
    else entries + [Entry(Cut(id, ID_LENGTH), txt, times)]
  }

  lemma StoredCases(entries: seq<Entry>, id: string, txt: string, times: int)
    ensures Stored(entries, id, txt, times) ==
      if HasId(entries, id) then Refreshed(entries, id, txt, times)
      else if |entries| + 1 >= MAXLISTENTRIES then []
      else entries + [Entry(Cut(id, ID_LENGTH), txt, times)]
  {
  }

  /** A message written now is dated so that it expires two days from now. */
  function MessageTime(now: int): int {
    now - MAXSEC + MAXMSGTIME
  }

  function AfterSnd(t: Table, p: Packet): Table {
    match ParseSnd(p.mesg)
    case None => t
    case Some(snd) => t.(entries := Stored(t.entries, snd.id, p.mesg, MessageTime(p.now)))
  }

  function AfterPos(t: Table, p: Packet): Table {
    match ParsePos(p.mesg)
    case None => t
    case Some(pos) => t.(entries := Stored(t.entries, pos.id, Cut(p.mesg, POS_LENGTH), Atol(pos.timesec)))
  }

  // ---------------------------------------------------------------- acknowledging

  /** id + 5 of a stored id; strncpy leaves nothing but zeros behind a shorter one. */
  function Tail(id: string): string {
    if |id| >= 5 then id[5..] else ""
  }

  /** "MSG%02d%s". */
  function MessageId(serverid: string, n: nat): string {
    "MSG" + PaddedText(n, 2) + Tail(serverid)
  }

  function Confirmation(sid: string, sender: string, reader: string): string {
    "SND: " + sid + " " + sender + " \nConfirmation:\n The user " + reader + " has read your message!"
  }

  /** First entry whose id has the tail, or the number of entries. */
  function FirstWithTail(entries: seq<Entry>, tail: string): (j: nat)
    ensures j <= |entries| && (forall i :: 0 <= i < j ==> Tail(entries[i].id) != tail)
    ensures j < |entries| ==> Tail(entries[j].id) == tail
  {
    if entries == [] || Tail(entries[0].id) == tail then 0 else 1 + FirstWithTail(entries[1..], tail)
  }

  /** The table, and the buffers msgname and recname. */
  datatype Acking = Acking(table: Table, sender: string, reader: string)

  function Or(value: Option<string>, default: string): string {
    if value.Some? then value.value else default
  }

  function Without(entries: seq<Entry>, i: nat): seq<Entry>
    requires i < |entries|
  {
    entries[..i] + entries[i + 1..]
  }

  /** Shifting the entries behind one over it removes it. */
  lemma ShiftedIsWithout(s: seq<Entry>, r: seq<Entry>, i: nat, n: nat)
    requires |r| == |s| && i < n < |s|
    requires forall k :: 0 <= k < i ==> r[k] == s[k]
    requires forall k :: i <= k < n ==> r[k] == s[k + 1]
    ensures r[..n - 1] == Without(s[..n], i)
  {
  }

  /** sscanf into ackid: up to its terminator. */
  function Heard(t: Table, ackid: string): (r: Table)
    ensures r.entries == t.entries && r.counter == t.counter
  {
    if |ackid| >= 5 then t.(ackTail := Tail(ackid)) else t
  }

  /** Entry i, named by an ACK that is not for the server itself, becomes a confirmation to its sender. */
  function Confirmed(serverid: string, a: Acking, i: nat, now: int): (r: Acking)
    requires i < |a.table.entries|
    ensures |r.table.entries| == |a.table.entries| && r.table.ackTail == a.table.ackTail
  {
    var entries := a.table.entries;
    var j := FirstWithTail(entries, a.table.ackTail);
    var sender := if j < |entries| then Or(SecondWord(entries[j].txt, "POS:"), a.sender) else a.sender;
    var reader := Or(SecondWord(entries[i].txt, "SND:"), a.reader);
    var sid := Cut(MessageId(serverid, a.table.counter), 39);
    var entry := Entry(Cut(sid, ID_LENGTH), Confirmation(sid, sender, reader), MessageTime(now));
    Acking(a.table.(entries := entries[i := entry], counter := a.table.counter + 1), sender, reader)
  }

  /** The ACK loop from entry i on. */
  function AckFrom(serverid: string, a: Acking, i: nat, ackid: string, now: int): Acking
    requires i <= |a.table.entries|
    decreases |a.table.entries| - i
  {
    var entries := a.table.entries;
    if i == |entries| then a
    else if entries[i].id != ackid then AckFrom(serverid, a, i + 1, ackid, now)
    else if a.table.ackTail == Tail(serverid) then a.(table := a.table.(entries := Without(entries, i)))
    else AckFrom(serverid, Confirmed(serverid, a, i, now), i + 1, ackid, now)
  }

  /** The table after an ACK of this id; garbage is what the buffer msgname holds. */
  function Acked(serverid: string, t: Table, ackid: string, garbage: string, now: int): Table {
    AckFrom(serverid, Acking(Heard(t, ackid), garbage, ""), 0, ackid, now).table
  }

  function AfterAck(serverid: string, t: Table, p: Packet): Table {
    match ParseAck(p.mesg)
    case None => t
    case Some(ackid) => Acked(serverid, t, ackid, p.garbage, p.now)
  }

  // ---------------------------------------------------------------- expiring

  /** Older than a week, and not the server's own line. */
  predicate Expired(e: Entry, now: int) {
    !("SRV:" <= e.txt) && now - e.times > MAXSEC
  }

  /** The sweep: after an expired entry is removed, the entry that took its place is passed over. */
  function Sweep(s: seq<Entry>, now: int): seq<Entry> {
    if s == [] then []
    else if Expired(s[0], now) then (if |s| == 1 then [] else [s[1]] + Sweep(s[2..], now))
    else [s[0]] + Sweep(s[1..], now)
  }

  /** One turn of the sweep's loop, at index i of the table. */
  lemma SweepTurn(s: seq<Entry>, i: nat, now: int)
    requires i < |s|
    ensures var t := if Expired(s[i], now) then Without(s, i) else s;
      s[..i] + Sweep(s[i..], now) == if i + 1 <= |t| then t[..i + 1] + Sweep(t[i + 1..], now) else t
  {
    hide Expired;
    var rest := s[i..];
    assert rest[1..] == s[i + 1..];
    if !Expired(s[i], now) {
      assert s[..i + 1] == s[..i] + [s[i]];
    } else if |rest| == 1 {
      assert Without(s, i) == s[..i];
    } else {
      var t := Without(s, i);
      assert rest[2..] == t[i + 1..];
      assert t[..i + 1] == s[..i] + [s[i + 1]];
    }
  }

  lemma SweepNothing(s: seq<Entry>, i: nat, now: int)
    requires i >= |s|
    ensures i == |s| ==> s[..i] + Sweep(s[i..], now) == s
  {
  }

  function Received(serverid: string, t: Table, p: Packet): Table {
    var a := AfterAck(serverid, AfterPos(AfterSnd(t, p), p), p);
    a.(entries := Sweep(a.entries, p.now))
  }

  // ---------------------------------------------------------------- the server

  class Server {
    const serverid: string
    const list: array<Entry>
    var listnum: nat
    var messagecounter: nat
    var ackTail: string

    ghost predicate Valid()
      reads this
    {
      list.Length == MAXLISTENTRIES && listnum < MAXLISTENTRIES
    }

    ghost function Entries(): seq<Entry>
      requires Valid()
      reads this, list
    {
      list[..listnum]
    }

    ghost function Now(): Table
      requires Valid()
      reads this, list
    {
      Table(Entries(), messagecounter, ackTail)
    }

    /** The table that main sets up, with the server's own entry; stack is what the buffer ackid holds at first. */
    constructor (serverid: string, line: string, now: int, stack: string)
      ensures Valid() && fresh(list) && this.serverid == serverid
      ensures Now() == Table([Entry(serverid, "SRV: " + line, now)], 0, stack)
    {
      this.serverid := serverid;
      var entry := Entry(serverid, "SRV: " + line, now);
      list := new Entry[MAXLISTENTRIES](_ => entry);
      listnum, messagecounter, ackTail := 1, 0, stack;
    }

    /** Both copies of the find-or-insert code. The entry is written before listnum wraps to zero. */
    method StoreEntry(id: string, txt: string, times: int)
      requires Valid()
      modifies list, this`listnum
      ensures Valid() && Now() == old(Now()).(entries := Stored(old(Entries()), id, txt, times))
    {
      hide Cut, Stored, Refreshed;
      var newclient := true;
      var i := 0;
      ghost var was := Entries();
      while i < listnum
        invariant 0 <= i <= listnum && Valid() && listnum == |was|
        invariant newclient <==> forall k :: 0 <= k < i ==> was[k].id != id
        invariant forall k :: 0 <= k < i ==> list[k] == if was[k].id == id then Entry(id, txt, times) else was[k]
        invariant forall k :: i <= k < listnum ==> list[k] == was[k]
      {
        if list[i].id == id {
          newclient := false;
          list[i] := list[i].(txt := txt, times := times);
        }
        i := i + 1;
      }
      if newclient {
        listnum := listnum + 1;
        if listnum >= MAXLISTENTRIES { listnum := 0; }
        list[i] := Entry(Cut(id, ID_LENGTH), txt, times);
        assert Entries() == if |was| + 1 >= MAXLISTENTRIES then [] else was + [list[i]];
      } else {
        assert Entries() == Refreshed(was, id, txt, times);
      }
      StoredCases(was, id, txt, times);
    }

    /** The shift loop used by the ACK branch and by the sweep. */
    method DeleteAt(i: nat)
      requires Valid() && i < listnum
      modifies list, this`listnum
      ensures Valid() && listnum == old(listnum) - 1 && Entries() == Without(old(Entries()), i)
    {
      hide Without;
      var j := i;
      ghost var was := list[..];
      while j < listnum
        invariant i <= j <= listnum && Valid() && listnum == old(listnum)
        invariant forall k :: 0 <= k < i ==> list[k] == was[k]
        invariant forall k :: i <= k < j ==> list[k] == was[k + 1]
        invariant forall k :: j <= k < list.Length ==> list[k] == was[k]
      {
        list[j] := list[j + 1];
        j := j + 1;
      }
      ShiftedIsWithout(was, list[..], i, listnum);
      listnum := listnum - 1;
    }

    /** The search for the sender's entry. */
    method FindTail() returns (j: nat)
      requires Valid()
      ensures j == FirstWithTail(Entries(), ackTail)
    {
      hide Tail;
      j := 0;
      while j < listnum && Tail(list[j].id) != ackTail
        invariant 0 <= j <= listnum
        invariant FirstWithTail(Entries(), ackTail) == j + FirstWithTail(Entries()[j..], ackTail)
      {
        assert Entries()[j..][1..] == Entries()[j + 1..];
        j := j + 1;
      }
    }

    /** The rewriting part of the ACK branch for entry i. */
    method Confirm(i: nat, now: int, msgname: string, recname: string)
      returns (msgname': string, recname': string)
      requires Valid() && i < listnum
      modifies list, this`messagecounter
      ensures Valid()
      ensures Acking(Now(), msgname', recname')
        == Confirmed(serverid, old(Acking(Now(), msgname, recname)), i, now)
    {
      hide Confirmation, MessageId, SecondWord, Cut, FirstWithTail;
      msgname', recname' := msgname, recname;
      ghost var was := Entries();
      var j := FindTail();
      if j < listnum {
        var name := SecondWord(list[j].txt, "POS:");
        if name.Some? { msgname' := name.value; }
      }
      var reader := SecondWord(list[i].txt, "SND:");
      if reader.Some? { recname' := reader.value; }
      var sid := Cut(MessageId(serverid, messagecounter), 39);
      messagecounter := messagecounter + 1;
      list[i] := Entry(Cut(sid, ID_LENGTH), Confirmation(sid, msgname', recname'), MessageTime(now));
      assert Entries() == was[i := list[i]];
    }

    /** The ACK branch. */
    method Acknowledge(ackid: string, now: int, garbage: string)
      requires Valid()
      modifies list, this`listnum, this`messagecounter, this`ackTail
      ensures Valid() && Now() == Acked(serverid, old(Now()), ackid, garbage, now)
    {
      hide Confirmed;
      if |ackid| >= 5 { ackTail := Tail(ackid); }
      var msgname, recname := garbage, "";
      ghost var goal := AckFrom(serverid, Acking(Now(), msgname, recname), 0, ackid, now);
      var i := 0;
      while i < listnum
        invariant Valid() && i <= listnum
        invariant goal == AckFrom(serverid, Acking(Now(), msgname, recname), i, ackid, now)
      {
        if list[i].id == ackid {
          if ackTail == Tail(serverid) {
            DeleteAt(i);
            break;
          } else {
            msgname, recname := Confirm(i, now, msgname, recname);
          }
        }
        i := i + 1;
      }
    }

    /** The expiry sweep. */
    method SortOut(now: int)
      requires Valid()
      modifies list, this`listnum
      ensures Valid() && Now() == old(Now()).(entries := Sweep(old(Entries()), now))
    {
      hide Sweep, Expired, Without;
      ghost var goal := Sweep(Entries(), now);
      var i := 0;
      assert Entries()[..0] + Sweep(Entries()[0..], now) == goal by { assert Entries()[0..] == Entries(); }
      while i < listnum
        invariant Valid() && i <= listnum + 1
        invariant goal == if i <= listnum then Entries()[..i] + Sweep(Entries()[i..], now) else Entries()
      {
        SweepTurn(Entries(), i, now);
        if Expired(list[i], now) {
          DeleteAt(i);
        }
        i := i + 1;
      }
      SweepNothing(Entries(), i, now);
    }

    /** One packet: the three branches, then the sweep. */
    method Receive(p: Packet)
      requires Valid()
      modifies list, this`listnum, this`messagecounter, this`ackTail
      ensures Valid() && Now() == Received(serverid, old(Now()), p)
    {
      var snd := ParseSnd(p.mesg);
      if snd.Some? { StoreEntry(snd.value.id, p.mesg, MessageTime(p.now)); }
      var pos := ParsePos(p.mesg);
      if pos.Some? { StoreEntry(pos.value.id, Cut(p.mesg, POS_LENGTH), Atol(pos.value.timesec)); }
      var ackid := ParseAck(p.mesg);
      if ackid.Some? { Acknowledge(ackid.value, p.now, p.garbage); }
      SortOut(p.now);
    }
  }
}
