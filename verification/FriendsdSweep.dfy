/** What the expiry sweep removes, and how many sweeps it takes to remove everything that is too old. */
module FriendsdSweep {
  import opened Friendsd

  // ---------------------------------------------------------------- which entries go

  /** Number of expired entries directly in front of entry k. */
  function ExpiredBefore(s: seq<Entry>, k: nat, now: int): nat
    requires k <= |s|
  {
    if k == 0 || !Expired(s[k - 1], now) then 0 else 1 + ExpiredBefore(s, k - 1, now)
  }

  /** The first, third, fifth ... of every run of adjacent expired entries. */
  predicate Goes(s: seq<Entry>, k: nat, now: int)
    requires k < |s|
  {
    Expired(s[k], now) && ExpiredBefore(s, k, now) % 2 == 0
  }

  /** The entries from k on that do not go, in order. */
  function Staying(s: seq<Entry>, k: nat, now: int): seq<Entry>
    requires k <= |s|
    decreases |s| - k
  {
    if k == |s| then [] else (if Goes(s, k, now) then [] else [s[k]]) + Staying(s, k + 1, now)
  }

  lemma StayingStep(s: seq<Entry>, k: nat, now: int)
    requires k < |s|
    ensures Staying(s, k, now) == if Goes(s, k, now) then Staying(s, k + 1, now) else [s[k]] + Staying(s, k + 1, now)
  {
    hide Goes;
    assert [] + Staying(s, k + 1, now) == Staying(s, k + 1, now);
  }

  lemma SweepStep(s: seq<Entry>, k: nat, now: int)
    requires k < |s|
    ensures Sweep(s[k..], now) ==
      if !Expired(s[k], now) then [s[k]] + Sweep(s[k + 1..], now)
      else if k + 1 == |s| then []
      else [s[k + 1]] + Sweep(s[k + 2..], now)
  {
    hide Expired;
    var rest := s[k..];
    assert rest[0] == s[k] && rest[1..] == s[k + 1..];
    if k + 1 < |s| { assert rest[1] == s[k + 1] && rest[2..] == s[k + 2..]; }
  }

  lemma NothingStays(s: seq<Entry>, now: int)
    ensures Sweep(s[|s|..], now) == [] == Staying(s, |s|, now)
  {
  }

  lemma {:induction false} SweepFrom(s: seq<Entry>, k: nat, now: int)
    requires k <= |s| && (k < |s| && Expired(s[k], now) ==> ExpiredBefore(s, k, now) % 2 == 0)
    ensures Sweep(s[k..], now) == Staying(s, k, now)
    decreases |s| - k
  {
    hide Expired, Sweep, Staying;
    if k == |s| {
      NothingStays(s, now);
    } else {
      SweepStep(s, k, now);
      StayingStep(s, k, now);
      if !Expired(s[k], now) {
        SweepFrom(s, k + 1, now);
      } else if k + 1 < |s| {
        StayingStep(s, k + 1, now);
        SweepFrom(s, k + 2, now);
      } else {
        NothingStays(s, now);
      }
    }
  }

  /** The sweep keeps, in order, exactly the entries that are not at an even place in a run of expired ones. */
  lemma SweepRemovesAlternate(s: seq<Entry>, now: int)
    ensures Sweep(s, now) == Staying(s, 0, now)
  {
    assert s[0..] == s;
    SweepFrom(s, 0, now);
  }

  /** How many of the entries [a, b) go. */
  function Going(s: seq<Entry>, a: nat, b: nat, now: int): nat
    requires a <= b <= |s|
  {
    if a == b then 0 else Going(s, a, b - 1, now) + if Goes(s, b - 1, now) then 1 else 0
  }

  lemma {:induction false} RunPosition(s: seq<Entry>, a: nat, k: nat, now: int)
    requires a <= k <= |s| && (a == 0 || !Expired(s[a - 1], now))
    requires forall i :: a <= i < k ==> Expired(s[i], now)
    ensures ExpiredBefore(s, k, now) == k - a
  {
    if a < k { RunPosition(s, a, k - 1, now); }
  }

  /** A run of k adjacent expired entries, with none before it, loses ceil(k/2) of them. */
  lemma {:induction false} RunLosesHalf(s: seq<Entry>, a: nat, b: nat, now: int)
    requires a <= b <= |s| && (a == 0 || !Expired(s[a - 1], now))
    requires forall i :: a <= i < b ==> Expired(s[i], now)
    ensures Going(s, a, b, now) == (b - a + 1) / 2
  {
    if a < b {
      RunLosesHalf(s, a, b - 1, now);
      RunPosition(s, a, b - 1, now);
    }
  }

  /** The entries that are not expired, in order. */
  function Fresh(s: seq<Entry>, now: int): seq<Entry> {
    if s == [] then [] else (if Expired(s[0], now) then [] else [s[0]]) + Fresh(s[1..], now)
  }

  /** No sweep removes or reorders an entry that is not expired, in particular none of the server's own. */
  lemma {:induction false} SweepKeepsFresh(s: seq<Entry>, now: int)
    ensures Fresh(Sweep(s, now), now) == Fresh(s, now)
    decreases |s|
  {
    hide Expired;
    if s != [] {
      if !Expired(s[0], now) {
        SweepKeepsFresh(s[1..], now);
        FreshConcat(s[0], Sweep(s[1..], now), now);
      } else if |s| > 1 {
        assert s[1..][1..] == s[2..] && s[1..][0] == s[1];
        SweepKeepsFresh(s[2..], now);
        FreshConcat(s[1], Sweep(s[2..], now), now);
      }
    }
  }

  lemma FreshConcat(e: Entry, s: seq<Entry>, now: int)
    ensures Fresh([e] + s, now) == (if Expired(e, now) then [] else [e]) + Fresh(s, now)
  {
    assert ([e] + s)[1..] == s;
  }

  // ---------------------------------------------------------------- how many sweeps

  /** Length of the run of expired entries at the start. */
  function Lead(s: seq<Entry>, now: int): nat {
    if s == [] || !Expired(s[0], now) then 0 else 1 + Lead(s[1..], now)
  }

  function Max(a: nat, b: nat): nat {
    if a > b then a else b
  }

  /** Length of the longest run of expired entries. */
  function LongestRun(s: seq<Entry>, now: int): nat {
    if s == [] then 0 else Max(Lead(s, now), LongestRun(s[1..], now))
  }

  lemma LeadIsRun(s: seq<Entry>, now: int)
    ensures Lead(s, now) <= LongestRun(s, now)
  {
  }

  lemma RunsAfter(e: Entry, s: seq<Entry>, now: int)
    ensures Lead([e] + s, now) == if Expired(e, now) then 1 + Lead(s, now) else 0
    ensures LongestRun([e] + s, now) == Max(Lead([e] + s, now), LongestRun(s, now))
  {
    assert ([e] + s)[1..] == s;
  }

  /** One sweep halves every run, the longest one included. */
  lemma {:induction false} SweepHalvesRuns(s: seq<Entry>, now: int)
    ensures Lead(Sweep(s, now), now) == Lead(s, now) / 2
    ensures LongestRun(Sweep(s, now), now) == LongestRun(s, now) / 2
    decreases |s|
  {
    hide Expired;
    if s != [] {
      if !Expired(s[0], now) {
        SweepHalvesRuns(s[1..], now);
        RunsAfter(s[0], Sweep(s[1..], now), now);
      } else if |s| == 1 {
        assert s[1..] == [];
      } else {
        assert s[1..][1..] == s[2..] && s[1..][0] == s[1];
        SweepHalvesRuns(s[2..], now);
        RunsAfter(s[1], Sweep(s[2..], now), now);
        LeadIsRun(s[2..], now);
        LeadIsRun(Sweep(s[2..], now), now);
      }
    }
  }

  function Sweeps(s: seq<Entry>, n: nat, now: int): seq<Entry>
    decreases n
  {
    if n == 0 then s else Sweeps(Sweep(s, now), n - 1, now)
  }

  function Pow2(n: nat): (p: nat)
    ensures p >= 1
  {
    if n == 0 then 1 else 2 * Pow2(n - 1)
  }

  predicate NoneExpired(s: seq<Entry>, now: int) {
    forall k :: 0 <= k < |s| ==> !Expired(s[k], now)
  }

  lemma {:induction false} NoRunNoExpired(s: seq<Entry>, now: int)
    ensures LongestRun(s, now) == 0 <==> NoneExpired(s, now)
  {
    if s != [] {
      NoRunNoExpired(s[1..], now);
      assert forall k :: 1 <= k < |s| ==> s[k] == s[1..][k - 1];
      assert forall k :: 0 <= k < |s[1..]| ==> s[1..][k] == s[k + 1];
    }
  }

  /** n sweeps at one time clear the table exactly when the longest run of expired entries is shorter than 2^n. */
  lemma {:induction false} SweepsClear(s: seq<Entry>, n: nat, now: int)
    ensures NoneExpired(Sweeps(s, n, now), now) <==> LongestRun(s, now) < Pow2(n)
    decreases n
  {
    if n == 0 {
      NoRunNoExpired(s, now);
    } else {
      SweepsClear(Sweep(s, now), n - 1, now);
      SweepHalvesRuns(s, now);
    }
  }

  /** A message, or a confirmation, is expired exactly when more than two days have passed since it was written. */
  lemma MessagesLastTwoDays(id: string, txt: string, written: int, now: int)
    requires !("SRV:" <= txt)
    ensures Expired(Entry(id, txt, MessageTime(written)), now) <==> now - written > MAXMSGTIME
  {
  }
}
