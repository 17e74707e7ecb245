// What happens when the conditions of AgeQueue and AgeOrder are broken: a late duplicate re-creates a key whose old
// copy is still in order_ (tools/receiver/lib/reassembler.cpp:33-48, 81-125).
module StaleCopies {
  import opened ByteOrder
  import opened WireProtocol
  import opened Reassembly
  import opened ReassemblyRuns
  import opened AgeQueue
  import opened AgeOrder
  import opened OrderBound

  lemma {:induction false} ExpirySkips(limits: Limits, t: Table, now: u64, i: nat)
    requires i < |t.order| && t.order[i] in t.entries && Age(now, t.entries[t.order[i]]) < limits.timeout
    requires forall j :: 0 <= j < i ==> t.order[j] !in t.entries
    ensures ExpireFront(limits, t, now).expired == [] && ExpireFront(limits, t, now).table.entries == t.entries
    decreases i
  {
    if i > 0 {
      ExpirySkips(limits, t.(order := t.order[1..]), now, i - 1);
    }
  }

  // For any table: if the first pending key in order is not that of an oldest message, the next eviction is wrong,
  // and expiry is wrong as long as that message is young and an older one is overdue.
  lemma YoungFrontIsUnfair(limits: Limits, t: Table, i: nat, old_: Key, later: u64)
    requires i < |t.order| && t.order[i] in t.entries && forall j :: 0 <= j < i ==> t.order[j] !in t.entries
    requires old_ in t.entries && t.entries[old_].firstSeen < t.entries[t.order[i]].firstSeen
    ensures !EvictsAnOldest(t)
    ensures Age(later, t.entries[t.order[i]]) < limits.timeout && Overdue(limits, later, t.entries[old_]) ==>
              !ExpiresExactly(limits, t, later)
  {
    EvictionSkips(t, i);
    VictimDecides(t, t.order[i]);
    if Age(later, t.entries[t.order[i]]) < limits.timeout {
      ExpirySkips(limits, t, later, i);
    }
  }

  // The failing family. If a key is re-created while a stale copy of it precedes every pending key, the next
  // eviction takes the newest message, and no message expires, however old, as long as the new one is young. So
  // the eviction is wrong if any message is older, and the expiry if any is overdue.
  lemma StaleCopyJumpsTheQueue(limits: Limits, t: Table, h: Header, now: u64, later: u64, i: nat)
    requires KeyOf(h) !in t.entries && i < |t.order| && t.order[i] == KeyOf(h)
    requires forall j :: 0 <= j < i ==> t.order[j] !in t.entries
    requires now <= later < now + limits.timeout
    ensures var r := Create(t, h, now);
      && EvictOldest(r).entries == t.entries
      && Expire(limits, r, later).expired == []
      && ((exists k :: k in t.entries && t.entries[k].firstSeen < now) ==> !EvictsAnOldest(r))
      && ((exists k :: k in t.entries && Overdue(limits, later, t.entries[k])) ==> !ExpiresExactly(limits, r, later))
  {
    hide EvictsAnOldest, ExpiresExactly, EvictOldest, Expire;
    var r, k := Create(t, h, now), KeyOf(h);
    assert forall j :: 0 <= j <= i ==> r.order[j] == t.order[j];
    var first := FirstCopy(t.order, k, i);
    assert r.order[first] == k && forall j :: 0 <= j < first ==> r.order[j] !in r.entries;
    NothingElseGoes(limits, t, r, k, later, first);
    if old_ :| old_ in t.entries && t.entries[old_].firstSeen < now {
      YoungFrontIsUnfair(limits, r, first, old_, later);
    }
    if old_ :| old_ in t.entries && Overdue(limits, later, t.entries[old_]) {
      YoungFrontIsUnfair(limits, r, first, old_, later);
    }
  }

  lemma NothingElseGoes(limits: Limits, t: Table, r: Table, k: Key, later: u64, first: nat)
    requires first < |r.order| && r.order[first] == k && forall j :: 0 <= j < first ==> r.order[j] !in r.entries
    requires k in r.entries && k !in t.entries && r.entries - {k} == t.entries
    requires Age(later, r.entries[k]) < limits.timeout
    ensures EvictOldest(r).entries == t.entries && Expire(limits, r, later).expired == []
  {
    EvictionSkips(r, first);
    ExpirySkips(limits, r, later, first);
  }

  lemma {:induction false} FirstCopy(keys: seq<Key>, k: Key, i: nat) returns (first: nat)
    requires i < |keys| && keys[i] == k
    ensures first <= i && keys[first] == k && forall j :: 0 <= j < first ==> keys[j] != k
  {
    first := 0;
    while keys[first] != k
      invariant first <= i && forall j :: 0 <= j < first ==> keys[j] != k
      decreases i - first
    {
      first := first + 1;
    }
  }

  // ---------- Runs of two fragments ----------

  // The two fragments of a two-byte message, source 7, sequence 0.
  function Half(i: nat): Fragment
    requires i < 2
  {
    ParsedDatagram(Header(VERSION, FLAG_FRAGMENTED, 7, 2, 0, 0, i, i, 2, 1), [0])
  }

  // Both fragments, delivered n times over.
  function Replay(n: nat): seq<Op> {
    if n == 0 then [] else Replay(n - 1) + [AddOp(Half(0), 0)] + [AddOp(Half(1), 0)]
  }

  lemma OneReplay(limits: Limits, t: Table)
    requires ValidTable(limits, t) && t.entries == map[] && limits.maxMessageLength >= 2
    ensures var half := Step(limits, t, AddOp(Half(0), 0));
      && |half.entries| == 1 && Key(7, 0) in half.entries && half.entries[Key(7, 0)].firstSeen == 0
      && half.order == t.order + [Key(7, 0)]
      && Step(limits, half, AddOp(Half(1), 0)).entries == map[]
      && Step(limits, half, AddOp(Half(1), 0)).order == t.order + [Key(7, 0)]
      && (Recreates(limits, t, AddOp(Half(0), 0)) <==> Key(7, 0) in t.order)
      && !Recreates(limits, half, AddOp(Half(1), 0))
  {
    var k := Key(7, 0);
    CreationSetsOneFlag(limits, t, Half(0), 0);
    var half := Step(limits, t, AddOp(Half(0), 0));
    assert half.entries.Keys == {k};
    var e := half.entries[k];
    WithEntryIsValid(limits, half, Half(1), 0);
    FilledIsOk(limits, e, Half(1));
    CountTrueBounds(e.received[1 := true]);
    assert half.entries - {k} == map[];
  }

  // ---------- A run in which both fail ----------

  // The first of two fragments of the message behind that of Half, source 7, sequence 1.
  function Other(): Fragment {
    ParsedDatagram(Header(VERSION, FLAG_FRAGMENTED, 7, 2, 1, 0, 0, 0, 2, 1), [0])
  }

  // A message completes, the next one begins to arrive, and then a fragment of the first arrives once more.
  function LateDuplicate(again: u64): seq<Op> {
    [AddOp(Half(0), 0)] + [AddOp(Half(1), 0)] + [AddOp(Other(), 0)] + [AddOp(Half(0), again)]
  }

  // The message that was pending all along is neither evicted first nor expired when it is overdue.
  lemma LateDuplicateWitness(limits: Limits, again: u64)
    requires limits.maxPending >= 2 && limits.maxMessageLength >= 2 && again > 0
    ensures var t := Run(limits, EMPTY_TABLE, LateDuplicate(again));
      && Monotone(LateDuplicate(again)) && !EvictsAnOldest(t)
      && forall later: u64 :: limits.timeout <= later && again <= later < again + limits.timeout ==>
           !ExpiresExactly(limits, t, later)
  {
    hide Run, Step, EvictsAnOldest, ExpiresExactly, Monotone;
    hide LateDuplicate;
    var t := Run(limits, EMPTY_TABLE, LateDuplicate(again));
    LateDuplicateRuns(limits, again);
    LateDuplicateIsMonotone(again);
    YoungFrontIsUnfair(limits, t, 0, Key(7, 1), again);
    forall later: u64 | limits.timeout <= later && again <= later < again + limits.timeout
      ensures !ExpiresExactly(limits, t, later)
    {
      YoungFrontIsUnfair(limits, t, 0, Key(7, 1), later);
    }
  }

  lemma LateDuplicateIsMonotone(again: u64)
    ensures Monotone(LateDuplicate(again))
  {
    MonotoneSnoc([], AddOp(Half(0), 0));
    assert [] + [AddOp(Half(0), 0)] == [AddOp(Half(0), 0)];
    MonotoneSnoc([AddOp(Half(0), 0)], AddOp(Half(1), 0));
    MonotoneSnoc([AddOp(Half(0), 0)] + [AddOp(Half(1), 0)], AddOp(Other(), 0));
    MonotoneSnoc([AddOp(Half(0), 0)] + [AddOp(Half(1), 0)] + [AddOp(Other(), 0)], AddOp(Half(0), again));
  }

  lemma MonotoneSnoc(ops: seq<Op>, op: Op)
    requires Monotone(ops) && LastTime(ops) <= op.now
    ensures Monotone(ops + [op]) && LastTime(ops + [op]) == op.now
  {
    assert (ops + [op])[..|ops + [op]| - 1] == ops;
  }

  lemma LateDuplicateRuns(limits: Limits, again: u64)
    requires limits.maxPending >= 2 && limits.maxMessageLength >= 2
    ensures var t := Run(limits, EMPTY_TABLE, LateDuplicate(again));
      && t.order == [Key(7, 0), Key(7, 1), Key(7, 0)] && t.entries.Keys == {Key(7, 0), Key(7, 1)}
      && t.entries[Key(7, 1)].firstSeen == 0 && t.entries[Key(7, 0)].firstSeen == again
  {
    hide Run, Step, Feeds, Half, Other;
    var one := [AddOp(Half(0), 0)] + [AddOp(Half(1), 0)];
    var t1 := Run(limits, EMPTY_TABLE, one);
    var t2 := Run(limits, EMPTY_TABLE, one + [AddOp(Other(), 0)]);
    OneMessageRuns(limits);
    RunSnoc(limits, EMPTY_TABLE, one, AddOp(Other(), 0));
    RunSnoc(limits, EMPTY_TABLE, one + [AddOp(Other(), 0)], AddOp(Half(0), again));
    OthersFeed(limits, again);
    CreatesWithRoom(limits, t1, Other(), 0);
    OnlyOne(t2, Key(7, 1));
    CreatesWithRoom(limits, t2, Half(0), again);
  }

  lemma OnlyOne(t: Table, k: Key)
    requires t.entries.Keys == {k}
    ensures |t.entries| == 1
  {
    assert |t.entries| == |t.entries.Keys|;
  }

  lemma OneMessageRuns(limits: Limits)
    requires limits.maxMessageLength >= 2
    ensures var t := Run(limits, EMPTY_TABLE, [AddOp(Half(0), 0)] + [AddOp(Half(1), 0)]);
      t.order == [Key(7, 0)] && t.entries == map[]
  {
    hide Run, Step, Half;
    RunOfNothing(limits);
    assert [] + [AddOp(Half(0), 0)] == [AddOp(Half(0), 0)];
    RunSnoc(limits, EMPTY_TABLE, [], AddOp(Half(0), 0));
    RunSnoc(limits, EMPTY_TABLE, [AddOp(Half(0), 0)], AddOp(Half(1), 0));
    OneReplay(limits, EMPTY_TABLE);
  }

  lemma RunOfNothing(limits: Limits)
    ensures Run(limits, EMPTY_TABLE, []) == EMPTY_TABLE
  {
  }

  lemma OthersFeed(limits: Limits, again: u64)
    requires limits.maxMessageLength >= 2
    ensures Feeds(limits, AddOp(Other(), 0), Key(7, 1)) && KeyOf(Other().header) == Key(7, 1)
    ensures Feeds(limits, AddOp(Half(0), again), Key(7, 0)) && KeyOf(Half(0).header) == Key(7, 0)
  {
  }

  // ---------- The bound on order_ fails too ----------

  lemma ReplayOnce(limits: Limits, ops: seq<Op>)
    requires limits.maxMessageLength >= 2 && Run(limits, EMPTY_TABLE, ops).entries == map[]
    ensures var t, again := Run(limits, EMPTY_TABLE, ops), ops + [AddOp(Half(0), 0)] + [AddOp(Half(1), 0)];
      var r := Run(limits, EMPTY_TABLE, again);
      && r.entries == map[] && r.order == t.order + [Key(7, 0)]
      && Recreations(limits, again) == Recreations(limits, ops) + if Key(7, 0) in t.order then 1 else 0
  {
    hide Step, Recreates;
    RunSnoc(limits, EMPTY_TABLE, ops, AddOp(Half(0), 0));
    RunSnoc(limits, EMPTY_TABLE, ops + [AddOp(Half(0), 0)], AddOp(Half(1), 0));
    RecreationsSnoc(limits, ops, AddOp(Half(0), 0));
    RecreationsSnoc(limits, ops + [AddOp(Half(0), 0)], AddOp(Half(1), 0));
    OneReplay(limits, Run(limits, EMPTY_TABLE, ops));
  }

  lemma RecreationsSnoc(limits: Limits, ops: seq<Op>, op: Op)
    ensures Recreations(limits, ops + [op]) ==
            Recreations(limits, ops) + if Recreates(limits, Run(limits, EMPTY_TABLE, ops), op) then 1 else 0
  {
    assert (ops + [op])[..|ops + [op]| - 1] == ops;
  }

  predicate AllCopies(keys: seq<Key>, n: nat) {
    |keys| == n && forall i :: 0 <= i < n ==> keys[i] == Key(7, 0)
  }

  lemma CopiesInclude(keys: seq<Key>, n: nat)
    requires AllCopies(keys, n)
    ensures Key(7, 0) in keys <==> n > 0
  {
    if n > 0 { assert keys[0] == Key(7, 0); }
  }

  lemma {:induction false} ReplayLeavesCopies(limits: Limits, n: nat)
    requires limits.maxMessageLength >= 2
    ensures var t := Run(limits, EMPTY_TABLE, Replay(n)); t.entries == map[] && AllCopies(t.order, n)
    ensures Recreations(limits, Replay(n)) == if n == 0 then 0 else n - 1
  {
    hide Step, Recreates;
    if n > 0 {
      ReplayLeavesCopies(limits, n - 1);
      CopiesInclude(Run(limits, EMPTY_TABLE, Replay(n - 1)).order, n - 1);
      ReplayOnce(limits, Replay(n - 1));
    }
  }

  lemma {:induction false} LiveOfCopies(keys: seq<Key>, n: nat, m: map<Key, Entry>)
    requires AllCopies(keys, n) && Key(7, 0) in m
    ensures Live(keys, m) == keys
  {
    if n > 0 {
      LiveOfCopies(keys[1..], n - 1, m);
    }
  }

  // The runs that break the bound: deliver the same two datagrams n times and then the first of them once
  // more. One message is pending, order_ holds n + 1 copies of its key, and compaction keeps all of
  // them. The run re-created the key n times, so the bound by re-creations of OrderBound is attained, and
  // 4 * 1 + 64 is exceeded exactly from n = 68 on.
  lemma CompactionCanFail(limits: Limits, n: nat)
    requires limits.maxMessageLength >= 2 && limits.timeout > 0
    ensures var ops := Replay(n) + [AddOp(Half(0), 0)];
      var r := Expire(limits, Run(limits, EMPTY_TABLE, ops), 0).table;
      && |r.entries| == 1 && |r.order| == n + 1 == |r.entries| + Recreations(limits, ops)
      && (|r.order| > 4 * |r.entries| + 64 <==> n >= 68)
  {
    hide Run, Expire, Recreations, AllCopies;
    ReplayAndHalf(limits, n);
    var t := Run(limits, EMPTY_TABLE, Replay(n) + [AddOp(Half(0), 0)]);
    FrontIsYoung(limits, t, n + 1);
  }

  lemma ReplayAndHalf(limits: Limits, n: nat)
    requires limits.maxMessageLength >= 2
    ensures var ops := Replay(n) + [AddOp(Half(0), 0)];
      var t := Run(limits, EMPTY_TABLE, ops);
      && |t.entries| == 1 && Key(7, 0) in t.entries && t.entries[Key(7, 0)].firstSeen == 0
      && AllCopies(t.order, n + 1) && |t.order| == n + 1 && Recreations(limits, ops) == n
  {
    hide Step, Recreates, Run, Recreations, Replay;
    var before := Run(limits, EMPTY_TABLE, Replay(n));
    ReplayLeavesCopies(limits, n);
    RunSnoc(limits, EMPTY_TABLE, Replay(n), AddOp(Half(0), 0));
    RecreationsSnoc(limits, Replay(n), AddOp(Half(0), 0));
    OneReplay(limits, before);
    CopiesInclude(before.order, n);
  }

  lemma FrontIsYoung(limits: Limits, t: Table, n: nat)
    requires AllCopies(t.order, n) && n > 0 && limits.timeout > 0
    requires Key(7, 0) in t.entries && t.entries[Key(7, 0)].firstSeen == 0
    ensures Expire(limits, t, 0).table == t
  {
    LiveOfCopies(t.order, n, t.entries);
    assert ExpireFront(limits, t, 0) == ExpireOutcome(t, []);
  }
}
