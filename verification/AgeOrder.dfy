// When order_ is sorted by age, although a key may be in it more than once, and what follows from that:
// eviction takes an oldest message, and expiry takes exactly the overdue ones
// (tools/receiver/lib/reassembler.cpp:33-48, 81-125).
module AgeOrder {
  import opened ByteOrder
  import opened WireProtocol
  import opened Reassembly
  import opened ReassemblyRuns
  import opened AgeQueue

  predicate Aged(t: Table) {
    Tracked(t) && Sorted(t.entries, t.order)
  }

  // ---------- What sorted order is good for ----------

  // The next eviction takes an entry that was first seen no later than any other.
  ghost predicate EvictsAnOldest(t: Table) {
    exists v :: v in t.entries && EvictOldest(t).entries == t.entries - {v} && IsOldest(t.entries, v)
  }

  predicate IsOldest(entries: map<Key, Entry>, v: Key)
    requires v in entries
  {
    forall k :: k in entries ==> entries[v].firstSeen <= entries[k].firstSeen
  }

  // Expiry at time now removes exactly the overdue entries.
  predicate ExpiresExactly(limits: Limits, t: Table, now: u64) {
    forall k :: k in t.entries ==>
      (k in Expire(limits, t, now).table.entries <==> !Overdue(limits, now, t.entries[k]))
  }

  lemma {:induction false} EvictionSkips(t: Table, i: nat)
    requires i < |t.order| && t.order[i] in t.entries
    requires forall j :: 0 <= j < i ==> t.order[j] !in t.entries
    ensures EvictOldest(t).entries == t.entries - {t.order[i]}
    decreases i
  {
    if i > 0 {
      EvictionSkips(t.(order := t.order[1..]), i - 1);
    }
  }

  // For any table: expiry goes through the order up to the first pending key that is young, and removes
  // the pending keys in front of it.
  lemma {:induction false} ExpiryStops(limits: Limits, t: Table, now: u64) returns (n: nat)
    requires NotFromFuture(t.entries, now)
    ensures n <= |t.order|
    ensures forall i :: 0 <= i < n && t.order[i] in t.entries ==> Overdue(limits, now, t.entries[t.order[i]])
    ensures n < |t.order| ==> t.order[n] in t.entries && !Overdue(limits, now, t.entries[t.order[n]])
    ensures forall k :: k in Expire(limits, t, now).table.entries <==> k in t.entries && k !in t.order[..n]
    decreases |t.order|
  {
    hide Overdue, NotFromFuture;
    if t.order == [] {
      return 0;
    }
    var k, popped := t.order[0], t.(order := t.order[1..]);
    var rest := if k in t.entries then Remove(popped, k) else popped;
    if k in t.entries {
      AgeIsExact(limits, t, k, now);
      if !Overdue(limits, now, t.entries[k]) {
        return 0;
      }
    }
    FewerAreNotFromFuture(t, rest, now);
    var m := ExpiryStops(limits, rest, now);
    n := m + 1;
    OneFurther(limits, t, rest, k, now, m);
  }

  // The test of expire, in 64-bit arithmetic, on an entry that is not from the future.
  lemma AgeIsExact(limits: Limits, t: Table, k: Key, now: u64)
    requires NotFromFuture(t.entries, now) && k in t.entries
    ensures Age(now, t.entries[k]) >= limits.timeout <==> Overdue(limits, now, t.entries[k])
  {
  }

  lemma FewerAreNotFromFuture(t: Table, rest: Table, now: u64)
    requires NotFromFuture(t.entries, now)
    requires forall k :: k in rest.entries ==> k in t.entries && rest.entries[k] == t.entries[k]
    ensures NotFromFuture(rest.entries, now)
  {
  }

  // Where expiry stops with one more key in front that it pops.
  lemma OneFurther(limits: Limits, t: Table, rest: Table, k: Key, now: u64, m: nat)
    requires t.order != [] && t.order[0] == k && rest.order == t.order[1..] && rest.entries == t.entries - {k}
    requires k in t.entries ==> Overdue(limits, now, t.entries[k])
    requires m <= |rest.order|
    requires forall i :: 0 <= i < m && rest.order[i] in rest.entries ==>
               Overdue(limits, now, rest.entries[rest.order[i]])
    requires m < |rest.order| ==> rest.order[m] in rest.entries
    ensures forall i :: 0 <= i < m + 1 && t.order[i] in t.entries ==> Overdue(limits, now, t.entries[t.order[i]])
    ensures m + 1 < |t.order| ==> t.order[m + 1] == rest.order[m] && rest.order[m] in t.entries
    ensures forall j :: j in rest.entries && j !in rest.order[..m] <==> j in t.entries && j !in t.order[..m + 1]
  {
    hide Overdue;
    assert t.order[..m + 1] == [k] + rest.order[..m];
    assert forall i :: 1 <= i < |t.order| ==> t.order[i] == rest.order[i - 1];
  }

  lemma FirstPending(t: Table) returns (i: nat)
    requires Tracked(t) && t.entries != map[]
    ensures i < |t.order| && t.order[i] in t.entries && forall j :: 0 <= j < i ==> t.order[j] !in t.entries
  {
    var k :| k in t.entries;
    var last :| 0 <= last < |t.order| && t.order[last] == k;
    i := 0;
    while t.order[i] !in t.entries
      invariant i <= last && forall j :: 0 <= j < i ==> t.order[j] !in t.entries
      decreases last - i
    {
      i := i + 1;
    }
  }

  lemma FirstPendingIsOldest(t: Table, i: nat)
    requires Aged(t) && i < |t.order| && t.order[i] in t.entries && forall j :: 0 <= j < i ==> t.order[j] !in t.entries
    ensures IsOldest(t.entries, t.order[i])
  {
    forall k | k in t.entries
      ensures t.entries[t.order[i]].firstSeen <= t.entries[k].firstSeen
    {
      var j :| 0 <= j < |t.order| && t.order[j] == k;
    }
  }

  // While the order is sorted, eviction takes an oldest entry, and expiry takes exactly the overdue ones.
  lemma AgedIsFair(limits: Limits, t: Table, now: u64)
    requires Aged(t) && NotFromFuture(t.entries, now)
    ensures t.entries != map[] ==> EvictsAnOldest(t)
    ensures ExpiresExactly(limits, t, now)
  {
    hide Expire, EvictOldest;
    if t.entries != map[] {
      var i := FirstPending(t);
      EvictionSkips(t, i);
      FirstPendingIsOldest(t, i);
    }
    var n := ExpiryStops(limits, t, now);
    forall k | k in t.entries
      ensures k in t.order[..n] <==> Overdue(limits, now, t.entries[k])
    {
      var j :| 0 <= j < |t.order| && t.order[j] == k;
      if j < n { assert t.order[..n][j] == k; }
    }
  }

  // ---------- What keeps it sorted ----------

  // The stale copies of k do no harm: every pending message behind one was first seen at this very instant.
  predicate CopiesAreHarmless(t: Table, k: Key, now: u64) {
    forall i, j :: 0 <= i < j < |t.order| && t.order[i] == k && t.order[j] in t.entries ==>
      t.entries[t.order[j]].firstSeen == now
  }

  // Exactly when creating a key keeps the order sorted. Without a stale copy this always holds.
  lemma CreationKeepsSortedIff(t: Table, h: Header, now: u64)
    requires Sorted(t.entries, t.order) && NotFromFuture(t.entries, now) && KeyOf(h) !in t.entries
    ensures var r := Create(t, h, now); Sorted(r.entries, r.order) <==> CopiesAreHarmless(t, KeyOf(h), now)
  {
    var k, r := KeyOf(h), Create(t, h, now);
    assert forall i :: 0 <= i < |t.order| ==> r.order[i] == t.order[i];
    if Sorted(r.entries, r.order) {
      forall i, j | 0 <= i < j < |t.order| && t.order[i] == k && t.order[j] in t.entries
        ensures t.entries[t.order[j]].firstSeen == now
      {
        assert r.entries[r.order[i]].firstSeen <= r.entries[r.order[j]].firstSeen;
      }
    }
  }

  lemma SortedBehind(m: map<Key, Entry>, keys: seq<Key>, k: Key)
    requires keys != [] && Sorted(m, keys)
    ensures Sorted(m, keys[1..]) && Sorted(m - {k}, keys[1..])
  {
    var rest := keys[1..];
    assert forall i :: 0 <= i < |rest| ==> rest[i] == keys[i + 1];
  }

  lemma {:induction false} EvictionKeepsSorted(t: Table)
    requires Sorted(t.entries, t.order)
    ensures Sorted(EvictOldest(t).entries, EvictOldest(t).order)
    decreases |t.order|
  {
    hide Sorted;
    if t.order != [] {
      SortedBehind(t.entries, t.order, t.order[0]);
      if t.order[0] !in t.entries { EvictionKeepsSorted(t.(order := t.order[1..])); }
    }
  }

  lemma {:induction false} MakingRoomKeepsSorted(t: Table, max: nat)
    requires Sorted(t.entries, t.order)
    ensures Sorted(MakeRoom(t, max).entries, MakeRoom(t, max).order)
    decreases |t.order|
  {
    hide Sorted, EvictOldest;
    if |t.entries| >= max && t.order != [] {
      EvictionShrinks(t);
      EvictionKeepsSorted(t);
      MakingRoomKeepsSorted(EvictOldest(t), max);
    }
  }

  lemma {:induction false} ExpiryKeepsSorted(limits: Limits, t: Table, now: u64)
    requires Sorted(t.entries, t.order)
    ensures var r := ExpireFront(limits, t, now).table; Sorted(r.entries, r.order)
    decreases |t.order|
  {
    hide Sorted;
    if t.order != [] {
      var k, popped := t.order[0], t.(order := t.order[1..]);
      SortedBehind(t.entries, t.order, k);
      if k !in t.entries {
        ExpiryKeepsSorted(limits, popped, now);
      } else if Age(now, t.entries[k]) >= limits.timeout {
        ExpiryKeepsSorted(limits, Remove(popped, k), now);
      }
    }
  }

  lemma {:induction false} LiveIsSorted(keys: seq<Key>, m: map<Key, Entry>)
    requires Sorted(m, keys)
    ensures Sorted(m, Live(keys, m))
  {
    if keys != [] {
      var rest := keys[1..];
      SortedBehind(m, keys, keys[0]);
      LiveIsSorted(rest, m);
      if keys[0] in m {
        forall j | 0 <= j < |Live(rest, m)| && Live(rest, m)[j] in m
          ensures m[keys[0]].firstSeen <= m[Live(rest, m)[j]].firstSeen
        {
          LiveKeys(rest, m, Live(rest, m)[j]);
          var i :| 0 <= i < |rest| && rest[i] == Live(rest, m)[j];
          assert keys[i + 1] == rest[i];
        }
      }
    }
  }

  lemma StoringKeepsSortedIff(limits: Limits, t: Table, f: Fragment, newMessage: bool)
    requires KeyOf(f.header) in t.entries && EntryOk(limits, t.entries[KeyOf(f.header)])
    ensures var r := Store(limits, t, f, newMessage).table;
      && (Sorted(t.entries, t.order) ==> Sorted(r.entries, r.order))
      && (KeyOf(f.header) in r.entries && Sorted(r.entries, r.order) ==> Sorted(t.entries, t.order))
  {
    hide Store;
    StoringKeepsAges(limits, t, f, newMessage);
    StoringTouchesNoOther(limits, t, f, newMessage);
  }

  lemma StoringTouchesNoOther(limits: Limits, t: Table, f: Fragment, newMessage: bool)
    requires KeyOf(f.header) in t.entries && EntryOk(limits, t.entries[KeyOf(f.header)])
    ensures forall j :: j in t.entries && j != KeyOf(f.header) ==> j in Store(limits, t, f, newMessage).table.entries
  {
  }

  // ---------- Whole runs ----------

  // If op creates an entry, the stale copies of its key do no harm, once eviction has made room.
  predicate CreatesInOrder(limits: Limits, t: Table, op: Op) {
    Creates(limits, t, op) ==> CopiesAreHarmless(MakeRoom(t, limits.maxPending), KeyOf(op.f.header), op.now)
  }

  lemma AddKeepsSortedIff(limits: Limits, t: Table, f: Fragment, now: u64)
    requires ValidTable(limits, t) && Sorted(t.entries, t.order) && NotFromFuture(t.entries, now)
    ensures var r := Add(limits, t, f, now).table;
        Sorted(r.entries, r.order) <==> CreatesInOrder(limits, t, AddOp(f, now))
  {
    hide Sorted, NotFromFuture, CopiesAreHarmless, MakeRoom, Store, ValidTable;
    var k := KeyOf(f.header);
    if f.header.fragmentCount != 1 && f.header.messageLength <= limits.maxMessageLength {
      WithEntryIsValid(limits, t, f, now);
      StoringInValid(limits, WithEntry(limits, t, f.header, now), f, k !in t.entries);
      if k !in t.entries {
        var room := MakeRoom(t, limits.maxPending);
        RoomIsNotFromFuture(limits, t, now);
        MakingRoomKeepsSorted(t, limits.maxPending);
        assert k !in room.entries;
        CreationKeepsSortedIff(room, f.header, now);
        CreationSetsOneFlag(limits, t, f, now);
      }
    }
  }

  lemma RoomIsNotFromFuture(limits: Limits, t: Table, now: u64)
    requires ValidTable(limits, t) && NotFromFuture(t.entries, now)
    ensures NotFromFuture(MakeRoom(t, limits.maxPending).entries, now)
    ensures forall k :: k in MakeRoom(t, limits.maxPending).entries ==> k in t.entries
  {
    MakeRoomKeeps(t, limits.maxPending);
  }

  lemma StoringInValid(limits: Limits, t: Table, f: Fragment, newMessage: bool)
    requires ValidTable(limits, t) && KeyOf(f.header) in t.entries
    ensures EntryOk(limits, t.entries[KeyOf(f.header)])
    ensures var r := Store(limits, t, f, newMessage).table;
      && (Sorted(t.entries, t.order) ==> Sorted(r.entries, r.order))
      && (KeyOf(f.header) in r.entries && Sorted(r.entries, r.order) ==> Sorted(t.entries, t.order))
  {
    hide Store, Sorted;
    StoringKeepsSortedIff(limits, t, f, newMessage);
  }

  lemma StepKeepsSortedIff(limits: Limits, t: Table, op: Op)
    requires ValidTable(limits, t) && Sorted(t.entries, t.order) && NotFromFuture(t.entries, op.now)
    ensures var r := Step(limits, t, op); Sorted(r.entries, r.order) <==> CreatesInOrder(limits, t, op)
  {
    hide Sorted, NotFromFuture, ExpireFront, Add, CopiesAreHarmless;
    match op
    case AddOp(f, now) => AddKeepsSortedIff(limits, t, f, now);
    case ExpireOp(now) =>
      var m := ExpireFront(limits, t, now).table;
      ExpiryKeepsSorted(limits, t, now);
      LiveIsSorted(m.order, m.entries);
  }

  // The order is sorted by age after every operation of the run.
  predicate SortedThroughout(limits: Limits, ops: seq<Op>) {
    var t := Run(limits, EMPTY_TABLE, ops);
    Sorted(t.entries, t.order) && (ops != [] ==> SortedThroughout(limits, ops[..|ops| - 1]))
  }

  predicate AlwaysCreatesInOrder(limits: Limits, ops: seq<Op>) {
    ops != [] ==>
      AlwaysCreatesInOrder(limits, ops[..|ops| - 1]) &&
      CreatesInOrder(limits, Run(limits, EMPTY_TABLE, ops[..|ops| - 1]), ops[|ops| - 1])
  }

  // Over every run whose clock does not go backwards: the order stays sorted by age if and only if each
  // creation finds the stale copies of its key harmless.
  lemma {:induction false} RunStaysSortedIff(limits: Limits, ops: seq<Op>)
    requires Monotone(ops)
    ensures SortedThroughout(limits, ops) <==> AlwaysCreatesInOrder(limits, ops)
    decreases |ops|
  {
    hide Step, Sorted, CreatesInOrder;
    if ops == [] {
      NothingIsSorted();
    } else {
      var before, op := ops[..|ops| - 1], ops[|ops| - 1];
      RunStaysSortedIff(limits, before);
      if SortedThroughout(limits, before) {
        RunIsNotFromFuture(limits, before);
        StepKeepsSortedIff(limits, Run(limits, EMPTY_TABLE, before), op);
      }
    }
  }

  lemma NothingIsSorted()
    ensures Sorted(EMPTY_TABLE.entries, EMPTY_TABLE.order)
  {
  }

  // So after every such run eviction takes an oldest entry, and expiry at any later time takes exactly the
  // overdue ones, however often keys were re-created.
  lemma RunIsFair(limits: Limits, ops: seq<Op>, later: u64)
    requires Monotone(ops) && AlwaysCreatesInOrder(limits, ops) && LastTime(ops) <= later
    ensures var t := Run(limits, EMPTY_TABLE, ops);
      && (t.entries != map[] ==> EvictsAnOldest(t))
      && ExpiresExactly(limits, t, later)
  {
    hide Run, Sorted, EvictsAnOldest, ExpiresExactly, AlwaysCreatesInOrder;
    RunStaysSortedIff(limits, ops);
    RunIsNotFromFuture(limits, ops);
    var t := Run(limits, EMPTY_TABLE, ops);
    assert NotFromFuture(t.entries, later);
    AgedIsFair(limits, t, later);
  }

  // ---------- Right after a creation ----------

  // The part of keys in front of the first k.
  function Front(keys: seq<Key>, k: Key): (front: seq<Key>)
    ensures front <= keys && k !in front
    ensures |front| < |keys| ==> keys[|front|] == k
  {
    if keys == [] || keys[0] == k then [] else [keys[0]] + Front(keys[1..], k)
  }

  // The next eviction takes an oldest entry if and only if no stale copy of the new key precedes the first
  // pending key, or every pending entry was first seen at this very instant.
  lemma NextEvictionIsOldestIff(t: Table, h: Header, now: u64)
    requires Aged(t) && NotFromFuture(t.entries, now) && KeyOf(h) !in t.entries
    ensures EvictsAnOldest(Create(t, h, now)) <==>
      (exists i :: 0 <= i < |Front(t.order, KeyOf(h))| && t.order[i] in t.entries) ||
      (forall k :: k in t.entries ==> t.entries[k].firstSeen == now)
  {
    hide EvictOldest, Front, EvictsAnOldest, IsOldest;
    var k, r := KeyOf(h), Create(t, h, now);
    var n := |Front(t.order, k)|;
    assert forall i :: 0 <= i < |t.order| ==> r.order[i] == t.order[i];
    assert forall i :: 0 <= i < n ==> t.order[i] == Front(t.order, k)[i];
    NewestIsOldestIff(t, h, now);
    if exists i :: 0 <= i < n && t.order[i] in t.entries {
      var i := FirstPending(t);
      assert i < n && r.order[i] != k;
      EvictionSkips(r, i);
      FirstPendingIsOldest(t, i);
      OldestBesideNewest(t, h, now, t.order[i]);
      VictimDecides(r, t.order[i]);
    } else {
      EvictionSkips(r, n);
      VictimDecides(r, k);
    }
  }

  lemma VictimDecides(t: Table, v: Key)
    requires v in t.entries && EvictOldest(t).entries == t.entries - {v}
    ensures EvictsAnOldest(t) <==> IsOldest(t.entries, v)
  {
    hide EvictOldest, IsOldest;
    if EvictsAnOldest(t) {
      var w :| w in t.entries && EvictOldest(t).entries == t.entries - {w} && IsOldest(t.entries, w);
      assert w == v by { assert w !in t.entries - {w} && (w != v ==> w in t.entries - {v}); }
    }
  }

  lemma NewestIsOldestIff(t: Table, h: Header, now: u64)
    requires NotFromFuture(t.entries, now) && KeyOf(h) !in t.entries
    ensures IsOldest(Create(t, h, now).entries, KeyOf(h))
        <==> forall k :: k in t.entries ==> t.entries[k].firstSeen == now
  {
    var r := Create(t, h, now);
    assert forall k :: k in t.entries ==> k in r.entries && r.entries[k] == t.entries[k];
  }

  lemma OldestBesideNewest(t: Table, h: Header, now: u64, v: Key)
    requires NotFromFuture(t.entries, now) && KeyOf(h) !in t.entries && v in t.entries && IsOldest(t.entries, v)
    ensures IsOldest(Create(t, h, now).entries, v)
  {
  }

  // Expiry at a later time is exact if and only if the new entry is overdue itself by then, or every overdue
  // entry is in order in front of the first stale copy of the new key.
  lemma NextExpiryIsExactIff(limits: Limits, t: Table, h: Header, now: u64, later: u64)
    requires Aged(t) && NotFromFuture(t.entries, now) && KeyOf(h) !in t.entries && now <= later
    ensures ExpiresExactly(limits, Create(t, h, now), later) <==>
      later - now >= limits.timeout ||
      forall k :: k in t.entries && Overdue(limits, later, t.entries[k]) ==> k in Front(t.order, KeyOf(h))
  {
    hide Expire, Front, Overdue, NotFromFuture, Aged, Create, NewEntry, Tracked;
    var k, r := KeyOf(h), Create(t, h, now);
    var front := Front(t.order, k);
    CreationFacts(t, h, now, later);
    var n := ExpiryStops(limits, r, later);
    if later - now >= limits.timeout {
      AllAreOverdue(limits, r, now, later, n);
    } else {
      FrontOfCreated(t, k);
      NewEntryIsYoung(limits, h, now, later);
      assert n <= |front|;
      BehindTheStop(limits, t, later, r, n, |front|);
      YoungCreation(limits, t, r, k, later, n, |front|);
    }
  }

  lemma FrontOfCreated(t: Table, k: Key)
    ensures var s := |Front(t.order, k)|;
      s <= |t.order| && (t.order + [k])[s] == k && (t.order + [k])[..s] == Front(t.order, k)
  {
    hide Front;
  }

  lemma NewEntryIsYoung(limits: Limits, h: Header, now: u64, later: u64)
    requires later - now < limits.timeout
    ensures !Overdue(limits, later, NewEntry(h, now))
  {
  }

  lemma CreationFacts(t: Table, h: Header, now: u64, later: u64)
    requires Aged(t) && NotFromFuture(t.entries, now) && KeyOf(h) !in t.entries && now <= later
    ensures var r := Create(t, h, now);
      && Tracked(r) && NotFromFuture(r.entries, now) && NotFromFuture(r.entries, later)
      && r.order == t.order + [KeyOf(h)] && r.entries == t.entries[KeyOf(h) := NewEntry(h, now)]
  {
    var r := Create(t, h, now);
    assert r.order[|t.order|] == KeyOf(h);
    assert forall i :: 0 <= i < |t.order| ==> r.order[i] == t.order[i];
  }

  // The new entry is young: what expiry removes are the pending keys in front of where it stops, at the first
  // copy of the new key or before.
  lemma YoungCreation(limits: Limits, t: Table, r: Table, k: Key, later: u64, n: nat, s: nat)
    requires k !in t.entries && r.entries.Keys == t.entries.Keys + {k}
        && (forall j :: j in t.entries ==> r.entries[j] == t.entries[j])
    requires !Overdue(limits, later, r.entries[k])
    requires n <= |r.order| && s < |r.order| && r.order[s] == k && k !in r.order[..s]
    requires forall i :: 0 <= i < n && r.order[i] in r.entries ==> Overdue(limits, later, r.entries[r.order[i]])
    requires n < |r.order| ==> r.order[n] in r.entries
    requires n < s ==> forall j :: j in t.entries && Overdue(limits, later, t.entries[j]) ==> j in r.order[..n]
    requires forall j :: j in Expire(limits, r, later).table.entries <==> j in r.entries && j !in r.order[..n]
    ensures ExpiresExactly(limits, r, later) <==>
      forall j :: j in t.entries && Overdue(limits, later, t.entries[j]) ==> j in r.order[..s]
  {
    hide Expire, Overdue;
    assert n <= s;
    assert r.order[..n] == r.order[..s][..n];
    assert forall j :: j in r.entries && j in r.order[..n] ==> Overdue(limits, later, r.entries[j]);
  }

  // If even the newest entry is overdue, expiry goes through the whole order.
  lemma AllAreOverdue(limits: Limits, r: Table, now: u64, later: u64, n: nat)
    requires Tracked(r) && NotFromFuture(r.entries, now) && later - now >= limits.timeout && n <= |r.order|
    requires n < |r.order| ==> r.order[n] in r.entries && !Overdue(limits, later, r.entries[r.order[n]])
    ensures forall k :: k in r.entries ==> k in r.order[..n] && Overdue(limits, later, r.entries[k])
  {
    assert r.order[..n] == r.order;
  }

  // If expiry stops in front of the first copy of the new key, everything behind is young; else it stops at
  // that copy.
  lemma BehindTheStop(limits: Limits, t: Table, later: u64, r: Table, n: nat, s: nat)
    requires Aged(t) && n <= s <= |t.order| && t.order <= r.order
    requires n < s ==> t.order[n] in t.entries && !Overdue(limits, later, t.entries[t.order[n]])
    ensures n < s ==> forall k :: k in t.entries && Overdue(limits, later, t.entries[k]) ==> k in r.order[..n]
  {
    if n < s {
      forall k | k in t.entries && Overdue(limits, later, t.entries[k])
        ensures k in r.order[..n]
      {
        var j :| 0 <= j < |t.order| && t.order[j] == k;
        assert j < n && r.order[..n][j] == k;
      }
    }
  }
}
