// The reassembler's order_ deque keeps stale keys and is compacted lazily. Here it is compared with the
// simple queue it stands for: the pending messages, oldest first (tools/receiver/lib/reassembler.cpp:81-125).
module AgeQueue {
  import opened ByteOrder
  import opened WireProtocol
  import opened Reassembly
  import opened ReassemblyRuns

  // Exactly the pending messages, in the order of their creation.
  datatype Queue = Queue(entries: map<Key, Entry>, keys: seq<Key>, completed: bytes, evictions: nat)

  function Abstract(t: Table): Queue {
    Queue(t.entries, Live(t.order, t.entries), t.completed, t.evictions)
  }

  // ---------- The simple queue's operations ----------

  function Without(keys: seq<Key>, k: Key): seq<Key> {
    if keys == [] then [] else (if keys[0] == k then [] else [keys[0]]) + Without(keys[1..], k)
  }

  function DropHead(q: Queue): Queue
    requires q.keys != []
  {
    q.(entries := q.entries - {q.keys[0]}, keys := q.keys[1..], evictions := q.evictions + 1)
  }

  function DropUntil(q: Queue, max: nat): Queue
    decreases |q.keys|
  {
    if |q.entries| < max || q.keys == [] then q else DropUntil(DropHead(q), max)
  }

  function Append(q: Queue, h: Header, now: u64): Queue {
    q.(entries := q.entries[KeyOf(h) := NewEntry(h, now)], keys := q.keys + [KeyOf(h)])
  }

  function QueueWithEntry(limits: Limits, q: Queue, h: Header, now: u64): Queue {
    if KeyOf(h) in q.entries then q else Append(DropUntil(q, limits.maxPending), h, now)
  }

  datatype QueueOutcome = QueueOutcome(queue: Queue, verdict: AddResult, out: CompletedMessage, newMessage: bool)

  // Storing a fragment does not look at the order, so it is that of the table.
  function QueueStore(limits: Limits, q: Queue, f: Fragment, newMessage: bool): QueueOutcome
    requires KeyOf(f.header) in q.entries && EntryOk(limits, q.entries[KeyOf(f.header)])
  {
    var r := Store(limits, Table(q.entries, [], q.completed, q.evictions), f, newMessage);
    var keys := if KeyOf(f.header) in r.table.entries then q.keys else Without(q.keys, KeyOf(f.header));
    QueueOutcome(Queue(r.table.entries, keys, r.table.completed, r.table.evictions), r.verdict, r.out, r.newMessage)
  }

  function QueueAdd(limits: Limits, q: Queue, f: Fragment, now: u64): QueueOutcome
    requires forall k :: k in q.entries ==> EntryOk(limits, q.entries[k])
  {
    var h := f.header;
    if h.fragmentCount == 1 then
      QueueOutcome(q, Complete, CompletedMessage(h.sourceId, h.sequence, h.timestamp, h.flags, f.payload), true)
    else if h.messageLength > limits.maxMessageLength then QueueOutcome(q, Malformed, NO_MESSAGE, false)
    else
      QueueEntryIsOk(limits, q, h, now);
      QueueStore(limits, QueueWithEntry(limits, q, h, now), f, KeyOf(h) !in q.entries)
  }

  // The queue holds the keys of its entries, each once.
  predicate Proper(q: Queue) {
    && Distinct(q.keys)
    && (forall i :: 0 <= i < |q.keys| ==> q.keys[i] in q.entries)
    && forall k :: k in q.entries ==> k in q.keys
  }

  predicate Overdue(limits: Limits, now: u64, e: Entry) {
    now - e.firstSeen >= limits.timeout
  }

  // The first n keys are the overdue ones.
  predicate OverdueUpTo(limits: Limits, q: Queue, now: u64, n: nat)
    requires Proper(q)
  {
    && n <= |q.keys|
    && (forall i :: 0 <= i < n ==> Overdue(limits, now, q.entries[q.keys[i]]))
    && forall i :: n <= i < |q.keys| ==> !Overdue(limits, now, q.entries[q.keys[i]])
  }

  // ---------- When the comparison applies ----------

  predicate Distinct(keys: seq<Key>) {
    forall i, j :: 0 <= i < j < |keys| ==> keys[i] != keys[j]
  }

  // The pending keys among keys are sorted by the time they were first seen.
  predicate Sorted(entries: map<Key, Entry>, keys: seq<Key>) {
    forall i, j :: 0 <= i < j < |keys| && keys[i] in entries && keys[j] in entries ==>
      entries[keys[i]].firstSeen <= entries[keys[j]].firstSeen
  }

  // The clock has not gone backwards.
  predicate NotFromFuture(entries: map<Key, Entry>, now: u64) {
    forall k :: k in entries ==> entries[k].firstSeen <= now
  }

  // No key occurs twice in order, and the pending ones are sorted by age.
  predicate Clean(t: Table) {
    Tracked(t) && Distinct(t.order) && Sorted(t.entries, t.order)
  }

  // op creates an entry: it brings the first fragment of a message that is not pending.
  predicate Creates(limits: Limits, t: Table, op: Op) {
    op.AddOp? && Feeds(limits, op, KeyOf(op.f.header)) && KeyOf(op.f.header) !in t.entries
  }

  // op re-creates a key of which a stale copy is in order, once eviction has made room.
  predicate Recreates(limits: Limits, t: Table, op: Op) {
    Creates(limits, t, op) && KeyOf(op.f.header) in MakeRoom(t, limits.maxPending).order
  }

  // Adding to a table with room creates an entry of the announced sizes at the end of order.
  lemma CreatesWithRoom(limits: Limits, t: Table, f: Fragment, now: u64)
    requires ValidTable(limits, t) && Creates(limits, t, AddOp(f, now)) && |t.entries| < limits.maxPending
    ensures var r, k := Step(limits, t, AddOp(f, now)), KeyOf(f.header);
      && r.order == t.order + [k] && r.entries.Keys == t.entries.Keys + {k} && r.entries[k].firstSeen == now
      && |r.entries[k].buffer| == f.header.messageLength && |r.entries[k].received| == f.header.fragmentCount
      && forall j :: j in t.entries ==> r.entries[j] == t.entries[j]
  {
    CreationSetsOneFlag(limits, t, f, now);
  }

  // ---------- Facts about Live ----------

  lemma LiveUnfolds(keys: seq<Key>, m: map<Key, Entry>)
    requires keys != []
    ensures keys[0] !in m ==> Live(keys, m) == Live(keys[1..], m)
    ensures keys[0] in m
        ==> Live(keys, m) != [] && Live(keys, m)[0] == keys[0] && Live(keys, m)[1..] == Live(keys[1..], m)
  {
  }

  lemma {:induction false} LiveOfConcat(a: seq<Key>, b: seq<Key>, m: map<Key, Entry>)
    ensures Live(a + b, m) == Live(a, m) + Live(b, m)
  {
    if a == [] {
      assert a + b == b;
    } else {
      assert (a + b)[1..] == a[1..] + b;
      LiveOfConcat(a[1..], b, m);
    }
  }

  lemma {:induction false} LiveAfterRemoval(keys: seq<Key>, m: map<Key, Entry>, k: Key)
    ensures Live(keys, m - {k}) == Without(Live(keys, m), k)
  {
    if keys != [] {
      LiveAfterRemoval(keys[1..], m, k);
      LiveUnfolds(keys, m);
      LiveUnfolds(keys, m - {k});
    }
  }

  lemma {:induction false} LiveOfSameKeys(keys: seq<Key>, m: map<Key, Entry>, n: map<Key, Entry>)
    requires forall i :: 0 <= i < |keys| ==> (keys[i] in m <==> keys[i] in n)
    ensures Live(keys, m) == Live(keys, n)
  {
    if keys != [] {
      assert forall i :: 0 <= i < |keys[1..]| ==> keys[1..][i] == keys[i + 1];
      LiveOfSameKeys(keys[1..], m, n);
    }
  }

  lemma {:induction false} LiveIsIdempotent(keys: seq<Key>, m: map<Key, Entry>)
    ensures Live(Live(keys, m), m) == Live(keys, m)
    ensures |Live(keys, m)| <= |keys|
  {
    if keys != [] {
      LiveIsIdempotent(keys[1..], m);
      LiveUnfolds(keys, m);
    }
  }

  // Live keeps order: what precedes in it precedes in the queue, so it inherits both properties.
  lemma {:induction false} LiveInherits(keys: seq<Key>, m: map<Key, Entry>)
    requires Distinct(keys) && Sorted(m, keys)
    ensures Distinct(Live(keys, m)) && Sorted(m, Live(keys, m))
    ensures forall k :: k in Live(keys, m) ==> k in keys && k in m
  {
    hide Distinct, Sorted;
    if keys != [] {
      var rest := keys[1..];
      HeadAndRest(keys, m);
      LiveInherits(rest, m);
      HeadInFront(keys[0], rest, Live(rest, m), m);
      assert Live(keys, m) == if keys[0] in m then [keys[0]] + Live(rest, m) else Live(rest, m);
    } else {
      NothingIsOrdered(m);
    }
  }

  lemma NothingIsOrdered(m: map<Key, Entry>)
    ensures Distinct([]) && Sorted(m, [])
  {
  }

  // k is none of keys, and no younger than any of them.
  predicate Leads(k: Key, keys: seq<Key>, m: map<Key, Entry>) {
    forall i :: 0 <= i < |keys| ==> k != keys[i] && (k in m && keys[i] in m ==> m[k].firstSeen <= m[keys[i]].firstSeen)
  }

  lemma HeadAndRest(keys: seq<Key>, m: map<Key, Entry>)
    requires keys != [] && Distinct(keys) && Sorted(m, keys)
    ensures Distinct(keys[1..]) && Sorted(m, keys[1..]) && Leads(keys[0], keys[1..], m)
  {
    var rest := keys[1..];
    assert forall i :: 0 <= i < |rest| ==> rest[i] == keys[i + 1];
  }

  lemma HeadInFront(k: Key, rest: seq<Key>, live: seq<Key>, m: map<Key, Entry>)
    requires Leads(k, rest, m) && Distinct(live) && Sorted(m, live) && forall j :: j in live ==> j in rest
    ensures Distinct([k] + live) && Sorted(m, [k] + live)
  {
    forall i | 0 <= i < |live|
      ensures k != live[i] && (k in m && live[i] in m ==> m[k].firstSeen <= m[live[i]].firstSeen)
    {
      assert live[i] in rest;
    }
  }

  lemma {:induction false} DistinctKeysFit(keys: seq<Key>, s: set<Key>)
    requires Distinct(keys) && forall i :: 0 <= i < |keys| ==> keys[i] in s
    ensures |keys| <= |s|
  {
    if keys != [] {
      var rest := keys[1..];
      assert forall i :: 0 <= i < |rest| ==> rest[i] == keys[i + 1];
      DistinctKeysFit(rest, s - {keys[0]});
    }
  }

  // ---------- Compaction is unobservable ----------

  // For any table, reachable or not: compaction does not change the queue that order stands for.
  lemma CompactionIsUnobservable(t: Table)
    ensures Abstract(Compact(t)) == Abstract(t)
  {
    LiveIsIdempotent(t.order, t.entries);
  }

  // ---------- Eviction ----------

  lemma CleanSuffix(t: Table)
    requires Clean(t) && t.order != [] && t.order[0] !in t.entries
    ensures Clean(t.(order := t.order[1..]))
  {
    var rest := t.order[1..];
    assert forall i :: 0 <= i < |rest| ==> rest[i] == t.order[i + 1];
    assert t.order == [t.order[0]] + rest;
  }

  lemma CleanWithoutHead(t: Table)
    requires Clean(t) && t.order != []
    ensures Clean(Remove(t.(order := t.order[1..]), t.order[0]))
    ensures Live(t.order[1..], t.entries - {t.order[0]}) == Live(t.order[1..], t.entries)
  {
    hide Live, Distinct, Sorted, Tracked;
    var k, rest := t.order[0], t.order[1..];
    HeadAndRest(t.order, t.entries);
    SortedWithout(t.entries, rest, k);
    TrackedWithout(t);
    NotBehindItself(k, rest, t.entries);
    LiveOfSameKeys(rest, t.entries - {k}, t.entries);
  }

  lemma SortedWithout(m: map<Key, Entry>, keys: seq<Key>, k: Key)
    requires Sorted(m, keys)
    ensures Sorted(m - {k}, keys)
  {
  }

  lemma TrackedWithout(t: Table)
    requires Tracked(t) && t.order != []
    ensures Tracked(Remove(t.(order := t.order[1..]), t.order[0]))
  {
    assert t.order == [t.order[0]] + t.order[1..];
  }

  lemma NotBehindItself(k: Key, rest: seq<Key>, m: map<Key, Entry>)
    requires Leads(k, rest, m)
    ensures forall i :: 0 <= i < |rest| ==> rest[i] != k && (rest[i] in m - {k} <==> rest[i] in m)
  {
  }

  // Eviction drops the head of the queue ...
  lemma {:induction false} EvictionDropsHead(t: Table)
    requires Clean(t) && t.entries != map[]
    ensures Abstract(t).keys != []
    ensures Abstract(EvictOldest(t)) == DropHead(Abstract(t))
    ensures Clean(EvictOldest(t))
    decreases |t.order|
  {
    hide Clean, Live;
    if t.order == [] {
      NothingTracked(t);
    } else {
      LiveUnfolds(t.order, t.entries);
      if t.order[0] in t.entries {
        CleanWithoutHead(t);
        CleanIgnoresCounter(Remove(t.(order := t.order[1..]), t.order[0]), t.evictions + 1);
      } else {
        var popped := t.(order := t.order[1..]);
        CleanSuffix(t);
        assert Abstract(popped) == Abstract(t) && EvictOldest(popped) == EvictOldest(t);
        EvictionDropsHead(popped);
      }
    }
  }

  lemma CleanIgnoresCounter(t: Table, evictions: nat)
    requires Clean(t)
    ensures Clean(t.(evictions := evictions))
  {
  }

  lemma NothingTracked(t: Table)
    requires Clean(t) && t.order == []
    ensures t.entries == map[]
  {
  }

  // ... which is a pending message that was first seen no later than any other.
  lemma HeadIsOldest(t: Table, k: Key)
    requires Clean(t) && k in t.entries
    ensures var keys := Abstract(t).keys;
      keys != [] && keys[0] in t.entries && t.entries[keys[0]].firstSeen <= t.entries[k].firstSeen
  {
    LiveInherits(t.order, t.entries);
    LiveKeys(t.order, t.entries, k);
    var keys := Abstract(t).keys;
    var i :| 0 <= i < |keys| && keys[i] == k;
    assert keys[0] in keys;
  }

  lemma {:induction false} MakingRoomDropsHeads(t: Table, max: nat)
    requires Clean(t) && max >= 1
    ensures Abstract(MakeRoom(t, max)) == DropUntil(Abstract(t), max)
    ensures Clean(MakeRoom(t, max))
    decreases |t.order|
  {
    if |t.entries| >= max {
      EvictionDropsHead(t);
      if t.order != [] {
        EvictionShrinks(t);
        MakingRoomDropsHeads(EvictOldest(t), max);
      }
    }
  }

  // ---------- Adding ----------

  lemma CreationAppends(t: Table, h: Header, now: u64)
    requires Clean(t) && KeyOf(h) !in t.order && NotFromFuture(t.entries, now)
    ensures Abstract(Create(t, h, now)) == Append(Abstract(t), h, now)
    ensures Clean(Create(t, h, now)) && NotFromFuture(Create(t, h, now).entries, now)
  {
    var k, r := KeyOf(h), Create(t, h, now);
    LiveOfConcat(t.order, [k], r.entries);
    LiveOfSameKeys(t.order, t.entries, r.entries);
    assert Live([k], r.entries) == [k] + Live([k][1..], r.entries);
    forall j | j in r.entries
      ensures j in r.order
    {
      assert j == k ==> r.order[|r.order| - 1] == k;
      assert j != k ==> j in t.order;
    }
  }

  // Storing does not touch the order, and changes the entries by replacing or removing that of its key.
  lemma StoringIsLocal(limits: Limits, t: Table, f: Fragment, newMessage: bool)
    requires KeyOf(f.header) in t.entries && EntryOk(limits, t.entries[KeyOf(f.header)])
    ensures var k, r := KeyOf(f.header), Store(limits, t, f, newMessage);
      && r.table.order == t.order
      && r == Store(limits, t.(order := []), f, newMessage).(table := r.table)
      && r.table == Store(limits, t.(order := []), f, newMessage).table.(order := t.order)
      && if k in r.table.entries then
           r.table.entries.Keys == t.entries.Keys && r.table.entries[k].firstSeen == t.entries[k].firstSeen &&
           forall j :: j in t.entries && j != k ==> r.table.entries[j] == t.entries[j]
         else r.table.entries == t.entries - {k}
  {
  }

  // Storing changes no age and keeps the queue, except that the key goes when its entry does.
  lemma StoringKeepsQueue(limits: Limits, t: Table, f: Fragment, newMessage: bool)
    requires Clean(t) && KeyOf(f.header) in t.entries && EntryOk(limits, t.entries[KeyOf(f.header)])
    ensures var r, y := Store(limits, t, f, newMessage), QueueStore(limits, Abstract(t), f, newMessage);
      && Clean(r.table)
      && Abstract(r.table) == y.queue && r.verdict == y.verdict && r.out == y.out && r.newMessage == y.newMessage
      && forall j :: j in r.table.entries ==> j in t.entries && r.table.entries[j].firstSeen == t.entries[j].firstSeen
  {
    StoringIsLocal(limits, t, f, newMessage);
    var k, entries := KeyOf(f.header), Store(limits, t, f, newMessage).table.entries;
    assert t.(order := []) == Table(t.entries, [], t.completed, t.evictions);
    if k in entries {
      LiveOfSameKeys(t.order, t.entries, entries);
    } else {
      LiveAfterRemoval(t.order, t.entries, k);
    }
  }

  lemma {:induction false} DropUntilShrinks(q: Queue, max: nat)
    ensures var d := DropUntil(q, max);
      forall k :: k in d.entries ==> k in q.entries && d.entries[k] == q.entries[k]
    decreases |q.keys|
  {
    if |q.entries| >= max && q.keys != [] {
      DropUntilShrinks(DropHead(q), max);
    }
  }

  lemma QueueEntryIsOk(limits: Limits, q: Queue, h: Header, now: u64)
    requires forall k :: k in q.entries ==> EntryOk(limits, q.entries[k])
    requires WellFormed(h) && h.fragmentCount != 1 && h.messageLength <= limits.maxMessageLength
    ensures var r := QueueWithEntry(limits, q, h, now);
      KeyOf(h) in r.entries && EntryOk(limits, r.entries[KeyOf(h)])
  {
    DropUntilShrinks(q, limits.maxPending);
    NewEntryIsOk(limits, h, now);
  }

  // With a clock that does not go backwards, and unless a key is re-created while a stale copy of it
  // is still in order: adding to the table is adding to the queue, with the same results, and the table
  // stays clean.
  lemma AddRefinesQueue(limits: Limits, t: Table, f: Fragment, now: u64)
    requires ValidTable(limits, t) && Clean(t) && NotFromFuture(t.entries, now)
    requires !Recreates(limits, t, AddOp(f, now))
    ensures var r, y := Add(limits, t, f, now), QueueAdd(limits, Abstract(t), f, now);
      && Abstract(r.table) == y.queue && r.verdict == y.verdict && r.out == y.out && r.newMessage == y.newMessage
      && Clean(r.table) && NotFromFuture(r.table.entries, now)
  {
    if f.header.fragmentCount != 1 && f.header.messageLength <= limits.maxMessageLength {
      WithEntryIsValid(limits, t, f, now);
      var w := WithEntry(limits, t, f.header, now);
      if KeyOf(f.header) !in t.entries {
        MakeRoomKeeps(t, limits.maxPending);
        MakingRoomDropsHeads(t, limits.maxPending);
        CreationAppends(MakeRoom(t, limits.maxPending), f.header, now);
      }
      StoringKeepsQueue(limits, w, f, KeyOf(f.header) !in t.entries);
    }
  }

  // ---------- Expiry ----------

  lemma QueueKeysArePending(t: Table)
    requires Clean(t)
    ensures Proper(Abstract(t))
  {
    LiveInherits(t.order, t.entries);
    forall k | k in t.entries
      ensures k in Abstract(t).keys
    {
      LiveKeys(t.order, t.entries, k);
    }
    assert forall i :: 0 <= i < |Abstract(t).keys| ==> Abstract(t).keys[i] in Abstract(t).keys;
  }

  // after is what is left of queue q when its overdue messages go; they are reported oldest first.
  ghost predicate TakesTheOverdue(limits: Limits, q: Queue, now: u64, after: Queue, reports: seq<ExpiredMessage>)
    requires Proper(q)
  {
    var n := |reports|;
    && OverdueUpTo(limits, q, now, n)
    && after.keys == q.keys[n..]
    && (forall k :: k in after.entries <==> k in q.entries && !Overdue(limits, now, q.entries[k]))
    && (forall k :: k in after.entries ==> after.entries[k] == q.entries[k])
    && (forall i :: 0 <= i < n ==> reports[i] == ReportOf(q.keys[i], q.entries[q.keys[i]]))
    && after.completed == q.completed && after.evictions == q.evictions
  }

  lemma {:induction false} ExpiryTakesTheOverdue(limits: Limits, t: Table, now: u64)
    requires Clean(t) && NotFromFuture(t.entries, now)
    ensures var r := ExpireFront(limits, t, now);
      && Proper(Abstract(t)) && Clean(r.table)
      && TakesTheOverdue(limits, Abstract(t), now, Abstract(r.table), r.expired)
    decreases |t.order|
  {
    QueueKeysArePending(t);
    if t.order == [] {
      assert t.entries == map[];
    } else {
      var k := t.order[0];
      var popped := t.(order := t.order[1..]);
      LiveUnfolds(t.order, t.entries);
      if k !in t.entries {
        CleanSuffix(t);
        ExpiryTakesTheOverdue(limits, popped, now);
        assert Abstract(popped) == Abstract(t);
      } else if Age(now, t.entries[k]) < limits.timeout {
        NoneOverdueInQueue(limits, t, now);
      } else {
        CleanWithoutHead(t);
        ExpiryTakesTheOverdue(limits, Remove(popped, k), now);
        HeadIsOverdue(limits, t, now, ExpireFront(limits, Remove(popped, k), now));
      }
    }
  }

  // If the front key is pending and young, everything behind it is young.
  lemma NoneOverdueInQueue(limits: Limits, t: Table, now: u64)
    requires Clean(t) && NotFromFuture(t.entries, now)
    requires t.order != [] && t.order[0] in t.entries && Age(now, t.entries[t.order[0]]) < limits.timeout
    ensures Proper(Abstract(t)) && TakesTheOverdue(limits, Abstract(t), now, Abstract(t), [])
  {
    hide Live, Tracked, Distinct, Sorted;
    QueueKeysArePending(t);
    LiveUnfolds(t.order, t.entries);
    forall k | k in t.entries
      ensures !Overdue(limits, now, t.entries[k])
    {
      HeadIsOldest(t, k);
    }
  }

  // If the front key is pending and overdue, it goes first and the rest of the queue follows.
  lemma HeadIsOverdue(limits: Limits, t: Table, now: u64, r: ExpireOutcome)
    requires Clean(t) && NotFromFuture(t.entries, now)
    requires t.order != [] && t.order[0] in t.entries && Age(now, t.entries[t.order[0]]) >= limits.timeout
    requires var rest := Abstract(Remove(t.(order := t.order[1..]), t.order[0]));
      Proper(rest) && TakesTheOverdue(limits, rest, now, Abstract(r.table), r.expired)
    ensures Proper(Abstract(t))
    ensures TakesTheOverdue(limits, Abstract(t), now, Abstract(r.table),
                            [ReportOf(t.order[0], t.entries[t.order[0]])] + r.expired)
  {
    hide Live, Tracked, TakesTheOverdue, Proper;
    var k := t.order[0];
    var q, rest := Abstract(t), Abstract(Remove(t.(order := t.order[1..]), k));
    CleanWithoutHead(t);
    QueueKeysArePending(t);
    LiveUnfolds(t.order, t.entries);
    assert q.keys == [k] + rest.keys;
    OverdueHeadGoesFirst(limits, q, rest, k, now, Abstract(r.table), r.expired);
  }

  lemma OverdueHeadGoesFirst(limits: Limits, q: Queue, rest: Queue, k: Key, now: u64, after: Queue,
                             reports: seq<ExpiredMessage>)
    requires Proper(q) && Proper(rest) && q.keys == [k] + rest.keys && k in q.entries
        && Overdue(limits, now, q.entries[k])
    requires rest == Queue(q.entries - {k}, rest.keys, q.completed, q.evictions)
    requires TakesTheOverdue(limits, rest, now, after, reports)
    ensures TakesTheOverdue(limits, q, now, after, [ReportOf(k, q.entries[k])] + reports)
  {
    hide Overdue, ReportOf, Proper;
    var n, said := |reports| + 1, [ReportOf(k, q.entries[k])] + reports;
    assert q.keys[n..] == rest.keys[n - 1..];
    EntriesBehindHead(q, rest, k);
    forall i | 0 <= i < |q.keys|
      ensures Overdue(limits, now, q.entries[q.keys[i]]) <==> i < n
      ensures i < n ==> said[i] == ReportOf(q.keys[i], q.entries[q.keys[i]])
    {
      assert i > 0 ==> q.keys[i] == rest.keys[i - 1];
    }
  }

  lemma EntriesBehindHead(q: Queue, rest: Queue, k: Key)
    requires Proper(q) && Proper(rest) && q.keys == [k] + rest.keys && rest.entries == q.entries - {k}
    ensures forall i :: 0 <= i < |rest.keys| ==>
              rest.keys[i] in q.entries && q.entries[rest.keys[i]] == rest.entries[rest.keys[i]]
  {
  }

  // Under the same conditions: expire removes exactly the entries at least timeout old and reports them
  // oldest first; the table stays clean, and order is left at most 4 * pending + 64 long.
  lemma ExpireRefinesQueue(limits: Limits, t: Table, now: u64)
    requires Clean(t) && NotFromFuture(t.entries, now)
    ensures var r := Expire(limits, t, now);
      && Proper(Abstract(t)) && TakesTheOverdue(limits, Abstract(t), now, Abstract(r.table), r.expired)
      && Clean(r.table) && NotFromFuture(r.table.entries, now)
      && |r.table.order| <= 4 * |r.table.entries| + 64
  {
    ExpiryTakesTheOverdue(limits, t, now);
    var m := ExpireFront(limits, t, now).table;
    assert NotFromFuture(m.entries, now);
    CompactionIsUnobservable(m);
    CompactionStaysClean(m);
  }

  lemma CompactionStaysClean(t: Table)
    requires Clean(t)
    ensures Clean(Compact(t)) && |Compact(t).order| <= 4 * |t.entries| + 64
  {
    LiveInherits(t.order, t.entries);
    DistinctKeysFit(Live(t.order, t.entries), t.entries.Keys);
    QueueKeysArePending(t);
  }

  // ---------- Whole runs ----------

  function LastTime(ops: seq<Op>): u64 {
    if ops == [] then 0 else ops[|ops| - 1].now
  }

  // The clock does not go backwards.
  predicate Monotone(ops: seq<Op>) {
    ops != [] ==> Monotone(ops[..|ops| - 1]) && LastTime(ops[..|ops| - 1]) <= ops[|ops| - 1].now
  }

  // No key is re-created while a stale copy of it is in order.
  predicate NeverRecreates(limits: Limits, ops: seq<Op>) {
    ops != [] ==>
      NeverRecreates(limits, ops[..|ops| - 1]) &&
      !Recreates(limits, Run(limits, EMPTY_TABLE, ops[..|ops| - 1]), ops[|ops| - 1])
  }

  // The condition of the two refinement lemmas holds after every operation of the run.
  predicate CleanThroughout(limits: Limits, ops: seq<Op>) {
    Clean(Run(limits, EMPTY_TABLE, ops)) && (ops != [] ==> CleanThroughout(limits, ops[..|ops| - 1]))
  }

  lemma RecreationIsNotClean(limits: Limits, t: Table, op: Op)
    requires ValidTable(limits, t) && Recreates(limits, t, op)
    ensures !Clean(Step(limits, t, op))
  {
    var h, room := op.f.header, MakeRoom(t, limits.maxPending);
    WithEntryIsValid(limits, t, op.f, op.now);
    StoringIsLocal(limits, WithEntry(limits, t, h, op.now), op.f, true);
    var i :| 0 <= i < |room.order| && room.order[i] == KeyOf(h);
    var order := Step(limits, t, op).order;
    assert order == room.order + [KeyOf(h)];
    assert order[i] == order[|room.order|];
  }

  lemma StepIsCleanIff(limits: Limits, t: Table, op: Op)
    requires ValidTable(limits, t) && Clean(t) && NotFromFuture(t.entries, op.now)
    ensures Clean(Step(limits, t, op)) <==> !Recreates(limits, t, op)
  {
    hide Clean, NotFromFuture, Recreates, TakesTheOverdue, Proper;
    match op
    case AddOp(f, now) =>
      if Recreates(limits, t, op) {
        RecreationIsNotClean(limits, t, op);
      } else {
        AddRefinesQueue(limits, t, f, now);
      }
    case ExpireOp(now) =>
      ExpiringRecreatesNothing(limits, t, now);
      ExpireRefinesQueue(limits, t, now);
  }

  lemma ExpiringRecreatesNothing(limits: Limits, t: Table, now: u64)
    ensures !Recreates(limits, t, ExpireOp(now))
  {
  }

  lemma AddingIsNotFromFuture(limits: Limits, t: Table, f: Fragment, now: u64)
    requires ValidTable(limits, t) && NotFromFuture(t.entries, now)
    ensures NotFromFuture(Add(limits, t, f, now).table.entries, now)
  {
    hide MakeRoom, Store, EntryOk;
    if f.header.fragmentCount != 1 && f.header.messageLength <= limits.maxMessageLength {
      WithEntryIsValid(limits, t, f, now);
      MakeRoomKeeps(t, limits.maxPending);
      var w := WithEntry(limits, t, f.header, now);
      assert NotFromFuture(w.entries, now);
      StoringKeepsAges(limits, w, f, KeyOf(f.header) !in t.entries);
    }
  }

  lemma StoringKeepsAges(limits: Limits, t: Table, f: Fragment, newMessage: bool)
    requires KeyOf(f.header) in t.entries && EntryOk(limits, t.entries[KeyOf(f.header)])
    ensures var r := Store(limits, t, f, newMessage).table;
      r.order == t.order &&
      forall j :: j in r.entries ==> j in t.entries && r.entries[j].firstSeen == t.entries[j].firstSeen
  {
  }

  lemma StepIsNotFromFuture(limits: Limits, t: Table, op: Op)
    requires ValidTable(limits, t) && NotFromFuture(t.entries, op.now)
    ensures NotFromFuture(Step(limits, t, op).entries, op.now)
  {
    match op
    case AddOp(f, now) => AddingIsNotFromFuture(limits, t, f, now);
    case ExpireOp(now) => ExpireFrontKeeps(limits, t, now);
  }

  lemma {:induction false} RunIsNotFromFuture(limits: Limits, ops: seq<Op>)
    requires Monotone(ops)
    ensures NotFromFuture(Run(limits, EMPTY_TABLE, ops).entries, LastTime(ops))
    decreases |ops|
  {
    hide Step;
    if ops != [] {
      RunIsNotFromFuture(limits, ops[..|ops| - 1]);
      StepIsNotFromFuture(limits, Run(limits, EMPTY_TABLE, ops[..|ops| - 1]), ops[|ops| - 1]);
    }
  }

  // In every run whose clock does not go backwards, the table is clean throughout if and only if no key is
  // re-created over a stale copy.
  lemma {:induction false} RunIsCleanIff(limits: Limits, ops: seq<Op>)
    requires Monotone(ops)
    ensures CleanThroughout(limits, ops) <==> NeverRecreates(limits, ops)
    decreases |ops|
  {
    hide Step, Clean, Recreates;
    if ops == [] {
      EmptyIsClean();
    } else {
      var before, op := ops[..|ops| - 1], ops[|ops| - 1];
      RunIsCleanIff(limits, before);
      if CleanThroughout(limits, before) {
        RunIsNotFromFuture(limits, before);
        StepIsCleanIff(limits, Run(limits, EMPTY_TABLE, before), op);
      }
    }
  }

  lemma EmptyIsClean()
    ensures Clean(EMPTY_TABLE)
  {
  }
}
