// What holds over whole runs of a reassembler, for any fragments that pass validation.
module ReassemblyRuns {
  import opened ByteOrder
  import opened WireProtocol
  import opened Reassembly

  datatype Op = AddOp(f: Fragment, now: u64) | ExpireOp(now: u64)

  function Step(limits: Limits, t: Table, op: Op): (r: Table)
    requires ValidTable(limits, t)
    ensures ValidTable(limits, r)
  {
    match op
    case AddOp(f, now) => AddKeepsValid(limits, t, f, now); Add(limits, t, f, now).table
    case ExpireOp(now) => ExpireKeepsValid(limits, t, now); Expire(limits, t, now).table
  }

  function Run(limits: Limits, t: Table, ops: seq<Op>): (r: Table)
    requires ValidTable(limits, t)
    ensures ValidTable(limits, r)
  {
    if ops == [] then t else Step(limits, Run(limits, t, ops[..|ops| - 1]), ops[|ops| - 1])
  }

  lemma RunSnoc(limits: Limits, t: Table, ops: seq<Op>, op: Op)
    requires ValidTable(limits, t)
    ensures Run(limits, t, ops + [op]) == Step(limits, Run(limits, t, ops), op)
  {
    assert (ops + [op])[..|ops + [op]| - 1] == ops;
  }

  // ---------- Conservation ----------

  // What happened to entries: each counter is read off the results the operations report.
  datatype Tally = Tally(created: nat, completed: nat, dropped: nat, evicted: int, expired: nat) {
    function Plus(o: Tally): Tally {
      Tally(created + o.created, completed + o.completed, dropped + o.dropped, evicted + o.evicted, expired + o.expired)
    }
  }

  function One(b: bool): nat {
    if b then 1 else 0
  }

  function StepTally(limits: Limits, t: Table, op: Op): Tally
    requires ValidTable(limits, t)
  {
    match op
    case AddOp(f, now) =>
      var r := Add(limits, t, f, now);
      if f.header.fragmentCount == 1 || f.header.messageLength > limits.maxMessageLength then Tally(0, 0, 0, 0, 0)
      else
        Tally(One(r.newMessage), One(r.verdict == Complete), One(r.verdict == Malformed),
              r.table.evictions - t.evictions, 0)
    case ExpireOp(now) => Tally(0, 0, 0, 0, |Expire(limits, t, now).expired|)
  }

  function RunTally(limits: Limits, t: Table, ops: seq<Op>): Tally
    requires ValidTable(limits, t)
  {
    if ops == [] then Tally(0, 0, 0, 0, 0)
    else
      var before := ops[..|ops| - 1];
      RunTally(limits, t, before).Plus(StepTally(limits, Run(limits, t, before), ops[|ops| - 1]))
  }

  lemma StepConserves(limits: Limits, t: Table, op: Op)
    requires ValidTable(limits, t)
    ensures var r, y := Step(limits, t, op), StepTally(limits, t, op);
      && |r.entries| + y.completed + y.dropped + y.evicted + y.expired == |t.entries| + y.created
      && r.evictions == t.evictions + y.evicted
  {
    match op
    case AddOp(f, now) =>
      if f.header.fragmentCount != 1 && f.header.messageLength <= limits.maxMessageLength {
        WithEntryIsValid(limits, t, f, now);
        MakeRoomKeeps(t, limits.maxPending);
        var w := WithEntry(limits, t, f.header, now);
        var k := KeyOf(f.header);
        assert |w.entries| + (w.evictions - t.evictions) == |t.entries| + One(k !in t.entries);
        StoreConserves(limits, w, f, k !in t.entries);
      }
    case ExpireOp(now) =>
      ExpireFrontKeeps(limits, t, now);
  }

  lemma StoreConserves(limits: Limits, t: Table, f: Fragment, newMessage: bool)
    requires ValidTable(limits, t) && KeyOf(f.header) in t.entries
    ensures var r := Store(limits, t, f, newMessage);
      && |r.table.entries| + One(r.verdict == Complete) + One(r.verdict == Malformed) == |t.entries|
      && r.table.evictions == t.evictions && r.newMessage == newMessage
  {
    var k := KeyOf(f.header);
    assert (t.entries - {k}).Keys == t.entries.Keys - {k};
    if Agrees(t.entries[k], f.header) && !t.entries[k].received[f.header.fragmentIndex] {
      assert t.entries[k := Filled(limits, t.entries[k], f)].Keys == t.entries.Keys;
    }
  }

  // Over every run: entries created = completed + dropped as inconsistent + evicted + expired + pending,
  // and the evictions counter counts exactly the evicted ones.
  lemma {:induction false} EntriesAreConserved(limits: Limits, t: Table, ops: seq<Op>)
    requires ValidTable(limits, t)
    ensures var r, y := Run(limits, t, ops), RunTally(limits, t, ops);
      && |t.entries| + y.created == y.completed + y.dropped + y.evicted + y.expired + |r.entries|
      && r.evictions == t.evictions + y.evicted
    decreases |ops|
  {
    if ops != [] {
      var before := ops[..|ops| - 1];
      EntriesAreConserved(limits, t, before);
      StepConserves(limits, Run(limits, t, before), ops[|ops| - 1]);
    }
  }

  // x reports an entry that is in before and no longer in after.
  ghost predicate ReportsRemoval(x: ExpiredMessage, before: map<Key, Entry>, after: map<Key, Entry>) {
    exists k :: k in before && k !in after && x == ReportOf(k, before[k])
  }

  // Nothing younger than the timeout expires: what Expire removes was overdue, and it is reported.
  lemma {:induction false} ExpiredWereOverdue(limits: Limits, t: Table, now: u64)
    ensures var r := ExpireFront(limits, t, now);
      forall k :: k in t.entries && k !in r.table.entries ==>
        Age(now, t.entries[k]) >= limits.timeout && ReportOf(k, t.entries[k]) in r.expired
    decreases |t.order|
  {
    hide Age, ReportOf;
    if t.order != [] {
      var k := t.order[0];
      var popped := t.(order := t.order[1..]);
      if k !in t.entries {
        ExpiredWereOverdue(limits, popped, now);
      } else if Age(now, t.entries[k]) >= limits.timeout {
        ExpiredWereOverdue(limits, Remove(popped, k), now);
        assert ExpireFront(limits, t, now).expired[0] == ReportOf(k, t.entries[k]);
      }
    }
  }

  lemma {:induction false} ReportsFollowRemovals(limits: Limits, t: Table, now: u64, x: ExpiredMessage)
    requires ValidTable(limits, t)
    requires x in ExpireFront(limits, t, now).expired
    ensures ReportsRemoval(x, t.entries, ExpireFront(limits, t, now).table.entries)
    decreases |t.order|
  {
    var k := t.order[0];
    var popped := t.(order := t.order[1..]);
    if k !in t.entries {
      ReportsFollowRemovals(limits, popped, now, x);
    } else {
      assert (t.entries - {k}).Keys == t.entries.Keys - {k};
      var rest := ExpireFront(limits, Remove(popped, k), now);
      ExpireFrontKeeps(limits, Remove(popped, k), now);
      if x != ReportOf(k, t.entries[k]) {
        assert x in rest.expired;
        ReportsFollowRemovals(limits, Remove(popped, k), now, x);
        var j :| j in Remove(popped, k).entries && j !in rest.table.entries && x == ReportOf(j, t.entries[j]);
      }
    }
  }

  // x gives the key of e, how many of its fragments arrived, and how many there are.
  predicate Tells(x: ExpiredMessage, k: Key, e: Entry) {
    && x.sourceId == k.sourceId && x.sequence == k.sequence
    && x.fragmentsReceived == CountTrue(e.received) && x.fragmentCount == |e.received|
  }

  // What Expire reports is the key and progress of an entry that it removed.
  lemma ReportsAreRemovals(limits: Limits, t: Table, now: u64, x: ExpiredMessage)
    requires ValidTable(limits, t) && x in Expire(limits, t, now).expired
    ensures exists k :: k in t.entries && k !in Expire(limits, t, now).table.entries && Tells(x, k, t.entries[k])
  {
    hide ExpireFront, CountTrue;
    ReportsFollowRemovals(limits, t, now, x);
    var k :| k in t.entries && k !in ExpireFront(limits, t, now).table.entries && x == ReportOf(k, t.entries[k]);
    assert Tells(x, k, t.entries[k]);
  }

  // ---------- Completion ----------

  // op delivers a fragment of a fragmented message with key k that this receiver accepts to buffer.
  predicate Feeds(limits: Limits, op: Op, k: Key) {
    op.AddOp? && KeyOf(op.f.header) == k && op.f.header.fragmentCount != 1 &&
    op.f.header.messageLength <= limits.maxMessageLength
  }

  function ArrivesWith(limits: Limits, op: Op, k: Key): set<int> {
    if Feeds(limits, op, k) then {op.f.header.fragmentIndex} else {}
  }

  // The fragment indices that ops deliver for key k.
  function Arrived(limits: Limits, ops: seq<Op>, k: Key): set<int> {
    if ops == [] then {}
    else
      var op := ops[|ops| - 1];
      Arrived(limits, ops[..|ops| - 1], k) + ArrivesWith(limits, op, k)
  }

  // k is pending in t and stays pending all through ops.
  ghost predicate StaysPending(limits: Limits, t: Table, ops: seq<Op>, k: Key)
    requires ValidTable(limits, t)
  {
    k in Run(limits, t, ops).entries && (ops != [] ==> StaysPending(limits, t, ops[..|ops| - 1], k))
  }

  lemma StoringTouchesOneEntry(limits: Limits, t: Table, f: Fragment, newMessage: bool, k: Key)
    requires KeyOf(f.header) in t.entries && EntryOk(limits, t.entries[KeyOf(f.header)]) && k != KeyOf(f.header)
    ensures var r := Store(limits, t, f, newMessage).table;
      (k in r.entries <==> k in t.entries) && (k in t.entries ==> r.entries[k] == t.entries[k])
  {
  }

  // An operation that feeds nothing to k leaves the entry of k alone or removes it.
  lemma OtherEntriesAreUntouched(limits: Limits, t: Table, op: Op, k: Key)
    requires ValidTable(limits, t)
    requires !Feeds(limits, op, k)
    ensures k in Step(limits, t, op).entries ==> k in t.entries && Step(limits, t, op).entries[k] == t.entries[k]
  {
    match op
    case AddOp(f, now) =>
      if f.header.fragmentCount != 1 && f.header.messageLength <= limits.maxMessageLength {
        WithEntryIsValid(limits, t, f, now);
        MakeRoomKeeps(t, limits.maxPending);
        var w := WithEntry(limits, t, f.header, now);
        assert k in w.entries ==> k in t.entries && w.entries[k] == t.entries[k];
        StoringTouchesOneEntry(limits, w, f, KeyOf(f.header) !in t.entries, k);
      }
    case ExpireOp(now) =>
      ExpireFrontKeeps(limits, t, now);
  }

  // A fragment that is fed to a pending key and leaves it pending sets its own flag and no other.
  lemma FeedSetsOneFlag(limits: Limits, t: Table, f: Fragment, now: u64)
    requires ValidTable(limits, t)
    requires Feeds(limits, AddOp(f, now), KeyOf(f.header))
    requires KeyOf(f.header) in t.entries && KeyOf(f.header) in Add(limits, t, f, now).table.entries
    ensures var e, e' := t.entries[KeyOf(f.header)], Add(limits, t, f, now).table.entries[KeyOf(f.header)];
      && Agrees(e, f.header) && e'.fragmentCount == e.fragmentCount && e'.messageLength == e.messageLength
      && e'.received == e.received[f.header.fragmentIndex := true]
  {
    WithEntryIsValid(limits, t, f, now);
  }

  lemma CreationSetsOneFlag(limits: Limits, t: Table, f: Fragment, now: u64)
    requires ValidTable(limits, t)
    requires Feeds(limits, AddOp(f, now), KeyOf(f.header)) && KeyOf(f.header) !in t.entries
    ensures var a := Add(limits, t, f, now);
      && a.newMessage && a.verdict == Incomplete && KeyOf(f.header) in a.table.entries
      && var e := a.table.entries[KeyOf(f.header)];
         Agrees(e, f.header) && e.received == seq(f.header.fragmentCount, _ => false)[f.header.fragmentIndex := true]
  {
    WithEntryIsValid(limits, t, f, now);
    var w := WithEntry(limits, t, f.header, now);
    var e := w.entries[KeyOf(f.header)];
    assert e == NewEntry(f.header, now);
    CountTrueOfNone(f.header.fragmentCount);
    FilledIsOk(limits, e, f);
    CountTrueSet(e.received, f.header.fragmentIndex);
  }

  // e is an entry for messages like that of h, and the indices flagged in it are those in arrived.
  ghost predicate Reflects(e: Entry, h: Header, arrived: set<int>) {
    Agrees(e, h) && forall i :: 0 <= i < |e.received| ==> (e.received[i] <==> i in arrived)
  }

  lemma StepReflects(limits: Limits, t: Table, op: Op, k: Key, h: Header, arrived: set<int>)
    requires ValidTable(limits, t)
    requires k in t.entries && Reflects(t.entries[k], h, arrived)
    requires k in Step(limits, t, op).entries
    ensures Reflects(Step(limits, t, op).entries[k], h, arrived + ArrivesWith(limits, op, k))
  {
    if Feeds(limits, op, k) {
      FeedSetsOneFlag(limits, t, op.f, op.now);
    } else {
      OtherEntriesAreUntouched(limits, t, op, k);
      assert arrived + {} == arrived;
    }
  }

  // While an entry lives, its flags are exactly the indices that arrived.
  lemma {:induction false} FlagsAreArrivals(limits: Limits, t: Table, ops: seq<Op>, k: Key, h: Header,
                                            arrived: set<int>)
    requires ValidTable(limits, t) && StaysPending(limits, t, ops, k)
    requires k in t.entries && Reflects(t.entries[k], h, arrived)
    ensures Reflects(Run(limits, t, ops).entries[k], h, arrived + Arrived(limits, ops, k))
    decreases |ops|
  {
    if ops == [] {
      assert arrived + {} == arrived;
    } else {
      var before, op := ops[..|ops| - 1], ops[|ops| - 1];
      FlagsAreArrivals(limits, t, before, k, h, arrived);
      StepReflects(limits, Run(limits, t, before), op, k, h, arrived + Arrived(limits, before, k));
      assert arrived + Arrived(limits, ops, k) == arrived + Arrived(limits, before, k) + ArrivesWith(limits, op, k);
    }
  }

  // Completion exactly when covered. first creates an entry, which stays pending through ops, in any
  // order and with any duplicates; then f arrives for it. f completes the message exactly when it makes
  // the set of arrived indices full; a repeated index is a duplicate; every other fragment is incomplete.
  lemma CompletesExactlyWhenCovered(limits: Limits, t: Table, first: Fragment, t0: u64, ops: seq<Op>,
                                    f: Fragment, t1: u64)
    requires ValidTable(limits, t)
    requires var k := KeyOf(first.header);
      && k !in t.entries && Feeds(limits, AddOp(first, t0), k)
      && StaysPending(limits, Step(limits, t, AddOp(first, t0)), ops, k)
      && KeyOf(f.header) == k && f.header.fragmentCount == first.header.fragmentCount
      && f.header.messageLength == first.header.messageLength
    ensures var k, created := KeyOf(first.header), Step(limits, t, AddOp(first, t0));
      var arrived := {first.header.fragmentIndex} + Arrived(limits, ops, k);
      var v := Add(limits, Run(limits, created, ops), f, t1).verdict;
      && (v == Duplicate <==> f.header.fragmentIndex in arrived)
      && (v == Complete <==> f.header.fragmentIndex !in arrived &&
                             forall i :: 0 <= i < first.header.fragmentCount
                               ==> i in arrived + {f.header.fragmentIndex})
      && v != Malformed
  {
    var k, created := KeyOf(first.header), Step(limits, t, AddOp(first, t0));
    CreationSetsOneFlag(limits, t, first, t0);
    FlagsAreArrivals(limits, created, ops, k, first.header, {first.header.fragmentIndex as int});
    CompletesWhenFull(limits, Run(limits, created, ops), f, t1, first.header,
                      {first.header.fragmentIndex as int} + Arrived(limits, ops, k));
  }

  lemma CompletesWhenFull(limits: Limits, t: Table, f: Fragment, now: u64, h: Header, arrived: set<int>)
    requires ValidTable(limits, t)
    requires Feeds(limits, AddOp(f, now), KeyOf(f.header)) && KeyOf(f.header) in t.entries
    requires Reflects(t.entries[KeyOf(f.header)], h, arrived) && Agrees(t.entries[KeyOf(f.header)], f.header)
    ensures var v := Add(limits, t, f, now).verdict;
      && (v == Duplicate <==> f.header.fragmentIndex in arrived)
      && (v == Complete <==> f.header.fragmentIndex !in arrived &&
                             forall i :: 0 <= i < h.fragmentCount ==> i in arrived + {f.header.fragmentIndex})
      && v != Malformed
  {
    var e := t.entries[KeyOf(f.header)];
    var index := f.header.fragmentIndex;
    WithEntryIsValid(limits, t, f, now);
    if !e.received[index] {
      FilledIsOk(limits, e, f);
      var flags := e.received[index := true];
      CountTrueBounds(flags);
      assert forall i :: 0 <= i < |flags| ==> (flags[i] <==> i in arrived + {index});
    }
  }
}
