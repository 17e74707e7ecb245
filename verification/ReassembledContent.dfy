// What is reassembled from any fragments that pass validation, whether or not they were cut from one message
// (tools/receiver/lib/reassembler.cpp:9-79).
module ReassembledContent {
  import opened ByteOrder
  import opened WireProtocol
  import opened Reassembly
  import opened ReassemblyRuns

  function FedBy(limits: Limits, op: Op, k: Key): seq<Fragment> {
    if Feeds(limits, op, k) then [op.f] else []
  }

  // The fragments that ops deliver for key k, in order.
  function Fed(limits: Limits, ops: seq<Op>, k: Key): seq<Fragment> {
    if ops == [] then [] else Fed(limits, ops[..|ops| - 1], k) + FedBy(limits, ops[|ops| - 1], k)
  }

  predicate HasIndex(fs: seq<Fragment>, i: int) {
    exists j :: 0 <= j < |fs| && fs[j].header.fragmentIndex == i
  }

  predicate Covers(f: Fragment, x: int) {
    f.header.fragmentOffset <= x < f.header.fragmentOffset + |f.payload|
  }

  // Byte x of what is put together from fs: of the fragments that were the first with their index, the last one that
  // covers x gives it; it is 0 if none does.
  function ByteFrom(fs: seq<Fragment>, x: int): byte {
    if fs == [] then 0
    else
      var before, f := fs[..|fs| - 1], fs[|fs| - 1];
      if !HasIndex(before, f.header.fragmentIndex) && Covers(f, x) then f.payload[x - f.header.fragmentOffset]
      else ByteFrom(before, x)
  }

  predicate BytesFrom(buffer: bytes, fs: seq<Fragment>) {
    forall x :: 0 <= x < |buffer| ==> buffer[x] == ByteFrom(fs, x)
  }

  predicate FlagsFrom(received: seq<bool>, fs: seq<Fragment>) {
    forall i :: 0 <= i < |received| ==> (received[i] <==> HasIndex(fs, i))
  }

  // e is the entry of first, put together from fs.
  predicate Holds(e: Entry, first: Header, fs: seq<Fragment>) {
    && Agrees(e, first) && e.timestamp == first.timestamp && e.flags == first.flags
    && FlagsFrom(e.received, fs) && BytesFrom(e.buffer, fs)
  }

  // ---------- One fragment ----------

  lemma IndexOfMore(fs: seq<Fragment>, f: Fragment, i: int)
    ensures HasIndex(fs + [f], i) <==> HasIndex(fs, i) || f.header.fragmentIndex == i
  {
    var gs := fs + [f];
    assert gs[|fs|] == f;
    if HasIndex(fs, i) {
      var j :| 0 <= j < |fs| && fs[j].header.fragmentIndex == i;
      assert gs[j].header.fragmentIndex == i;
    }
  }

  lemma ByteOfMore(fs: seq<Fragment>, f: Fragment, x: int)
    ensures ByteFrom(fs + [f], x) ==
            if !HasIndex(fs, f.header.fragmentIndex) && Covers(f, x) then f.payload[x - f.header.fragmentOffset]
            else ByteFrom(fs, x)
  {
    assert (fs + [f])[..|fs + [f]| - 1] == fs;
  }

  lemma FilledHolds(limits: Limits, e: Entry, f: Fragment, first: Header, fs: seq<Fragment>)
    requires EntryOk(limits, e) && Agrees(e, f.header) && Holds(e, first, fs)
    ensures Holds(if e.received[f.header.fragmentIndex] then e else Filled(limits, e, f), first, fs + [f])
  {
    hide ByteFrom, HasIndex;
    var r := if e.received[f.header.fragmentIndex] then e else Filled(limits, e, f);
    forall i | 0 <= i < |r.received| ensures r.received[i] <==> HasIndex(fs + [f], i) {
      IndexOfMore(fs, f, i);
    }
    forall x | 0 <= x < |r.buffer| ensures r.buffer[x] == ByteFrom(fs + [f], x) {
      ByteOfMore(fs, f, x);
    }
  }

  lemma NewEntryHolds(limits: Limits, f: Fragment, now: u64)
    requires f.header.fragmentCount >= 2 && f.header.messageLength <= limits.maxMessageLength
    ensures EntryOk(limits, NewEntry(f.header, now))
    ensures Holds(Filled(limits, NewEntry(f.header, now), f), f.header, [f])
  {
    hide Filled;
    NewEntryIsOk(limits, f.header, now);
    FilledHolds(limits, NewEntry(f.header, now), f, f.header, []);
    assert [] + [f] == [f];
  }

  // ---------- Runs ----------

  lemma CreatedHolds(limits: Limits, t: Table, f: Fragment, now: u64)
    requires ValidTable(limits, t)
    requires Feeds(limits, AddOp(f, now), KeyOf(f.header)) && KeyOf(f.header) !in t.entries
    ensures var a := Add(limits, t, f, now);
      KeyOf(f.header) in a.table.entries && Holds(a.table.entries[KeyOf(f.header)], f.header, [f])
  {
    hide Holds, Filled;
    CreationSetsOneFlag(limits, t, f, now);
    WithEntryIsValid(limits, t, f, now);
    NewEntryHolds(limits, f, now);
    assert WithEntry(limits, t, f.header, now).entries[KeyOf(f.header)] == NewEntry(f.header, now);
  }

  lemma StepHolds(limits: Limits, t: Table, op: Op, k: Key, first: Header, fs: seq<Fragment>)
    requires ValidTable(limits, t)
    requires k in t.entries && Holds(t.entries[k], first, fs) && k in Step(limits, t, op).entries
    ensures Holds(Step(limits, t, op).entries[k], first, fs + FedBy(limits, op, k))
  {
    hide Holds, Filled;
    if Feeds(limits, op, k) {
      FeedSetsOneFlag(limits, t, op.f, op.now);
      FilledHolds(limits, t.entries[k], op.f, first, fs);
    } else {
      OtherEntriesAreUntouched(limits, t, op, k);
      assert fs + [] == fs;
    }
  }

  // While an entry lives it is put together from the fragments that arrived.
  lemma {:induction false} EntryHoldsArrivals(limits: Limits, t: Table, ops: seq<Op>, k: Key, first: Header,
                                              fs: seq<Fragment>)
    requires ValidTable(limits, t) && StaysPending(limits, t, ops, k)
    requires k in t.entries && Holds(t.entries[k], first, fs)
    ensures Holds(Run(limits, t, ops).entries[k], first, fs + Fed(limits, ops, k))
    decreases |ops|
  {
    hide Holds, FedBy, Step;
    if ops == [] {
      assert fs + [] == fs;
    } else {
      var before, op := ops[..|ops| - 1], ops[|ops| - 1];
      EntryHoldsArrivals(limits, t, before, k, first, fs);
      StepHolds(limits, Run(limits, t, before), op, k, first, fs + Fed(limits, before, k));
      assert fs + Fed(limits, ops, k) == fs + Fed(limits, before, k) + FedBy(limits, op, k);
    }
  }

  // first creates an entry, which stays pending through ops, and then f completes the message. It has the key,
  // timestamp, flags and length of first, and its bytes are those of the fragments that arrived.
  lemma CompletedFromArrivals(limits: Limits, t: Table, first: Fragment, t0: u64, ops: seq<Op>, f: Fragment, t1: u64)
    requires ValidTable(limits, t)
    requires var k := KeyOf(first.header);
      && k !in t.entries && Feeds(limits, AddOp(first, t0), k)
      && StaysPending(limits, Step(limits, t, AddOp(first, t0)), ops, k)
      && Feeds(limits, AddOp(f, t1), k)
      && Add(limits, Run(limits, Step(limits, t, AddOp(first, t0)), ops), f, t1).verdict == Complete
    ensures var h, k, created := first.header, KeyOf(first.header), Step(limits, t, AddOp(first, t0));
      var out := Add(limits, Run(limits, created, ops), f, t1).out;
      && out == CompletedMessage(h.sourceId, h.sequence, h.timestamp, h.flags, out.data)
      && |out.data| == h.messageLength
      && BytesFrom(out.data, [first] + Fed(limits, ops, k) + [f])
  {
    hide Filled, BytesFrom, FlagsFrom, Fed;
    var k, created := KeyOf(first.header), Step(limits, t, AddOp(first, t0));
    CreatedHolds(limits, t, first, t0);
    EntryHoldsArrivals(limits, created, ops, k, first.header, [first]);
    CompletionHandsOut(limits, Run(limits, created, ops), f, t1, first.header, [first] + Fed(limits, ops, k));
  }

  lemma CompletionHandsOut(limits: Limits, t: Table, f: Fragment, now: u64, h: Header, fs: seq<Fragment>)
    requires ValidTable(limits, t) && Feeds(limits, AddOp(f, now), KeyOf(f.header))
    requires KeyOf(f.header) in t.entries && Holds(t.entries[KeyOf(f.header)], h, fs)
    requires Add(limits, t, f, now).verdict == Complete
    ensures var out := Add(limits, t, f, now).out;
      && out == CompletedMessage(f.header.sourceId, f.header.sequence, h.timestamp, h.flags, out.data)
      && |out.data| == h.messageLength && BytesFrom(out.data, fs + [f])
  {
    hide BytesFrom, FlagsFrom, Splice;
    var e := t.entries[KeyOf(f.header)];
    FilledHolds(limits, e, f, h, fs);
  }

  // ---------- Everything else ----------

  // Which fragments are refused: those of messages too long to buffer, which changes nothing, and those that disagree
  // with their pending message, which is dropped. An unfragmented message is complete at once; any other is new if and
  // only if it is neither too long nor pending.
  lemma RefusedIff(limits: Limits, t: Table, f: Fragment, now: u64)
    requires ValidTable(limits, t)
    ensures var a, h, k := Add(limits, t, f, now), f.header, KeyOf(f.header);
      var tooLong := h.fragmentCount != 1 && h.messageLength > limits.maxMessageLength;
      var disagrees := k in t.entries && (h.fragmentCount != t.entries[k].fragmentCount ||
                                          h.messageLength != t.entries[k].messageLength);
      && (a.verdict == Malformed <==> h.fragmentCount != 1 && (tooLong || disagrees))
      && (a.verdict == Malformed ==>
            a.table.order == t.order && a.table.entries == if tooLong then t.entries else t.entries - {k})
      && (a.verdict == Duplicate ==> a.table == t && k in t.entries)
      && (h.fragmentCount == 1 ==>
            a.table == t && a.verdict == Complete &&
            a.out == CompletedMessage(h.sourceId, h.sequence, h.timestamp, h.flags, f.payload))
      && (a.newMessage <==> h.fragmentCount == 1 || (!tooLong && k !in t.entries))
  {
    hide MakeRoom, Filled;
    if f.header.fragmentCount != 1 && f.header.messageLength <= limits.maxMessageLength {
      WithEntryIsValid(limits, t, f, now);
      if KeyOf(f.header) !in t.entries {
        CreationSetsOneFlag(limits, t, f, now);
      }
    }
  }

  // The buffer of the last message that was put together is kept, and is the one handed out.
  lemma BufferIsKept(limits: Limits, t: Table, f: Fragment, now: u64)
    requires ValidTable(limits, t)
    ensures var a := Add(limits, t, f, now);
      a.table.completed ==
        if a.verdict == Complete && f.header.fragmentCount != 1 then a.out.data else t.completed
  {
    hide MakeRoom, Filled, EntryOk;
    if f.header.fragmentCount != 1 && f.header.messageLength <= limits.maxMessageLength {
      WithEntryIsValid(limits, t, f, now);
      MakeRoomKeeps(t, limits.maxPending);
    }
  }
}
