// Fragment reassembly (tools/receiver/lib/reassembler.cpp).
//
// Table is the state of a Reassembler and Add, EvictOldest and Expire say what its methods do to it.
// The class in Reassembler.dfy works in place, as the program does, and is proved to do exactly that.
module Reassembly {
  import opened ByteOrder
  import opened WireProtocol

  datatype Key = Key(sourceId: u32, sequence: u64)

  datatype Entry = Entry(
    firstSeen: u64,
    timestamp: u64,
    flags: u16,
    fragmentCount: u16,
    fragmentsReceived: nat,
    messageLength: u32,
    buffer: bytes,
    received: seq<bool>)

  // The receiver's configuration admits maxPending from 1 (tools/receiver/receiver_config.cpp:112).
  datatype LimitValues = LimitValues(maxPending: nat, timeout: u64, maxMessageLength: nat)
  type Limits = l: LimitValues | l.maxPending >= 1 witness LimitValues(1, 0, 0)

  // order holds keys in insertion order; keys of messages that are gone stay in it for a while.
  datatype Table = Table(entries: map<Key, Entry>, order: seq<Key>, completed: bytes, evictions: nat)

  const EMPTY_TABLE := Table(map[], [], [], 0)

  datatype AddResult = Complete | Incomplete | Duplicate | Malformed

  datatype CompletedMessage = CompletedMessage(sourceId: u32, sequence: u64, timestamp: u64, flags: u16, data: bytes)

  const NO_MESSAGE := CompletedMessage(0, 0, 0, 0, [])

  datatype ExpiredMessage = ExpiredMessage(sourceId: u32, sequence: u64, fragmentsReceived: nat, fragmentCount: u16)

  datatype AddOutcome = AddOutcome(table: Table, verdict: AddResult, out: CompletedMessage, newMessage: bool)

  datatype ExpireOutcome = ExpireOutcome(table: Table, expired: seq<ExpiredMessage>)

  // A datagram that parse_datagram accepted, taken apart.
  datatype ParsedDatagram = ParsedDatagram(header: Header, payload: bytes)
  type Fragment = f: ParsedDatagram | WellFormed(f.header) && |f.payload| == f.header.fragmentLength
    witness ParsedDatagram(DEFAULT_HEADER, [])

  function KeyOf(h: Header): Key {
    Key(h.sourceId, h.sequence)
  }

  // ---------- Counting flags ----------

  function CountTrue(flags: seq<bool>): nat {
    if flags == [] then 0 else (if flags[0] then 1 else 0) + CountTrue(flags[1..])
  }

  lemma {:induction false} CountTrueBounds(flags: seq<bool>)
    ensures CountTrue(flags) <= |flags|
    ensures CountTrue(flags) == |flags| <==> forall i :: 0 <= i < |flags| ==> flags[i]
  {
    if flags != [] {
      CountTrueBounds(flags[1..]);
      assert forall i :: 1 <= i < |flags| ==> flags[i] == flags[1..][i - 1];
      assert forall i :: 0 <= i < |flags[1..]| ==> flags[1..][i] == flags[i + 1];
    }
  }

  lemma {:induction false} CountTrueSet(flags: seq<bool>, i: nat)
    requires i < |flags| && !flags[i]
    ensures CountTrue(flags[i := true]) == CountTrue(flags) + 1
  {
    if i == 0 {
      assert flags[0 := true][1..] == flags[1..];
    } else {
      CountTrueSet(flags[1..], i - 1);
      assert flags[i := true][1..] == flags[1..][i - 1 := true];
    }
  }

  lemma {:induction false} CountTrueOfNone(n: nat)
    ensures CountTrue(seq(n, _ => false)) == 0
  {
    if n > 0 {
      CountTrueOfNone(n - 1);
      assert seq(n, _ => false)[1..] == seq(n - 1, _ => false);
    }
  }

  // ---------- The invariant ----------

  predicate EntryOk(limits: Limits, e: Entry) {
    && 2 <= e.fragmentCount
    && |e.received| == e.fragmentCount
    && e.fragmentsReceived == CountTrue(e.received) < e.fragmentCount
    && |e.buffer| == e.messageLength <= limits.maxMessageLength
  }

  // Every pending key occurs in the order queue: eviction can reach every entry.
  predicate Tracked(t: Table) {
    forall k :: k in t.entries ==> k in t.order
  }

  predicate ValidTable(limits: Limits, t: Table) {
    && |t.entries| <= limits.maxPending
    && Tracked(t)
    && forall k :: k in t.entries ==> EntryOk(limits, t.entries[k])
  }

  // ---------- Adding one fragment ----------

  function Remove(t: Table, k: Key): Table {
    t.(entries := t.entries - {k})
  }

  function EvictOldest(t: Table): Table
    decreases |t.order|
  {
    if t.order == [] then t
    else
      var k := t.order[0];
      var popped := t.(order := t.order[1..]);
      if k in t.entries then Remove(popped, k).(evictions := t.evictions + 1) else EvictOldest(popped)
  }

  function MakeRoom(t: Table, maxPending: nat): Table
    decreases |t.order|
  {
    if |t.entries| < maxPending || t.order == [] then t
    else EvictionShrinks(t); MakeRoom(EvictOldest(t), maxPending)
  }

  lemma {:induction false} EvictionShrinks(t: Table)
    requires t.order != []
    ensures |EvictOldest(t).order| < |t.order|
    decreases |t.order|
  {
    if t.order[0] !in t.entries && |t.order| > 1 {
      EvictionShrinks(t.(order := t.order[1..]));
    }
  }

  function NewEntry(h: Header, now: u64): Entry {
    Entry(now, h.timestamp, h.flags, h.fragmentCount, 0, h.messageLength,
          seq(h.messageLength, _ => 0), seq(h.fragmentCount, _ => false))
  }

  function Create(t: Table, h: Header, now: u64): Table {
    t.(entries := t.entries[KeyOf(h) := NewEntry(h, now)], order := t.order + [KeyOf(h)])
  }

  // Overwrites part of a buffer: memcpy.
  function Splice(buffer: bytes, at: nat, payload: bytes): (r: bytes)
    requires at + |payload| <= |buffer|
    ensures |r| == |buffer|
    ensures forall i :: 0 <= i < |r| ==> r[i] == if at <= i < at + |payload| then payload[i - at] else buffer[i]
  {
    buffer[..at] + payload + buffer[at + |payload|..]
  }

  predicate Agrees(e: Entry, h: Header) {
    h.fragmentCount == e.fragmentCount && h.messageLength == e.messageLength
  }

  function Filled(limits: Limits, e: Entry, f: Fragment): Entry
    requires EntryOk(limits, e) && Agrees(e, f.header)
  {
    e.(buffer := Splice(e.buffer, f.header.fragmentOffset, f.payload),
       received := e.received[f.header.fragmentIndex := true],
       fragmentsReceived := e.fragmentsReceived + 1)
  }

  function Store(limits: Limits, t: Table, f: Fragment, newMessage: bool): AddOutcome
    requires KeyOf(f.header) in t.entries && EntryOk(limits, t.entries[KeyOf(f.header)])
  {
    var h, k := f.header, KeyOf(f.header);
    var e := t.entries[k];
    if !Agrees(e, h) then AddOutcome(Remove(t, k), Malformed, NO_MESSAGE, newMessage)
    else if e.received[h.fragmentIndex] then AddOutcome(t, Duplicate, NO_MESSAGE, newMessage)
    else
      var filled := Filled(limits, e, f);
      if filled.fragmentsReceived < filled.fragmentCount then
        AddOutcome(t.(entries := t.entries[k := filled]), Incomplete, NO_MESSAGE, newMessage)
      else
        AddOutcome(Remove(t, k).(completed := filled.buffer), Complete,
                   CompletedMessage(h.sourceId, h.sequence, filled.timestamp, filled.flags, filled.buffer), newMessage)
  }

  // The table in which a fragment of a fragmented message is stored: with an entry for it.
  function WithEntry(limits: Limits, t: Table, h: Header, now: u64): Table {
    if KeyOf(h) in t.entries then t else Create(MakeRoom(t, limits.maxPending), h, now)
  }

  function Add(limits: Limits, t: Table, f: Fragment, now: u64): AddOutcome
    requires ValidTable(limits, t)
  {
    var h := f.header;
    if h.fragmentCount == 1 then
      AddOutcome(t, Complete, CompletedMessage(h.sourceId, h.sequence, h.timestamp, h.flags, f.payload), true)
    else if h.messageLength > limits.maxMessageLength then AddOutcome(t, Malformed, NO_MESSAGE, false)
    else
      WithEntryIsValid(limits, t, f, now);
      Store(limits, WithEntry(limits, t, h, now), f, KeyOf(h) !in t.entries)
  }

  // ---------- Expiry ----------

  // now - first_seen in 64-bit arithmetic.
  function Age(now: u64, e: Entry): u64 {
    (now - e.firstSeen) % TWO_TO_THE_64
  }

  function ReportOf(k: Key, e: Entry): ExpiredMessage {
    ExpiredMessage(k.sourceId, k.sequence, e.fragmentsReceived, e.fragmentCount)
  }

  function ExpireFront(limits: Limits, t: Table, now: u64): ExpireOutcome
    decreases |t.order|
  {
    if t.order == [] then ExpireOutcome(t, [])
    else
      var k := t.order[0];
      var popped := t.(order := t.order[1..]);
      if k !in t.entries then ExpireFront(limits, popped, now)
      else if Age(now, t.entries[k]) < limits.timeout then ExpireOutcome(t, [])
      else
        var rest := ExpireFront(limits, Remove(popped, k), now);
        rest.(expired := [ReportOf(k, t.entries[k])] + rest.expired)
  }

  // The keys of order that are still pending.
  function Live(order: seq<Key>, entries: map<Key, Entry>): seq<Key> {
    if order == [] then []
    else (if order[0] in entries then [order[0]] else []) + Live(order[1..], entries)
  }

  function Compact(t: Table): Table {
    if |t.order| > |t.entries| * 4 + 64 then t.(order := Live(t.order, t.entries)) else t
  }

  function Expire(limits: Limits, t: Table, now: u64): ExpireOutcome {
    var r := ExpireFront(limits, t, now);
    r.(table := Compact(r.table))
  }

  // ---------- The invariant is kept ----------

  lemma {:induction false} EvictOldestKeeps(t: Table)
    requires Tracked(t)
    ensures var r := EvictOldest(t);
      && Tracked(r)
      && (forall k :: k in r.entries ==> k in t.entries && r.entries[k] == t.entries[k])
      && (t.entries != map[] ==> |r.entries| == |t.entries| - 1 && r.evictions == t.evictions + 1)
      && (t.entries == map[] ==> r.entries == map[] && r.evictions == t.evictions)
      && r.completed == t.completed
    decreases |t.order|
  {
    if t.order == [] {
      assert forall k :: k !in t.entries;
    } else {
      var k := t.order[0];
      var popped := t.(order := t.order[1..]);
      if k in t.entries {
        assert |t.entries.Keys - {k}| == |t.entries.Keys| - 1;
        assert (t.entries - {k}).Keys == t.entries.Keys - {k};
      } else {
        assert Tracked(popped);
        EvictOldestKeeps(popped);
      }
    }
  }

  // The eviction loop of add ends with room for one more entry, and every step takes out exactly one.
  lemma {:induction false} MakeRoomKeeps(t: Table, max: nat)
    requires Tracked(t) && max >= 1
    ensures var r := MakeRoom(t, max);
      && Tracked(r)
      && |r.entries| < max
      && (forall k :: k in r.entries ==> k in t.entries && r.entries[k] == t.entries[k])
      && r.evictions - t.evictions == |t.entries| - |r.entries|
      && r.completed == t.completed
    decreases |t.order|
  {
    if |t.entries| >= max {
      EvictOldestKeeps(t);
      if t.order != [] {
        EvictionShrinks(t);
        MakeRoomKeeps(EvictOldest(t), max);
      }
    }
  }

  lemma NewEntryIsOk(limits: Limits, h: Header, now: u64)
    requires h.fragmentCount >= 2 && h.messageLength <= limits.maxMessageLength
    ensures EntryOk(limits, NewEntry(h, now))
  {
    CountTrueOfNone(h.fragmentCount);
  }

  lemma WithEntryIsValid(limits: Limits, t: Table, f: Fragment, now: u64)
    requires ValidTable(limits, t)
    requires f.header.fragmentCount != 1 && f.header.messageLength <= limits.maxMessageLength
    ensures ValidTable(limits, WithEntry(limits, t, f.header, now))
    ensures KeyOf(f.header) in WithEntry(limits, t, f.header, now).entries
  {
    MakeRoomKeeps(t, limits.maxPending);
    NewEntryIsOk(limits, f.header, now);
    var room := MakeRoom(t, limits.maxPending);
    var k := KeyOf(f.header);
    if k !in t.entries {
      var r := Create(room, f.header, now);
      assert r.entries.Keys == room.entries.Keys + {k};
      assert r.order[|r.order| - 1] == k;
      forall j | j in r.entries
        ensures j in r.order && EntryOk(limits, r.entries[j])
      {
        if j != k {
          assert j in room.order;
        }
      }
    }
  }

  lemma FilledIsOk(limits: Limits, e: Entry, f: Fragment)
    requires EntryOk(limits, e) && Agrees(e, f.header) && !e.received[f.header.fragmentIndex]
    ensures var r := Filled(limits, e, f);
      r.fragmentsReceived == CountTrue(r.received) <= r.fragmentCount
  {
    CountTrueSet(e.received, f.header.fragmentIndex);
    CountTrueBounds(e.received[f.header.fragmentIndex := true]);
  }

  // Every validated fragment, honest or not, keeps the table valid: counters match flags, buffers
  // and flag arrays have their announced sizes, every pending key can be evicted, and at most
  // maxPending entries exist.
  lemma AddKeepsValid(limits: Limits, t: Table, f: Fragment, now: u64)
    requires ValidTable(limits, t)
    ensures ValidTable(limits, Add(limits, t, f, now).table)
  {
    var h := f.header;
    if h.fragmentCount != 1 && h.messageLength <= limits.maxMessageLength {
      WithEntryIsValid(limits, t, f, now);
      StoreKeepsValid(limits, WithEntry(limits, t, h, now), f, KeyOf(h) !in t.entries);
    }
  }

  lemma StoreKeepsValid(limits: Limits, t: Table, f: Fragment, newMessage: bool)
    requires ValidTable(limits, t) && KeyOf(f.header) in t.entries
    ensures ValidTable(limits, Store(limits, t, f, newMessage).table)
  {
    var k := KeyOf(f.header);
    var e := t.entries[k];
    assert (t.entries - {k}).Keys == t.entries.Keys - {k};
    if Agrees(e, f.header) && !e.received[f.header.fragmentIndex] {
      FilledIsOk(limits, e, f);
      assert t.entries[k := Filled(limits, e, f)].Keys == t.entries.Keys;
    }
  }

  lemma {:induction false} LiveKeys(order: seq<Key>, entries: map<Key, Entry>, k: Key)
    ensures k in Live(order, entries) <==> k in order && k in entries
  {
    if order != [] {
      LiveKeys(order[1..], entries, k);
      assert order == [order[0]] + order[1..];
    }
  }

  lemma CompactKeepsValid(limits: Limits, t: Table)
    requires ValidTable(limits, t)
    ensures ValidTable(limits, Compact(t))
  {
    forall k | k in t.entries
      ensures k in Compact(t).order
    {
      LiveKeys(t.order, t.entries, k);
    }
  }

  // Expiry keeps the table valid, removes exactly the entries it reports, touches no other entry
  // and counts no eviction.
  lemma {:induction false} ExpireFrontKeeps(limits: Limits, t: Table, now: u64)
    requires ValidTable(limits, t)
    ensures var r := ExpireFront(limits, t, now);
      && ValidTable(limits, r.table)
      && (forall k :: k in r.table.entries ==> k in t.entries && r.table.entries[k] == t.entries[k])
      && |r.expired| == |t.entries| - |r.table.entries|
      && r.table.evictions == t.evictions && r.table.completed == t.completed
    decreases |t.order|
  {
    if t.order != [] {
      var k := t.order[0];
      var popped := t.(order := t.order[1..]);
      if k !in t.entries {
        ExpireFrontKeeps(limits, popped, now);
      } else if Age(now, t.entries[k]) >= limits.timeout {
        assert (t.entries - {k}).Keys == t.entries.Keys - {k};
        ExpireFrontKeeps(limits, Remove(popped, k), now);
      }
    }
  }

  lemma ExpireKeepsValid(limits: Limits, t: Table, now: u64)
    requires ValidTable(limits, t)
    ensures ValidTable(limits, Expire(limits, t, now).table)
  {
    ExpireFrontKeeps(limits, t, now);
    CompactKeepsValid(limits, ExpireFront(limits, t, now).table);
  }
}
