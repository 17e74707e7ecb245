// How many bytes the reassembly table holds, buffers and flags, over every run; and that the bound is attained
// (tools/receiver/lib/reassembler.cpp:33-79, tools/receiver/include/ipcrelay/reassembler.hpp:74-84,
// docs/limitations.md:74-77).
module MemoryBound {
  import opened ByteOrder
  import opened WireProtocol
  import opened Reassembly
  import opened ReassemblyRuns
  import opened AgeQueue

  const MAX_FRAGMENTS := 0xFFFF

  // The bytes that an entry holds: its buffer, and one byte per fragment for the flags.
  function SizeOf(e: Entry): nat {
    |e.buffer| + |e.received|
  }

  ghost function Held(entries: map<Key, Entry>): nat {
    if entries == map[] then 0
    else
      var k :| k in entries;
      SizeOf(entries[k]) + Held(entries - {k})
  }

  // The bytes of the buffers alone.
  ghost function Buffered(entries: map<Key, Entry>): nat {
    if entries == map[] then 0
    else
      var k :| k in entries;
      |entries[k].buffer| + Buffered(entries - {k})
  }

  lemma {:induction false} BufferedIsBounded(entries: map<Key, Entry>, bound: nat)
    requires forall k :: k in entries ==> |entries[k].buffer| <= bound
    ensures Buffered(entries) <= |entries| * bound
  {
    if entries != map[] {
      var k :| k in entries && Buffered(entries) == |entries[k].buffer| + Buffered(entries - {k});
      OneFewer(entries, k);
      BufferedIsBounded(entries - {k}, bound);
      OneMoreTime(|entries| - 1, bound);
    }
  }

  lemma {:induction false} HeldIsBounded(entries: map<Key, Entry>, bound: nat)
    requires forall k :: k in entries ==> SizeOf(entries[k]) <= bound
    ensures Held(entries) <= |entries| * bound
  {
    hide SizeOf;
    if entries != map[] {
      var k :| k in entries && Held(entries) == SizeOf(entries[k]) + Held(entries - {k});
      OneFewer(entries, k);
      HeldIsBounded(entries - {k}, bound);
      OneMoreTime(|entries| - 1, bound);
    }
  }

  lemma OneFewer(entries: map<Key, Entry>, k: Key)
    requires k in entries
    ensures |entries - {k}| == |entries| - 1
  {
    assert (entries - {k}).Keys == entries.Keys - {k};
    assert |entries| == |entries.Keys| && |entries - {k}| == |(entries - {k}).Keys|;
  }

  lemma OneMoreTime(n: nat, bound: nat)
    ensures (n + 1) * bound == n * bound + bound
  {
  }

  // After any run the pending messages number at most maxPending. Their buffers hold at most maxPending *
  // maxMessageLength bytes, as documented; with the flags it is up to 65535 bytes more for each message.
  lemma MemoryIsBounded(limits: Limits, ops: seq<Op>)
    ensures var t := Run(limits, EMPTY_TABLE, ops);
      && |t.entries| <= limits.maxPending
      && Buffered(t.entries) <= limits.maxPending * limits.maxMessageLength
      && Held(t.entries) <= limits.maxPending * (limits.maxMessageLength + MAX_FRAGMENTS)
  {
    var t := Run(limits, EMPTY_TABLE, ops);
    BufferedIsBounded(t.entries, limits.maxMessageLength);
    TimesMonotone(limits.maxMessageLength, |t.entries|, limits.maxPending);
    HeldIsBounded(t.entries, limits.maxMessageLength + MAX_FRAGMENTS);
    TimesMonotone(limits.maxMessageLength + MAX_FRAGMENTS, |t.entries|, limits.maxPending);
  }

  // ---------- The bound is attained ----------

  // What is held does not depend on the order of counting.
  lemma {:induction false} HeldWithout(entries: map<Key, Entry>, k: Key)
    requires k in entries
    ensures Held(entries) == SizeOf(entries[k]) + Held(entries - {k})
    decreases |entries|
  {
    hide SizeOf;
    var x :| x in entries && Held(entries) == SizeOf(entries[x]) + Held(entries - {x});
    if x != k {
      OneFewer(entries, x);
      OneFewer(entries, k);
      HeldWithout(entries - {x}, k);
      HeldWithout(entries - {k}, x);
      assert entries - {x} - {k} == entries - {k} - {x};
    }
  }

  // The last of 65535 fragments, empty, of a message of the given length: 44 bytes on the wire.
  function Wide(length: u32, n: u64): Fragment {
    ParsedDatagram(Header(VERSION, FLAG_FRAGMENTED, 7, length, n, 0, length, 0xFFFE, MAX_FRAGMENTS, 0), [])
  }

  function WideRun(length: u32, n: nat): seq<Op>
    requires n <= TWO_TO_THE_64
  {
    if n == 0 then [] else WideRun(length, n - 1) + [AddOp(Wide(length, n - 1), 0)]
  }

  // maxPending such datagrams make the table hold exactly as much as the bound says.
  lemma BoundIsAttained(limits: Limits)
    requires limits.maxPending <= TWO_TO_THE_64 && limits.maxMessageLength < 0x1_0000_0000
    ensures var t := Run(limits, EMPTY_TABLE, WideRun(limits.maxMessageLength, limits.maxPending));
      && |t.entries| == limits.maxPending
      && Held(t.entries) == limits.maxPending * (limits.maxMessageLength + MAX_FRAGMENTS)
  {
    hide Run, Held, WideRun;
    WideHolds(limits, limits.maxPending);
  }

  lemma {:induction false} WideHolds(limits: Limits, n: nat)
    requires n <= limits.maxPending && n <= TWO_TO_THE_64 && limits.maxMessageLength < 0x1_0000_0000
    ensures HoldsWide(limits, Run(limits, EMPTY_TABLE, WideRun(limits.maxMessageLength, n)), n)
    decreases n
  {
    hide Run, Step, Held, Wide, HoldsWide, ValidTable;
    EmptyIsValid(limits);
    if n == 0 {
      NothingHeld(limits);
    } else {
      WideHolds(limits, n - 1);
      var before := WideRun(limits.maxMessageLength, n - 1);
      RunSnoc(limits, EMPTY_TABLE, before, AddOp(Wide(limits.maxMessageLength, n - 1), 0));
      OneMoreWide(limits, Run(limits, EMPTY_TABLE, before), n - 1);
    }
  }

  lemma EmptyIsValid(limits: Limits)
    ensures ValidTable(limits, EMPTY_TABLE)
  {
  }

  // n wide messages are pending, with the first n sequence numbers.
  ghost predicate HoldsWide(limits: Limits, t: Table, n: nat) {
    && |t.entries| == n && Held(t.entries) == n * (limits.maxMessageLength + MAX_FRAGMENTS)
    && forall k :: k in t.entries ==> k.sequence < n
  }

  lemma OneMoreWide(limits: Limits, t: Table, n: u64)
    requires ValidTable(limits, t) && HoldsWide(limits, t, n)
    requires n < limits.maxPending && limits.maxMessageLength < 0x1_0000_0000
    ensures HoldsWide(limits, Step(limits, t, AddOp(Wide(limits.maxMessageLength, n), 0)), n + 1)
  {
    hide Step, Held, Feeds, Wide, ValidTable;
    WideFeeds(limits, n);
    var r := Step(limits, t, AddOp(Wide(limits.maxMessageLength, n), 0));
    CreatesWithRoom(limits, t, Wide(limits.maxMessageLength, n), 0);
    OneMoreHeld(t, r, Key(7, n));
    OneMoreTime(n, limits.maxMessageLength + MAX_FRAGMENTS);
  }

  lemma WideFeeds(limits: Limits, n: u64)
    requires limits.maxMessageLength < 0x1_0000_0000
    ensures var f := Wide(limits.maxMessageLength, n);
      && KeyOf(f.header) == Key(7, n) && Feeds(limits, AddOp(f, 0), Key(7, n))
      && f.header.messageLength == limits.maxMessageLength && f.header.fragmentCount == MAX_FRAGMENTS
  {
  }

  lemma NothingHeld(limits: Limits)
    ensures Run(limits, EMPTY_TABLE, []) == EMPTY_TABLE && HoldsWide(limits, EMPTY_TABLE, 0)
  {
  }

  lemma OneMoreHeld(t: Table, r: Table, k: Key)
    requires k !in t.entries && r.entries.Keys == t.entries.Keys + {k}
    requires forall j :: j in t.entries ==> r.entries[j] == t.entries[j]
    ensures |r.entries| == |t.entries| + 1 && Held(r.entries) == Held(t.entries) + SizeOf(r.entries[k])
  {
    assert r.entries - {k} == t.entries;
    OneFewer(r.entries, k);
    HeldWithout(r.entries, k);
  }
}
