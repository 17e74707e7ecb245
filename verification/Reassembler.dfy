// The reassembler object (tools/receiver/include/ipcrelay/reassembler.hpp, tools/receiver/lib/reassembler.cpp).
module Reassembler {
  import opened ByteOrder
  import opened WireProtocol
  import opened Reassembly

  class Reassembler {
    const limits: Limits
    var entries: map<Key, Entry>
    var order: seq<Key>
    var completed: bytes
    var evictions: nat

    ghost function View(): Table
      reads this
    {
      Table(entries, order, completed, evictions)
    }

    ghost predicate Valid()
      reads this
    {
      ValidTable(limits, View())
    }

    constructor (limits: Limits)
      ensures Valid() && this.limits == limits && View() == EMPTY_TABLE
    {
      this.limits := limits;
      entries, order, completed, evictions := map[], [], [], 0;
    }

    // Feeds one validated fragment. newMessage is set when its key was not pending, which is when
    // sequence tracking observes the message.
    method Add(f: Fragment, now: u64) returns (verdict: AddResult, out: CompletedMessage, newMessage: bool)
      requires Valid()
      modifies this
      ensures Valid()
      ensures AddOutcome(View(), verdict, out, newMessage) == Reassembly.Add(limits, old(View()), f, now)
    {
      AddKeepsValid(limits, View(), f, now);
      newMessage := false;
      out := NO_MESSAGE;
      var hdr := f.header;

      if hdr.fragmentCount == 1 {
        newMessage := true;
        out := CompletedMessage(hdr.sourceId, hdr.sequence, hdr.timestamp, hdr.flags, f.payload);
        return Complete, out, newMessage;
      }
      if hdr.messageLength > limits.maxMessageLength {
        return Malformed, out, newMessage;
      }
      WithEntryIsValid(limits, View(), f, now);

      newMessage := EnsureEntry(hdr, now);
      verdict, out := StoreFragment(f, newMessage);
    }

    // First half of add: makes room and creates the entry if the key is not pending.
    method EnsureEntry(hdr: Header, now: u64) returns (newMessage: bool)
      requires Valid()
      modifies this
      ensures View() == WithEntry(limits, old(View()), hdr, now)
      ensures newMessage == (KeyOf(hdr) !in old(entries))
    {
      var key := KeyOf(hdr);
      newMessage := key !in entries;
      if newMessage {
        while |entries| >= limits.maxPending
          invariant Tracked(View())
          invariant MakeRoom(View(), limits.maxPending) == MakeRoom(old(View()), limits.maxPending)
          decreases |entries|
        {
          EvictOldestKeeps(View());
          EvictOldest();
        }
        entries := entries[key := NewEntry(hdr, now)];
        order := order + [key];
      }
    }

    // Second half of add: stores the fragment in the entry of its key.
    method StoreFragment(f: Fragment, newMessage: bool) returns (verdict: AddResult, out: CompletedMessage)
      requires KeyOf(f.header) in entries && EntryOk(limits, entries[KeyOf(f.header)])
      modifies this
      ensures AddOutcome(View(), verdict, out, newMessage) == Store(limits, old(View()), f, newMessage)
    {
      out := NO_MESSAGE;
      var hdr, key := f.header, KeyOf(f.header);
      var e := entries[key];
      if hdr.fragmentCount != e.fragmentCount || hdr.messageLength != e.messageLength {
        entries := entries - {key};
        return Malformed, out;
      }
      if e.received[hdr.fragmentIndex] {
        return Duplicate, out;
      }
      if hdr.fragmentLength > 0 {
        e := e.(buffer := Splice(e.buffer, hdr.fragmentOffset, f.payload));
      } else {
        assert Splice(e.buffer, hdr.fragmentOffset, f.payload) == e.buffer;
      }
      e := e.(received := e.received[hdr.fragmentIndex := true], fragmentsReceived := e.fragmentsReceived + 1);
      assert e == Filled(limits, old(entries)[key], f);
      if e.fragmentsReceived < e.fragmentCount {
        entries := entries[key := e];
        return Incomplete, out;
      }
      completed := e.buffer;
      out := CompletedMessage(hdr.sourceId, hdr.sequence, e.timestamp, e.flags, completed);
      entries := entries - {key};
      return Complete, out;
    }

    // Pops stale keys up to and including the first key that is still pending, and drops that entry.
    method EvictOldest()
      requires Tracked(View())
      modifies this
      ensures View() == Reassembly.EvictOldest(old(View()))
    {
      while order != []
        invariant Reassembly.EvictOldest(View()) == Reassembly.EvictOldest(old(View()))
        decreases |order|
      {
        var k := order[0];
        order := order[1..];
        if k in entries {
          evictions := evictions + 1;
          entries := entries - {k};
          return;
        }
      }
    }

    // Discards what is older than the timeout; expired lists the entries in the order of the callbacks.
    method Expire(now: u64) returns (expired: seq<ExpiredMessage>)
      requires Valid()
      modifies this
      ensures Valid()
      ensures ExpireOutcome(View(), expired) == Reassembly.Expire(limits, old(View()), now)
    {
      hide ExpireFront, Live;
      ExpireKeepsValid(limits, View(), now);
      expired := PopOverdue(now);
      if |order| > |entries| * 4 + 64 {
        CompactOrder();
      }
    }

    // The loop of expire: order is in insertion order, so the oldest entries should be at its front.
    method PopOverdue(now: u64) returns (expired: seq<ExpiredMessage>)
      modifies this
      ensures ExpireOutcome(View(), expired) == ExpireFront(limits, old(View()), now)
    {
      ghost var goal := ExpireFront(limits, View(), now);
      expired := [];
      while order != []
        invariant var rest := ExpireFront(limits, View(), now);
          goal.table == rest.table && goal.expired == expired + rest.expired
        decreases |order|
      {
        var k := order[0];
        if k !in entries {
          order := order[1..];
          continue;
        }
        if Age(now, entries[k]) < limits.timeout { break; }
        ghost var before := View();
        order := order[1..];
        expired := expired + [ReportOf(k, entries[k])];
        entries := entries - {k};
        assert ExpireFront(limits, before, now).expired ==
               [ReportOf(k, before.entries[k])] + ExpireFront(limits, View(), now).expired;
      }
    }

    // Keeps order from growing with the stale keys of completed messages.
    method CompactOrder()
      modifies `order
      ensures order == Live(old(order), entries)
    {
      var compact := [];
      for i := 0 to |order|
        invariant Live(order, entries) == compact + Live(order[i..], entries)
        invariant order == old(order)
      {
        if order[i] in entries { compact := compact + [order[i]]; }
        assert order[i..][1..] == order[i + 1..];
      }
      order := compact;
    }

    method Pending() returns (n: nat)
      requires Valid()
      ensures n == |View().entries| <= limits.maxPending
    {
      n := |entries|;
    }
  }
}
