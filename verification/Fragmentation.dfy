// How a message is cut into datagrams (src/bridge/bridge.cpp, Bridge::transmit, and
// src/common/wire_protocol.cpp, fragment_count_for).
module Fragmentation {
  import opened ByteOrder
  import opened WireProtocol

  // A message as Bridge::transmit is given it, with the sequence number it is assigned.
  // The flags are those of the caller: 0 or MULTIPART.
  datatype Message = Message(sourceId: u32, sequence: u64, timestamp: u64, flags: u16, data: bytes)

  // The payload capacity of one datagram: max_datagram_size - 44, with max_datagram_size in [45, 65507].
  type Capacity = c: int | 1 <= c <= MAX_UDP_PAYLOAD - HEADER_SIZE witness 1

  function FragmentCountFor(length: nat, fragmentPayload: nat): nat {
    if fragmentPayload == 0 then 0
    else if length == 0 then 1
    else (length + fragmentPayload - 1) / fragmentPayload
  }

  predicate Transmittable(m: Message, c: Capacity) {
    |m.data| <= MAX_MESSAGE_LENGTH && FragmentCountFor(|m.data|, c) <= 0xFFFF
  }

  function Count(m: Message, c: Capacity): nat {
    FragmentCountFor(|m.data|, c)
  }

  // Where fragment i starts, and where fragment i - 1 ends.
  function Boundary(m: Message, c: Capacity, i: nat): nat {
    if i * c <= |m.data| then i * c else |m.data|
  }

  // flags |= FRAGMENTED, if there is more than one fragment.
  function WireFlags(m: Message, c: Capacity): u16 {
    if Count(m, c) > 1 && !HasFragmentedFlag(m.flags) then m.flags + FLAG_FRAGMENTED else m.flags
  }

  // ---------- Ceiling division ----------

  // FragmentCountFor is the least number of fragments, at least one, that has room for the message.
  lemma CountIsCeiling(length: nat, c: Capacity)
    ensures var n := FragmentCountFor(length, c);
      && n >= 1
      && length <= n * c
      && (forall k: nat :: k >= 1 && length <= k * c ==> n <= k)
      && (n > 1 ==> (n - 1) * c < length)
  {
    var n := FragmentCountFor(length, c);
    if length > 0 {
      var r := (length + c - 1) % c;
      assert length + c - 1 == n * c + r;
      assert (n - 1) * c == n * c - c;
    }
    forall k: nat | k >= 1 && length <= k * c
      ensures n <= k
    {
      if k < n {
        TimesMonotone(c, k, n - 1);
      }
    }
  }

  // ---------- The fragments ----------

  lemma BoundariesAreInRange(m: Message, c: Capacity, i: nat)
    requires i < Count(m, c)
    ensures Boundary(m, c, i) == i * c
    ensures Boundary(m, c, i) <= Boundary(m, c, i + 1) <= |m.data|
    ensures Boundary(m, c, i + 1) - Boundary(m, c, i) <= c
    ensures |m.data| > 0 ==> Boundary(m, c, i) < Boundary(m, c, i + 1)
    ensures i + 1 == Count(m, c) ==> Boundary(m, c, i + 1) == |m.data|
    ensures i + 1 < Count(m, c) ==> Boundary(m, c, i + 1) - Boundary(m, c, i) == c
  {
    CountIsCeiling(|m.data|, c);
    TimesMonotone(c, i, Count(m, c) - 1);
    assert (i + 1) * c == i * c + c;
    if i + 1 < Count(m, c) {
      TimesMonotone(c, i + 1, Count(m, c) - 1);
    }
  }

  function FragmentHeader(m: Message, c: Capacity, i: nat): Header
    requires Transmittable(m, c) && i < Count(m, c)
  {
    BoundariesAreInRange(m, c, i);
    Header(VERSION, WireFlags(m, c), m.sourceId, |m.data|, m.sequence, m.timestamp,
           Boundary(m, c, i), i, Count(m, c), Boundary(m, c, i + 1) - Boundary(m, c, i))
  }

  function FragmentPayload(m: Message, c: Capacity, i: nat): (p: bytes)
    requires i < Count(m, c)
  {
    BoundariesAreInRange(m, c, i);
    m.data[Boundary(m, c, i)..Boundary(m, c, i + 1)]
  }

  function Datagram(m: Message, c: Capacity, i: nat): bytes
    requires Transmittable(m, c) && i < Count(m, c)
  {
    HeaderBytes(FragmentHeader(m, c, i)) + FragmentPayload(m, c, i)
  }

  // The first k datagrams of a message, in index order.
  function Datagrams(m: Message, c: Capacity, k: nat): (ds: seq<bytes>)
    requires k > 0 ==> Transmittable(m, c) && k <= Count(m, c)
    ensures |ds| == k
  {
    if k == 0 then [] else Datagrams(m, c, k - 1) + [Datagram(m, c, k - 1)]
  }

  lemma {:induction false} DatagramsAt(m: Message, c: Capacity, k: nat, i: nat)
    requires Transmittable(m, c) && i < k <= Count(m, c)
    ensures Datagrams(m, c, k)[i] == Datagram(m, c, i)
  {
    if i < k - 1 {
      DatagramsAt(m, c, k - 1, i);
    }
  }

  // The payloads of the first k fragments, put end to end.
  function Joined(m: Message, c: Capacity, k: nat): bytes
    requires k <= Count(m, c)
  {
    if k == 0 then [] else Joined(m, c, k - 1) + FragmentPayload(m, c, k - 1)
  }

  // Fragments tile the message: each starts where the one before ends, none is empty unless the
  // message is, all but the last carry exactly c bytes, and end to end they are the message.
  lemma {:induction false} FragmentsTile(m: Message, c: Capacity)
    ensures Joined(m, c, Count(m, c)) == m.data
    ensures forall i :: 0 <= i < Count(m, c) ==>
      && i * c <= |m.data|
      && FragmentPayload(m, c, i) == m.data[i * c..if (i + 1) * c <= |m.data| then (i + 1) * c else |m.data|]
      && (|m.data| > 0 ==> FragmentPayload(m, c, i) != [])
      && (i + 1 < Count(m, c) ==> |FragmentPayload(m, c, i)| == c)
  {
    CountIsCeiling(|m.data|, c);
    JoinedIsPrefix(m, c, Count(m, c));
    BoundariesAreInRange(m, c, Count(m, c) - 1);
    assert m.data[..|m.data|] == m.data;
    forall i | 0 <= i < Count(m, c)
      ensures && i * c <= |m.data|
              && FragmentPayload(m, c, i) == m.data[i * c..if (i + 1) * c <= |m.data| then (i + 1) * c else |m.data|]
              && (|m.data| > 0 ==> FragmentPayload(m, c, i) != [])
              && (i + 1 < Count(m, c) ==> |FragmentPayload(m, c, i)| == c)
    {
      BoundariesAreInRange(m, c, i);
    }
  }

  lemma {:induction false} JoinedIsPrefix(m: Message, c: Capacity, k: nat)
    requires k <= Count(m, c)
    ensures Boundary(m, c, k) <= |m.data| && Joined(m, c, k) == m.data[..Boundary(m, c, k)]
  {
    if k > 0 {
      JoinedIsPrefix(m, c, k - 1);
      BoundariesAreInRange(m, c, k - 1);
    }
  }

  lemma FragmentHeaderIsWellFormed(m: Message, c: Capacity, i: nat)
    requires Transmittable(m, c) && i < Count(m, c) && !HasFragmentedFlag(m.flags)
    ensures WellFormed(FragmentHeader(m, c, i))
  {
    BoundariesAreInRange(m, c, i);
    if |m.data| == 0 {
      CountIsCeiling(0, c);
    }
    assert HasFragmentedFlag(WireFlags(m, c)) == (Count(m, c) > 1);
  }

  // Every datagram of a transmittable message is accepted by the receiver's validation, and is
  // decoded to the header and payload that were sent.
  lemma DatagramIsAccepted(m: Message, c: Capacity, i: nat)
    requires Transmittable(m, c) && i < Count(m, c) && !HasFragmentedFlag(m.flags)
    ensures var d := Datagram(m, c, i);
      Verdict(d) == Accepted && DecodeHeader(d) == FragmentHeader(m, c, i)
        && d[HEADER_SIZE..] == FragmentPayload(m, c, i)
  {
    FragmentHeaderIsWellFormed(m, c, i);
    ParseOfEncode(FragmentHeader(m, c, i), FragmentPayload(m, c, i));
  }

  // Two datagrams are equal only if they are the same fragment of the same message key.
  lemma DatagramIdentity(m: Message, i: nat, n: Message, j: nat, c: Capacity)
    requires Transmittable(m, c) && i < Count(m, c)
    requires Transmittable(n, c) && j < Count(n, c)
    requires Datagram(m, c, i) == Datagram(n, c, j)
    ensures m.sourceId == n.sourceId && m.sequence == n.sequence && i == j
  {
    ParseOfEncode(FragmentHeader(m, c, i), FragmentPayload(m, c, i));
    ParseOfEncode(FragmentHeader(n, c, j), FragmentPayload(n, c, j));
  }
}
