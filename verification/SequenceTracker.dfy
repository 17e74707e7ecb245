// Per-source gap detection (tools/receiver/lib/sequence_tracker.cpp).
module SequenceTracker {
  import opened ByteOrder

  datatype SequenceState = SequenceState(seen: bool, lastSequence: u64, gapEvents: nat, missing: nat, outOfOrder: nat)

  const UNSEEN := SequenceState(false, 0, 0, 0, 0)

  datatype Outcome = First | InOrder | Gap | OutOfOrder

  datatype Observation = Observation(state: SequenceState, outcome: Outcome, missing: u64)

  // One observation, in 64-bit arithmetic: last + 1 and seq + 1000 may wrap around.
  function ObserveOne(s: SequenceState, seqn: u64): Observation {
    if !s.seen then Observation(s.(seen := true, lastSequence := seqn), First, 0)
    else
      var expected := (s.lastSequence + 1) % TWO_TO_THE_64;
      if seqn == expected then Observation(s.(lastSequence := seqn), InOrder, 0)
      else if seqn > expected then
        var gap := seqn - expected;
        Observation(s.(missing := s.missing + gap, gapEvents := s.gapEvents + 1, lastSequence := seqn), Gap, gap)
      else
        var late := s.(outOfOrder := s.outOfOrder + 1);
        Observation(if Restarts(s, seqn) then late.(lastSequence := seqn) else late, OutOfOrder, 0)
  }

  // A backwards jump of more than 1000, or to 0, is taken for a restart of the bridge.
  predicate Restarts(s: SequenceState, seqn: u64) {
    (seqn + 1000) % TWO_TO_THE_64 < s.lastSequence || seqn == 0
  }

  function StateOf(sources: map<u32, SequenceState>, sourceId: u32): SequenceState {
    if sourceId in sources then sources[sourceId] else UNSEEN
  }

  class SequenceTracker {
    var sources: map<u32, SequenceState>

    constructor ()
      ensures sources == map[]
    {
      sources := map[];
    }

    // Observing one source leaves every other source as it was.
    method Observe(sourceId: u32, seqn: u64) returns (outcome: Outcome, missing: u64)
      modifies this
      ensures Observation(StateOf(sources, sourceId), outcome, missing) ==
              ObserveOne(StateOf(old(sources), sourceId), seqn)
      ensures sources == old(sources)[sourceId := StateOf(sources, sourceId)]
    {
      missing := 0;
      var s := StateOf(sources, sourceId);
      if !s.seen {
        s := s.(seen := true, lastSequence := seqn);
        sources := sources[sourceId := s];
        return First, missing;
      }
      var expected := (s.lastSequence + 1) % TWO_TO_THE_64;
      if seqn == expected {
        s := s.(lastSequence := seqn);
        sources := sources[sourceId := s];
        return InOrder, missing;
      }
      if seqn > expected {
        missing := seqn - expected;
        s := s.(missing := s.missing + missing);
        s := s.(gapEvents := s.gapEvents + 1);
        s := s.(lastSequence := seqn);
        sources := sources[sourceId := s];
        return Gap, missing;
      }
      s := s.(outOfOrder := s.outOfOrder + 1);
      if (seqn + 1000) % TWO_TO_THE_64 < s.lastSequence || seqn == 0 {
        s := s.(lastSequence := seqn);
      }
      sources := sources[sourceId := s];
      return OutOfOrder, missing;
    }
  }

  // ---------- Runs of one source ----------

  function Track(s: SequenceState, seqns: seq<u64>): SequenceState {
    if seqns == [] then s else ObserveOne(Track(s, seqns[..|seqns| - 1]), seqns[|seqns| - 1]).state
  }

  // What one observation does, in plain integers. A number behind the last one is late, and last stays if and only if
  // it is not 0 and at most 1000 behind; but among the last 1000 numbers below 2^64, where the code's addition wraps
  // around, every late number is taken for a restart. Behind 2^64 - 1 itself the next number is 0, and any other is
  // taken for a gap from there.
  lemma ObservationTable(s: SequenceState, x: u64)
    ensures !s.seen ==> ObserveOne(s, x) == Observation(s.(seen := true, lastSequence := x), First, 0)
    ensures s.seen && s.lastSequence < 0xFFFF_FFFF_FFFF_FFFF ==>
      var o, last := ObserveOne(s, x), s.lastSequence;
      && (x == last + 1 ==> o == Observation(s.(lastSequence := x), InOrder, 0))
      && (x > last + 1 ==>
            o == Observation(s.(lastSequence := x, missing := s.missing + (x - last - 1), gapEvents := s.gapEvents + 1),
                             Gap, x - last - 1))
      && (x <= last ==>
            o == Observation(s.(lastSequence := o.state.lastSequence, outOfOrder := s.outOfOrder + 1), OutOfOrder, 0))
      && (x == last ==> o.state.lastSequence == last)
      && (x < last ==>
            o.state.lastSequence ==
              if x != 0 && last - x <= 1000 && x < 0x1_0000_0000_0000_0000 - 1000 then last else x)
    ensures s.seen && s.lastSequence == 0xFFFF_FFFF_FFFF_FFFF ==>
      var o := ObserveOne(s, x);
      && (x == 0 ==> o == Observation(s.(lastSequence := 0), InOrder, 0))
      && (x != 0 ==>
            o == Observation(s.(lastSequence := x, missing := s.missing + x, gapEvents := s.gapEvents + 1), Gap, x))
  {
  }

  // No observation was taken for a restart that set last back, and none was the last 64-bit number, at which
  // last + 1 wraps around.
  predicate NeverSetBack(s: SequenceState, seqns: seq<u64>) {
    seqns != [] ==>
      var before := seqns[..|seqns| - 1];
      && NeverSetBack(s, before)
      && seqns[|seqns| - 1] < TWO_TO_THE_64 - 1
      && Track(s, before).lastSequence <= Track(s, seqns).lastSequence
  }

  // x may come behind y: it is ahead of it or late by no more than the tracker tolerates.
  predicate Tolerated(y: u64, x: u64) {
    y <= x || (x != 0 && y - x <= 1000 && x < 0x1_0000_0000_0000_0000 - 1000)
  }

  // No number is 0 behind a larger one, more than 1000 below one before it, or late close to 2^64.
  predicate InWindow(seqns: seq<u64>) {
    forall i, j :: 0 <= i < j < |seqns| ==> Tolerated(seqns[i], seqns[j])
  }

  lemma {:induction false} LastWasObserved(seqns: seq<u64>)
    requires NeverSetBack(UNSEEN, seqns) && seqns != []
    ensures Track(UNSEEN, seqns).lastSequence in seqns
  {
    var n := |seqns| - 1;
    if n == 0 {
      assert seqns[..0] == [];
    } else {
      LastWasObserved(seqns[..n]);
      assert seqns == seqns[..n] + [seqns[n]];
    }
  }

  // Said about the numbers alone: nothing sets last back if and only if every number is tolerated behind every
  // earlier one.
  lemma {:induction false} NeverSetBackIff(seqns: seq<u64>)
    ensures NeverSetBack(UNSEEN, seqns) <==> BelowTop(seqns) && InWindow(seqns)
  {
    hide ObserveOne;
    if seqns != [] {
      var n := |seqns| - 1;
      var before, x := seqns[..n], seqns[n];
      NeverSetBackIff(before);
      assert forall i :: 0 <= i < n ==> before[i] == seqns[i];
      if n == 0 {
        FirstObservation(x);
        assert before == [];
      } else if NeverSetBack(UNSEEN, before) {
        LastIsGreatest(before);
        LastWasObserved(before);
        var last := Track(UNSEEN, before).lastSequence;
        var i :| 0 <= i < n && before[i] == last;
        ObservationTable(Track(UNSEEN, before), x);
        assert Tolerated(last, x) ==> forall k :: 0 <= k < n ==> Tolerated(seqns[k], x);
        assert InWindow(seqns) ==> Tolerated(seqns[i], seqns[n]);
        assert InWindow(before) && Tolerated(last, x) ==> InWindow(seqns);
      }
    }
  }

  // The numbers in (first, last] that were never observed: the messages that are really missing.
  function NeverObserved(seqns: seq<u64>, first: u64, last: u64): set<int> {
    set x: int | first < x <= last && x !in seqns
  }

  // If nothing was observed, everything in (a, b] is missing.
  lemma {:induction false} RangeSize(a: u64, b: u64)
    requires a <= b
    ensures |NeverObserved([], a, b)| == b - a
    decreases b - a
  {
    if a < b {
      RangeSize(a, b - 1);
      assert NeverObserved([], a, b) == NeverObserved([], a, b - 1) + {b as int};
    } else {
      assert NeverObserved([], a, b) == {};
    }
  }

  lemma {:induction false} LastIsGreatest(seqns: seq<u64>)
    requires NeverSetBack(UNSEEN, seqns) && seqns != []
    ensures Track(UNSEEN, seqns).seen && seqns[0] <= Track(UNSEEN, seqns).lastSequence
    ensures forall i :: 0 <= i < |seqns| ==> seqns[i] <= Track(UNSEEN, seqns).lastSequence < TWO_TO_THE_64 - 1
  {
    var n := |seqns| - 1;
    if n > 0 {
      LastIsGreatest(seqns[..n]);
      assert forall i :: 0 <= i < n ==> seqns[i] == seqns[..n][i];
    }
  }

  // One more observation of x, when last is the greatest so far.
  lemma ObservingShrinks(seqns: seq<u64>, first: u64, last: u64, x: u64)
    requires first <= last && forall i :: 0 <= i < |seqns| ==> seqns[i] <= last
    ensures x > last ==> |NeverObserved(seqns + [x], first, x)| == |NeverObserved(seqns, first, last)| + (x - last - 1)
    ensures x <= last ==> var n, n' := |NeverObserved(seqns, first, last)|, |NeverObserved(seqns + [x], first, last)|;
      n - 1 <= n' <= n
  {
    var before := NeverObserved(seqns, first, last);
    if x > last {
      RangeSize(last, x - 1);
      assert NeverObserved(seqns + [x], first, x) == before + NeverObserved([], last, x - 1);
    } else {
      assert NeverObserved(seqns + [x], first, last) == before - {x as int};
    }
  }

  // Gap accounting. If no number is so late that it is taken for a restart, last is the greatest number so far, and
  // what the tracker calls missing is at least what is really missing up to there, and too much by no more than the
  // out-of-order observations.
  lemma GapAccounting(seqns: seq<u64>)
    requires BelowTop(seqns) && InWindow(seqns) && seqns != []
    ensures var s := Track(UNSEEN, seqns);
      var n := |NeverObserved(seqns, seqns[0], s.lastSequence)|;
      && s.lastSequence in seqns && (forall i :: 0 <= i < |seqns| ==> seqns[i] <= s.lastSequence)
      && s.missing - s.outOfOrder <= n <= s.missing
  {
    NeverSetBackIff(seqns);
    LastWasObserved(seqns);
    LastIsGreatest(seqns);
    GapsAreAccounted(seqns);
  }

  lemma {:induction false} GapsAreAccounted(seqns: seq<u64>)
    requires NeverSetBack(UNSEEN, seqns) && seqns != []
    ensures var s := Track(UNSEEN, seqns);
      var n := |NeverObserved(seqns, seqns[0], s.lastSequence)|;
      s.missing - s.outOfOrder <= n <= s.missing
  {
    hide NeverObserved, ObserveOne;
    var n := |seqns| - 1;
    var before, x := seqns[..n], seqns[n];
    assert seqns == before + [x];
    if n == 0 {
      NothingBetween(seqns, x);
      FirstObservation(x);
      assert before == [];
    } else {
      GapsAreAccounted(before);
      LastIsGreatest(before);
      var s := Track(UNSEEN, before);
      ObservingShrinks(before, seqns[0], s.lastSequence, x);
      OneMoreObservation(s, x);
    }
  }

  lemma NothingBetween(seqns: seq<u64>, x: u64)
    ensures NeverObserved(seqns, x, x) == {}
  {
  }

  lemma FirstObservation(x: u64)
    ensures ObserveOne(UNSEEN, x).state == UNSEEN.(seen := true, lastSequence := x)
  {
  }

  // One observation below the wrap-around: ahead, it adds what it skips to missing; otherwise it repeats the
  // last number or is out of order.
  lemma OneMoreObservation(s: SequenceState, x: u64)
    requires s.seen && s.lastSequence < TWO_TO_THE_64 - 1
    ensures var r := ObserveOne(s, x).state;
      if x > s.lastSequence then
        r == s.(gapEvents := r.gapEvents, missing := s.missing + (x - s.lastSequence - 1), lastSequence := x)
      else
        r == s.(outOfOrder := s.outOfOrder + 1, lastSequence := r.lastSequence) && r.lastSequence in {s.lastSequence, x}
  {
    assert (s.lastSequence + 1) % TWO_TO_THE_64 == s.lastSequence + 1;
  }

  predicate Nondecreasing(seqns: seq<u64>) {
    forall i, j :: 0 <= i < j < |seqns| ==> seqns[i] <= seqns[j]
  }

  // No number is the last 64-bit number.
  predicate BelowTop(seqns: seq<u64>) {
    forall i :: 0 <= i < |seqns| ==> seqns[i] < TWO_TO_THE_64 - 1
  }

  // If numbers never go backwards, the count is exact, even if some are observed repeatedly.
  lemma {:induction false} ExactWhenNondecreasing(seqns: seq<u64>)
    requires seqns != [] && Nondecreasing(seqns) && BelowTop(seqns)
    ensures var s := Track(UNSEEN, seqns);
      && s.seen && s.lastSequence == seqns[|seqns| - 1]
      && s.missing == |NeverObserved(seqns, seqns[0], s.lastSequence)|
  {
    hide NeverObserved, ObserveOne;
    var n := |seqns| - 1;
    var before, x := seqns[..n], seqns[n];
    assert seqns == before + [x];
    if n == 0 {
      FirstObservation(x);
      assert before == [];
      NothingBetween(seqns, x);
    } else {
      assert forall i :: 0 <= i < n ==> before[i] == seqns[i];
      ExactWhenNondecreasing(before);
      var s := Track(UNSEEN, before);
      assert s.lastSequence == seqns[n - 1] <= x;
      ForwardOrRepeated(s, x);
      ObservingShrinks(before, seqns[0], s.lastSequence, x);
      if x == s.lastSequence {
        assert before[n - 1] == x;
        SeenAgain(before, x, seqns[0], x);
      }
    }
  }

  lemma SeenAgain(seqns: seq<u64>, x: u64, first: u64, last: u64)
    requires x in seqns
    ensures NeverObserved(seqns + [x], first, last) == NeverObserved(seqns, first, last)
  {
  }

  // A number that is ahead or repeated is counted right, except that repeating the last 64-bit number counts
  // 2^64 - 1 missing and a gap, because last + 1 wraps around to 0.
  lemma ForwardOrRepeated(s: SequenceState, x: u64)
    requires s.seen && s.lastSequence <= x
    ensures var r := ObserveOne(s, x).state;
      && r.seen && r.lastSequence == x
      && ((r.missing == s.missing + if x == s.lastSequence then 0 else x - s.lastSequence - 1) <==>
          s.lastSequence < TWO_TO_THE_64 - 1)
      && (s.lastSequence == TWO_TO_THE_64 - 1 ==>
            r.missing == s.missing + (TWO_TO_THE_64 - 1) && r.gapEvents == s.gapEvents + 1)
  {
    if s.lastSequence < TWO_TO_THE_64 - 1 {
      assert (s.lastSequence + 1) % TWO_TO_THE_64 == s.lastSequence + 1;
    } else {
      assert (s.lastSequence + 1) % TWO_TO_THE_64 == 0;
    }
  }

  // One ordinary reordering: of 1, 3, 2, 4 nothing is missing; the tracker counts the gap that 3 left, and 2 as late.
  lemma ReorderingIsTolerated()
    ensures var s := Track(UNSEEN, [1] + [3] + [2] + [4]);
      s.lastSequence == 4 && s.missing == 1 && s.gapEvents == 1 && s.outOfOrder == 1
  {
    assert ([1] + [3] + [2] + [4])[..3] == [1] + [3] + [2] && ([1] + [3] + [2])[..2] == [1] + [3];
    assert ([1] + [3])[..1] == [1] && [1][..0] == [];
    assert Track(UNSEEN, [1]) == UNSEEN.(seen := true, lastSequence := 1);
    assert Track(UNSEEN, [1] + [3]) == SequenceState(true, 3, 1, 1, 0);
    assert Track(UNSEEN, [1] + [3] + [2]) == SequenceState(true, 3, 1, 1, 1);
  }
}
