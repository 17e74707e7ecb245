// How long order_ can get: a bound for every run, and exactly when expire leaves it within 4 * pending + 64
// (tools/receiver/lib/reassembler.cpp:33-48, 81-125).
module OrderBound {
  import opened ByteOrder
  import opened WireProtocol
  import opened Reassembly
  import opened ReassemblyRuns
  import opened AgeQueue

  // ---------- Repeated keys ----------

  // How many elements of keys occur again behind themselves.
  function Repeats(keys: seq<Key>): nat {
    if keys == [] then 0 else (if keys[0] in keys[1..] then 1 else 0) + Repeats(keys[1..])
  }

  lemma {:induction false} RepeatsSnoc(keys: seq<Key>, k: Key)
    ensures Repeats(keys + [k]) == Repeats(keys) + if k in keys then 1 else 0
  {
    if keys != [] {
      assert (keys + [k])[1..] == keys[1..] + [k];
      RepeatsSnoc(keys[1..], k);
    }
  }

  function KeysOf(keys: seq<Key>): set<Key> {
    set k | k in keys
  }

  // A sequence is as long as its keys and their repetitions.
  lemma {:induction false} LengthIsKeysAndRepeats(keys: seq<Key>)
    ensures |keys| == |KeysOf(keys)| + Repeats(keys)
  {
    if keys != [] {
      var rest := keys[1..];
      LengthIsKeysAndRepeats(rest);
      assert KeysOf(keys) == KeysOf(rest) + {keys[0]};
      assert keys[0] in rest ==> KeysOf(keys) == KeysOf(rest);
    }
  }

  lemma {:induction false} LiveRepeatsNoMore(keys: seq<Key>, m: map<Key, Entry>)
    ensures Repeats(Live(keys, m)) <= Repeats(keys)
  {
    if keys != [] {
      LiveRepeatsNoMore(keys[1..], m);
      LiveUnfolds(keys, m);
      LiveKeys(keys[1..], m, keys[0]);
    }
  }

  // How many copies of pending keys are in order beyond one for each.
  function Surplus(t: Table): nat {
    Repeats(Live(t.order, t.entries))
  }

  // Expiry compacts if and only if what it leaves is longer than 4 * pending + 64: then no key is left that is not
  // pending, and otherwise nothing is taken out.
  lemma CompactsIffLong(limits: Limits, t: Table, now: u64)
    ensures var front, r := ExpireFront(limits, t, now).table, Expire(limits, t, now).table;
      && r.entries == front.entries
      && (|front.order| <= 4 * |front.entries| + 64 ==> r == front)
      && (|front.order| > 4 * |front.entries| + 64 ==> forall k :: k in r.order ==> k in r.entries)
  {
    hide ExpireFront;
    var front := ExpireFront(limits, t, now).table;
    forall k | k in Live(front.order, front.entries) ensures k in front.entries {
      LiveKeys(front.order, front.entries, k);
    }
  }

  lemma LiveIsPendingAndSurplus(t: Table)
    requires Tracked(t)
    ensures |Live(t.order, t.entries)| == |t.entries| + Surplus(t)
  {
    hide Live;
    var live := Live(t.order, t.entries);
    LengthIsKeysAndRepeats(live);
    forall k
      ensures k in live <==> k in t.entries
    {
      LiveKeys(t.order, t.entries, k);
    }
    assert KeysOf(live) == t.entries.Keys;
  }

  // ---------- Exactly when expire bounds the order ----------

  // For every valid table: expire leaves order within four times the pending messages and 64 if and only if, after the
  // overdue ones are gone, the surplus is at most three times the pending messages and 64.
  lemma ExpireBoundsOrderIff(limits: Limits, t: Table, now: u64)
    requires ValidTable(limits, t)
    ensures var m, r := ExpireFront(limits, t, now).table, Expire(limits, t, now).table;
      |r.order| <= 4 * |r.entries| + 64 <==> Surplus(m) <= 3 * |m.entries| + 64
  {
    hide Live, ExpireFront, Surplus;
    var m := ExpireFront(limits, t, now).table;
    ExpireFrontKeeps(limits, t, now);
    LiveIsPendingAndSurplus(m);
    LiveIsIdempotent(m.order, m.entries);
  }

  // ---------- Repetitions come from re-creations ----------

  // How often a run re-creates a key of which a stale copy is in order.
  function Recreations(limits: Limits, ops: seq<Op>): nat {
    if ops == [] then 0
    else
      var before, op := ops[..|ops| - 1], ops[|ops| - 1];
      Recreations(limits, before) + if Recreates(limits, Run(limits, EMPTY_TABLE, before), op) then 1 else 0
  }

  lemma {:induction false} EvictionRepeatsNoMore(t: Table)
    ensures Repeats(EvictOldest(t).order) <= Repeats(t.order)
    decreases |t.order|
  {
    if t.order != [] && t.order[0] !in t.entries {
      EvictionRepeatsNoMore(t.(order := t.order[1..]));
    }
  }

  lemma {:induction false} MakingRoomRepeatsNoMore(t: Table, max: nat)
    ensures Repeats(MakeRoom(t, max).order) <= Repeats(t.order)
    decreases |t.order|
  {
    hide Repeats, EvictOldest;
    if |t.entries| >= max && t.order != [] {
      EvictionShrinks(t);
      EvictionRepeatsNoMore(t);
      MakingRoomRepeatsNoMore(EvictOldest(t), max);
    }
  }

  lemma {:induction false} ExpiryRepeatsNoMore(limits: Limits, t: Table, now: u64)
    ensures Repeats(ExpireFront(limits, t, now).table.order) <= Repeats(t.order)
    decreases |t.order|
  {
    if t.order != [] {
      var k, popped := t.order[0], t.(order := t.order[1..]);
      if k !in t.entries {
        ExpiryRepeatsNoMore(limits, popped, now);
      } else if Age(now, t.entries[k]) >= limits.timeout {
        ExpiryRepeatsNoMore(limits, Remove(popped, k), now);
      }
    }
  }

  lemma StepRepeats(limits: Limits, t: Table, op: Op)
    requires ValidTable(limits, t)
    ensures Repeats(Step(limits, t, op).order) <= Repeats(t.order) + if Recreates(limits, t, op) then 1 else 0
  {
    hide Repeats, Live, MakeRoom, ExpireFront, Store;
    match op
    case AddOp(f, now) =>
      if f.header.fragmentCount != 1 && f.header.messageLength <= limits.maxMessageLength {
        var h, room := f.header, MakeRoom(t, limits.maxPending);
        WithEntryIsValid(limits, t, f, now);
        StoringKeepsAges(limits, WithEntry(limits, t, h, now), f, KeyOf(h) !in t.entries);
        MakingRoomRepeatsNoMore(t, limits.maxPending);
        RepeatsSnoc(room.order, KeyOf(h));
      }
    case ExpireOp(now) =>
      var m := ExpireFront(limits, t, now).table;
      ExpiryRepeatsNoMore(limits, t, now);
      LiveRepeatsNoMore(m.order, m.entries);
  }

  lemma {:induction false} RepeatsAreRecreations(limits: Limits, ops: seq<Op>)
    ensures Repeats(Run(limits, EMPTY_TABLE, ops).order) <= Recreations(limits, ops)
    decreases |ops|
  {
    hide Step, Recreates;
    if ops != [] {
      RepeatsAreRecreations(limits, ops[..|ops| - 1]);
      StepRepeats(limits, Run(limits, EMPTY_TABLE, ops[..|ops| - 1]), ops[|ops| - 1]);
    }
  }

  // Over every run that ends with an expiry, whatever it did before: order is within four times the pending
  // messages and 64, or it is no longer than the pending messages and the re-creations of the run. So it is
  // within the former if the run re-created at most three times the pending messages and 64.
  lemma OrderIsBounded(limits: Limits, ops: seq<Op>, now: u64)
    ensures var r := Expire(limits, Run(limits, EMPTY_TABLE, ops), now).table;
      && (|r.order| <= 4 * |r.entries| + 64 || |r.order| <= |r.entries| + Recreations(limits, ops))
      && (Recreations(limits, ops) <= 3 * |r.entries| + 64 ==> |r.order| <= 4 * |r.entries| + 64)
  {
    hide Live, ExpireFront, Repeats, Recreations;
    var t := Run(limits, EMPTY_TABLE, ops);
    var m := ExpireFront(limits, t, now).table;
    ExpireFrontKeeps(limits, t, now);
    LiveIsPendingAndSurplus(m);
    LiveRepeatsNoMore(m.order, m.entries);
    ExpiryRepeatsNoMore(limits, t, now);
    RepeatsAreRecreations(limits, ops);
  }
}
