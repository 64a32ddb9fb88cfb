/** Sequential runs of the cache: the counter, the limit, and what a hit returns. */
module CacheRuns {
  import opened Outcomes
  import opened TtlCache

  /** The states of a run from an empty cache, one more than its operations. */
  ghost predicate Trace<V(!new)>(maxItems: int, states: seq<State<V>>, ops: seq<Op<V>>) {
    && |states| == |ops| + 1
    && states[0] == State(map[], 0)
    && forall i :: 0 <= i < |ops| ==> Step(maxItems, states[i], ops[i], states[i + 1])
  }

  // ----- The counter -----

  ghost predicate Counted<V>(maxItems: int, s: State<V>) {
    s.count == |s.data| && (maxItems > 0 ==> |s.data| <= maxItems)
  }

  lemma DropCount<V>(data: map<string, Item<V>>, gone: set<string>)
    requires gone <= data.Keys
    ensures |data - gone| == |data| - |gone|
  {
    assert (data - gone).Keys == data.Keys - gone;
    assert data.Keys == (data.Keys - gone) + gone;
    assert |data| == |data.Keys| && |data - gone| == |(data - gone).Keys|;
  }

  lemma StoreCount<V>(data: map<string, Item<V>>, key: string, item: Item<V>)
    ensures |data[key := item]| == |data| + (if key in data then 0 else 1)
  {
    assert data[key := item].Keys == data.Keys + {key};
    assert |data| == |data.Keys| && |data[key := item]| == |data[key := item].Keys|;
  }

  lemma EvictionCount<V(!new)>(maxItems: int, s: State<V>, after: State<V>)
    requires maxItems > 0 && s.count == |s.data| && maxItems < |s.data| <= maxItems + 1
    requires Evicts(s, Threshold(maxItems), after)
    ensures Counted(maxItems, after)
  {
    DropCount(s.data, s.data.Keys - after.data.Keys);
  }

  lemma StoreKeepsCount<V(!new)>(maxItems: int, s: State<V>, key: string, item: Item<V>, after: State<V>)
    requires Counted(maxItems, s)
    requires var stored := Stored(s, key, item);
      if maxItems > 0 && stored.count > maxItems then Evicts(stored, Threshold(maxItems), after) else after == stored
    ensures Counted(maxItems, after)
  {
    hide Evicts;
    var stored := Stored(s, key, item);
    StoreCount(s.data, key, item);
    if maxItems > 0 && stored.count > maxItems {
      EvictionCount(maxItems, stored, after);
    }
  }

  lemma DropKeepsCount<V>(maxItems: int, s: State<V>, key: string)
    requires Counted(maxItems, s)
    ensures Counted(maxItems, Dropped(s, key))
  {
    if key in s.data {
      DropCount(s.data, {key});
    }
  }

  lemma LookupKeepsCount<V(!new)>(maxItems: int, s: State<V>, op: Op<V>, after: State<V>)
    requires Counted(maxItems, s) && op.Get? && Step(maxItems, s, op, after)
    ensures Counted(maxItems, after)
  {
    hide Dropped, Counted;
    DropKeepsCount(maxItems, s, op.key);
    assert after == s || after == Dropped(s, op.key);
  }

  lemma CleanupKeepsCount<V>(maxItems: int, s: State<V>, readings: map<string, int>)
    requires Counted(maxItems, s)
    ensures var expired := Expired(s.data, readings); Counted(maxItems, State(s.data - expired, s.count - |expired|))
  {
    DropCount(s.data, Expired(s.data, readings));
  }

  lemma ClearKeepsCount<V>(maxItems: int)
    ensures Counted<V>(maxItems, State(map[], 0))
  {}

  /** The counter is the number of entries, and the limit holds after every operation. */
  lemma StepKeepsCount<V(!new)>(maxItems: int, s: State<V>, op: Op<V>, after: State<V>)
    requires Counted(maxItems, s) && Step(maxItems, s, op, after)
    ensures Counted(maxItems, after)
  {
    hide Evicts, Stored, Dropped, Threshold, Counted, Expired;
    match op
    case Set(key, value, ttl, now) => StoreKeepsCount(maxItems, s, key, Item(value, now + ttl), after);
    case Get(key, now, result) => LookupKeepsCount(maxItems, s, op, after);
    case Delete(key) => DropKeepsCount(maxItems, s, key);
    case Clear => ClearKeepsCount<V>(maxItems);
    case Cleanup(readings) => CleanupKeepsCount(maxItems, s, readings);
  }

  lemma {:induction false} RunKeepsCount<V(!new)>(maxItems: int, states: seq<State<V>>, ops: seq<Op<V>>, n: nat)
    requires Trace(maxItems, states, ops) && n <= |ops|
    ensures Counted(maxItems, states[n])
  {
    hide Step;
    if n > 0 {
      RunKeepsCount(maxItems, states, ops, n - 1);
      StepKeepsCount(maxItems, states[n - 1], ops[n - 1], states[n]);
    }
  }

  /** A new key beyond the limit: the oldest fifth goes, and about four fifths of the limit stay. */
  lemma EvictionLeavesFourFifths<V(!new)>(maxItems: int, states: seq<State<V>>, ops: seq<Op<V>>, i: nat)
    requires maxItems > 0 && Trace(maxItems, states, ops) && i < |ops| && ops[i].Set?
    requires ops[i].key !in states[i].data && |states[i].data| == maxItems
    ensures var kept := |states[i + 1].data|; 4 * maxItems < 5 * kept <= 4 * maxItems + 9
  {
    hide Counted;
    var op := ops[i];
    RunKeepsCount(maxItems, states, ops, i);
    assert Step(maxItems, states[i], op, states[i + 1]);
    StoreCount(states[i].data, op.key, Item(op.value, op.now + op.ttl));
    EvictedRest(maxItems, states[i], op, states[i + 1]);
  }

  lemma EvictedRest<V(!new)>(maxItems: int, s: State<V>, op: Op<V>, after: State<V>)
    requires maxItems > 0 && Counted(maxItems, s) && op.Set? && Step(maxItems, s, op, after)
    requires op.key !in s.data && |s.data| == maxItems
    ensures |after.data| == maxItems + 1 - Threshold(maxItems)
  {
    var stored := Stored(s, op.key, Item(op.value, op.now + op.ttl));
    StoreCount(s.data, op.key, Item(op.value, op.now + op.ttl));
    DropCount(stored.data, stored.data.Keys - after.data.Keys);
  }

  /** Below the limit nothing is evicted. */
  lemma BelowLimitAllStay<V(!new)>(maxItems: int, states: seq<State<V>>, ops: seq<Op<V>>, i: nat)
    requires Trace(maxItems, states, ops) && i < |ops| && ops[i].Set?
    requires maxItems <= 0 || ops[i].key in states[i].data || |states[i].data| < maxItems
    ensures states[i + 1].data == states[i].data[ops[i].key := Item(ops[i].value, ops[i].now + ops[i].ttl)]
  {
    RunKeepsCount(maxItems, states, ops, i);
    assert Step(maxItems, states[i], ops[i], states[i + 1]);
  }

  // ----- What a hit returns -----

  /** Operations that end what was set under the key before. */
  predicate Touches<V>(op: Op<V>, key: string) {
    match op
    case Set(k, _, _, _) => k == key
    case Delete(k) => k == key
    case Clear => true
    case _ => false
  }

  /** The item is what operation `j` set, and nothing before operation `n` has ended it. */
  predicate SetBy<V(==)>(ops: seq<Op<V>>, n: nat, j: nat, key: string, item: Item<V>) {
    && j < n <= |ops|
    && ops[j].Set? && ops[j].key == key && Item(ops[j].value, ops[j].now + ops[j].ttl) == item
    && forall m :: j < m < n ==> !Touches(ops[m], key)
  }

  ghost predicate LastSet<V(!new)>(ops: seq<Op<V>>, n: nat, key: string, item: Item<V>) {
    exists j: nat :: SetBy(ops, n, j, key, item)
  }

  /** An entry present after an operation was set by it, or was there and not touched. */
  lemma StepProvenance<V(!new)>(maxItems: int, s: State<V>, op: Op<V>, after: State<V>, key: string)
    requires Step(maxItems, s, op, after) && key in after.data
    ensures (op.Set? && op.key == key && after.data[key] == Item(op.value, op.now + op.ttl))
         || (key in s.data && s.data[key] == after.data[key] && !Touches(op, key))
  {}

  lemma {:induction false} EntriesAreLastSet<V(!new)>(maxItems: int, states: seq<State<V>>, ops: seq<Op<V>>, n: nat,
                                                      key: string)
    requires Trace(maxItems, states, ops) && n <= |ops| && key in states[n].data
    ensures LastSet(ops, n, key, states[n].data[key])
  {
    hide Step;
    if n > 0 {
      var item := states[n].data[key];
      StepProvenance(maxItems, states[n - 1], ops[n - 1], states[n], key);
      if ops[n - 1].Set? && ops[n - 1].key == key && item == Item(ops[n - 1].value, ops[n - 1].now + ops[n - 1].ttl) {
        assert SetBy(ops, n, n - 1, key, item);
      } else {
        EntriesAreLastSet(maxItems, states, ops, n - 1, key);
        var j: nat :| SetBy(ops, n - 1, j, key, item);
        assert SetBy(ops, n, j, key, item);
      }
    }
  }

  /** A hit returns what was last set under the key, neither deleted nor cleared since, and not yet expired. */
  lemma HitIsLastSet<V(!new)>(maxItems: int, states: seq<State<V>>, ops: seq<Op<V>>, i: nat)
    requires Trace(maxItems, states, ops) && i < |ops| && ops[i].Get? && ops[i].result.Some?
    ensures exists item ::
      LastSet(ops, i, ops[i].key, item) && item.value == ops[i].result.value && ops[i].now <= item.expiration
  {
    assert Step(maxItems, states[i], ops[i], states[i + 1]);
    EntriesAreLastSet(maxItems, states, ops, i, ops[i].key);
    assert LastSet(ops, i, ops[i].key, states[i].data[ops[i].key]);
  }

  // ----- When a lookup hits -----

  /** The operation reads this instant from the clock. */
  predicate Reads<V>(op: Op<V>, t: int) {
    match op
    case Set(_, _, _, now) => t == now
    case Get(_, now, _) => t == now
    case Cleanup(readings) => t in readings.Values
    case _ => false
  }

  /** The clock does not run backwards from one operation to a later one. */
  ghost predicate Monotone<V(!new)>(ops: seq<Op<V>>) {
    forall i, j, t, u :: 0 <= i < j < |ops| && Reads(ops[i], t) && Reads(ops[j], u) ==> t <= u
  }

  /** The operation reads nothing behind the instant. */
  ghost predicate ReadsBy<V(!new)>(op: Op<V>, end: int) {
    forall t :: Reads(op, t) ==> t <= end
  }

  lemma StepRetains<V(!new)>(maxItems: int, s: State<V>, op: Op<V>, after: State<V>, key: string)
    requires maxItems <= 0 && Step(maxItems, s, op, after)
    requires key in s.data && !Touches(op, key) && ReadsBy(op, s.data[key].expiration)
    ensures key in after.data && after.data[key] == s.data[key]
  {
    if op.Cleanup? {
      assert op.readings[key] in op.readings.Values;
      assert Reads(op, op.readings[key]);
    } else if op.Get? {
      assert Reads(op, op.now);
    }
  }

  /** Without a limit, what was last set and has not expired is still there. */
  lemma {:induction false} LastSetIsKept<V(!new)>(maxItems: int, states: seq<State<V>>, ops: seq<Op<V>>, n: nat, j: nat,
                                                  key: string, item: Item<V>)
    requires maxItems <= 0 && Trace(maxItems, states, ops) && SetBy(ops, n, j, key, item)
    requires forall m :: j < m < n ==> ReadsBy(ops[m], item.expiration)
    ensures key in states[n].data && states[n].data[key] == item
    decreases n
  {
    assert Step(maxItems, states[n - 1], ops[n - 1], states[n]);
    if j < n - 1 {
      LastSetIsKept(maxItems, states, ops, n - 1, j, key, item);
      StepRetains(maxItems, states[n - 1], ops[n - 1], states[n], key);
    }
  }

  /** Without a limit and with a monotone clock, a lookup hits if and only if something set
      under the key is neither deleted, cleared nor expired. */
  lemma UnlimitedHitIff<V(!new)>(maxItems: int, states: seq<State<V>>, ops: seq<Op<V>>, i: nat, v: V)
    requires maxItems <= 0 && Trace(maxItems, states, ops) && Monotone(ops) && i < |ops| && ops[i].Get?
    ensures ops[i].result == Some(v) <==>
      exists item :: LastSet(ops, i, ops[i].key, item) && item.value == v && ops[i].now <= item.expiration
  {
    hide Step;
    if ops[i].result == Some(v) {
      HitIsLastSet(maxItems, states, ops, i);
    }
    if item :| LastSet(ops, i, ops[i].key, item) && item.value == v && ops[i].now <= item.expiration {
      var j: nat :| SetBy(ops, i, j, ops[i].key, item);
      assert Reads(ops[i], ops[i].now);
      LastSetIsKept(maxItems, states, ops, i, j, ops[i].key, item);
      LookupOf(maxItems, states[i], ops[i], states[i + 1]);
    }
  }

  lemma LookupOf<V(!new)>(maxItems: int, s: State<V>, op: Op<V>, after: State<V>)
    requires Step(maxItems, s, op, after) && op.Get? && op.key in s.data && op.now <= s.data[op.key].expiration
    ensures op.result == Some(s.data[op.key].value)
  {}
}
