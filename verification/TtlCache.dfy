/** The in-memory cache: entries expire, and the oldest are evicted beyond a limit. */
module TtlCache {
  import opened Outcomes

  /** A cached value; `expiration` is the last instant at which it is served. */
  datatype Item<V> = Item(value: V, expiration: int)

  /** The entries, and the counter that is kept beside them. */
  datatype State<V> = State(data: map<string, Item<V>>, count: int)

  /** The operations with the instants they read, and what a lookup returned;
      a cleanup reads the clock anew for every entry. */
  datatype Op<V> =
    | Set(key: string, value: V, ttl: int, now: int)
    | Get(key: string, now: int, result: Option<V>)
    | Delete(key: string)
    | Clear
    | Cleanup(readings: map<string, int>)

  // ----- What an operation may do -----

  /** How many entries an eviction takes: a fifth of the limit, and at least one. */
  function Threshold(maxItems: int): (n: int)
    ensures n > 0 && (maxItems >= 5 ==> maxItems - 5 < 5 * n <= maxItems) && (maxItems < 5 ==> n == 1)
  {
    if maxItems / 5 > 1 then maxItems / 5 else 1
  }

  function Stored<V>(s: State<V>, key: string, item: Item<V>): State<V> {
    State(s.data[key := item], if key in s.data then s.count else s.count + 1)
  }

  function Dropped<V>(s: State<V>, key: string): State<V> {
    if key in s.data then State(s.data - {key}, s.count - 1) else s
  }

  /** The entries that are expired at the instant read for them. */
  function Expired<V>(data: map<string, Item<V>>, readings: map<string, int>): set<string> {
    set key | key in data && key in readings && readings[key] > data[key].expiration
  }

  /** `n` entries are gone (all, if there are fewer), none of which outlives an entry that stayed. */
  ghost predicate Evicts<V(!new)>(s: State<V>, n: int, after: State<V>) {
    var gone := s.data.Keys - after.data.Keys;
    && after.data == s.data - gone
    && |gone| == (if n < |s.data| then n else |s.data|)
    && after.count == s.count - |gone|
    && forall g, k :: g in gone && k in after.data ==> s.data[g].expiration <= s.data[k].expiration
  }

  ghost predicate Step<V(!new)>(maxItems: int, s: State<V>, op: Op<V>, after: State<V>) {
    match op
    case Set(key, value, ttl, now) =>
      var stored := Stored(s, key, Item(value, now + ttl));
      if maxItems > 0 && stored.count > maxItems then Evicts(stored, Threshold(maxItems), after)
      else after == stored
    case Get(key, now, result) =>
      if key !in s.data then result == None && after == s
      else if now > s.data[key].expiration then result == None && after == Dropped(s, key)
      else result == Some(s.data[key].value) && after == s
    case Delete(key) => after == Dropped(s, key)
    case Clear => after == State(map[], 0)
    case Cleanup(readings) =>
      var expired := Expired(s.data, readings);
      s.data.Keys <= readings.Keys && after == State(s.data - expired, s.count - |expired|)
  }

  // ----- The cache -----

  datatype Candidate = Candidate(key: string, expiration: int)

  class Cache<V(!new)> {
    const maxItems: int
    const defaultTtl: int
    var data: map<string, Item<V>>
    var itemCount: int

    ghost function View(): State<V>
      reads this
    {
      State(data, itemCount)
    }

    constructor (maxItems: int, defaultTtl: int)
      ensures this.maxItems == maxItems && this.defaultTtl == defaultTtl && View() == State(map[], 0)
    {
      this.maxItems, this.defaultTtl := maxItems, defaultTtl;
      data, itemCount := map[], 0;
    }

    method SetDefault(key: string, value: V, now: int)
      modifies this
      ensures Step(maxItems, old(View()), Set(key, value, defaultTtl, now), View())
    {
      SetWithTtl(key, value, defaultTtl, now);
    }

    method SetWithTtl(key: string, value: V, ttl: int, now: int)
      modifies this
      ensures Step(maxItems, old(View()), Set(key, value, ttl, now), View())
    {
      hide Evicts;
      StoredAnew(data, key, Item(value, now + ttl));
      if key in data {
        data := data - {key};
      } else {
        itemCount := itemCount + 1;
      }
      data := data[key := Item(value, now + ttl)];
      assert View() == Stored(old(View()), key, Item(value, now + ttl));
      if maxItems > 0 && itemCount > maxItems {
        CleanupOldest();
      }
    }

    method Lookup(key: string, now: int) returns (result: Option<V>)
      modifies this
      ensures Step(maxItems, old(View()), Get(key, now, result), View())
    {
      if key !in data {
        return None;
      }
      var item := data[key];
      if now > item.expiration {
        data := data - {key};
        itemCount := itemCount - 1;
        return None;
      }
      return Some(item.value);
    }

    method Remove(key: string)
      modifies this
      ensures Step(maxItems, old(View()), Delete(key), View())
    {
      if key in data {
        data := data - {key};
        itemCount := itemCount - 1;
      }
    }

    method RemoveAll()
      modifies this
      ensures Step(maxItems, old(View()), Clear, View())
    {
      var rest := data.Keys;
      while rest != {}
        invariant rest == data.Keys
        decreases |rest|
      {
        var key :| key in rest;
        data := data - {key};
        rest := rest - {key};
      }
      assert data == map[];
      itemCount := 0;
    }

    method RemoveExpired(readings: map<string, int>)
      requires data.Keys <= readings.Keys
      modifies this
      ensures Step(maxItems, old(View()), Cleanup(readings), View())
    {
      hide Step;
      ghost var before := View();
      var rest, count := data.Keys, 0;
      while rest != {}
        invariant rest <= before.data.Keys && Swept(before.data, rest, readings, data, count)
        invariant itemCount == before.count
        decreases |rest|
      {
        var key :| key in rest;
        SweptMore(before.data, rest, readings, data, count, key);
        if readings[key] > data[key].expiration {
          data := data - {key};
          count := count + 1;
        }
        rest := rest - {key};
      }
      if count > 0 {
        itemCount := itemCount - count;
      }
      SweptAll(maxItems, before, readings, data, count);
    }

    method CleanupOldest()
      requires maxItems > 0 && itemCount > maxItems
      modifies this
      ensures Evicts(old(View()), Threshold(maxItems), View())
    {
      hide Evicts, Oldest, KeysOf, Threshold;
      var threshold := Threshold(maxItems);
      NoneOldest(data, threshold);
      var candidates: seq<Candidate> := [];
      var rest := data.Keys;
      assert data.Keys - rest == {};
      while rest != {}
        invariant rest <= data.Keys && Oldest(data, data.Keys - rest, candidates, threshold)
        invariant data == old(data) && itemCount == old(itemCount)
        decreases |rest|
      {
        var key :| key in rest;
        candidates := Considered(data, data.Keys - rest, candidates, threshold, key);
        assert data.Keys - rest + {key} == data.Keys - (rest - {key});
        rest := rest - {key};
      }
      assert data.Keys - rest == data.Keys;
      EvictsOldest(View(), candidates, threshold);
      RemoveCandidates(candidates);
    }

    method RemoveCandidates(candidates: seq<Candidate>)
      modifies this
      ensures View() == State(old(data) - KeysOf(candidates), old(itemCount) - |candidates|)
    {
      var deletedCount := 0;
      for i := 0 to |candidates|
        invariant data == old(data) - KeysOf(candidates[..i])
        invariant itemCount == old(itemCount) && deletedCount == i
      {
        assert candidates[..i + 1] == candidates[..i] + [candidates[i]];
        KeysAppended(candidates[..i], candidates[i]);
        data := data - {candidates[i].key};
        deletedCount := deletedCount + 1;
      }
      assert candidates[..|candidates|] == candidates;
      if deletedCount > 0 {
        itemCount := itemCount - deletedCount;
      }
    }

    /** One entry is seen: it joins the candidates, or takes the place of the newest of them. */
    static method Considered(data: map<string, Item<V>>, ghost seen: set<string>, candidates: seq<Candidate>,
                             threshold: int, key: string) returns (next: seq<Candidate>)
      requires threshold > 0 && key in data && key !in seen && seen <= data.Keys
      requires Oldest(data, seen, candidates, threshold)
      ensures Oldest(data, seen + {key}, next, threshold)
    {
      var item := data[key];
      if |candidates| < threshold {
        KeysAppended(candidates, Candidate(key, item.expiration));
        return candidates + [Candidate(key, item.expiration)];
      }
      var newest := 0;
      for i := 1 to |candidates|
        invariant 0 <= newest < |candidates|
        invariant forall k :: 0 <= k < i ==> candidates[k].expiration <= candidates[newest].expiration
      {
        if candidates[i].expiration > candidates[newest].expiration {
          newest := i;
        }
      }
      next := candidates;
      if item.expiration < candidates[newest].expiration {
        KeysReplaced(candidates, newest, Candidate(key, item.expiration));
        next := candidates[newest := Candidate(key, item.expiration)];
      }
    }
  }

  lemma StoredAnew<V>(data: map<string, Item<V>>, key: string, item: Item<V>)
    ensures (data - {key})[key := item] == data[key := item]
  {}

  /** All entries but the `rest` have been looked at, and `count` of them were expired and are gone. */
  ghost predicate Swept<V>(before: map<string, Item<V>>, rest: set<string>, readings: map<string, int>,
                           data: map<string, Item<V>>, count: int)
  {
    var gone := Expired(before, readings) - rest;
    data == before - gone && count == |gone|
  }

  lemma SweptMore<V>(before: map<string, Item<V>>, rest: set<string>, readings: map<string, int>,
                     data: map<string, Item<V>>, count: int, key: string)
    requires key in rest && rest <= before.Keys <= readings.Keys && Swept(before, rest, readings, data, count)
    ensures key in data && data[key] == before[key]
    ensures if readings[key] > before[key].expiration then Swept(before, rest - {key}, readings, data - {key}, count + 1)
            else Swept(before, rest - {key}, readings, data, count)
  {
    var gone := Expired(before, readings) - rest;
    if readings[key] > before[key].expiration {
      assert Expired(before, readings) - (rest - {key}) == gone + {key};
      assert before - gone - {key} == before - (gone + {key});
    } else {
      assert Expired(before, readings) - (rest - {key}) == gone;
    }
  }

  lemma SweptAll<V(!new)>(maxItems: int, before: State<V>, readings: map<string, int>, data: map<string, Item<V>>,
                          count: int)
    requires before.data.Keys <= readings.Keys && Swept(before.data, {}, readings, data, count)
    ensures Step(maxItems, before, Cleanup(readings), State(data, before.count - count))
  {
    assert Expired(before.data, readings) - {} == Expired(before.data, readings);
  }

  ghost function KeysOf(candidates: seq<Candidate>): set<string> {
    set i | 0 <= i < |candidates| :: candidates[i].key
  }

  predicate Distinct(candidates: seq<Candidate>) {
    forall i, j :: 0 <= i < j < |candidates| ==> candidates[i].key != candidates[j].key
  }

  /** The candidates are distinct seen entries, as many as fit, and no other seen entry expires before one of them. */
  ghost predicate Oldest<V>(data: map<string, Item<V>>, seen: set<string>, candidates: seq<Candidate>, threshold: int)
    requires seen <= data.Keys
  {
    && (forall i :: 0 <= i < |candidates| ==> candidates[i].key in seen)
    && (forall i :: 0 <= i < |candidates| ==> candidates[i].expiration == data[candidates[i].key].expiration)
    && Distinct(candidates)
    && (forall i, k :: 0 <= i < |candidates| && k in seen && k !in KeysOf(candidates) ==>
      candidates[i].expiration <= data[k].expiration)
    && |candidates| <= threshold
    && (|candidates| < threshold ==> KeysOf(candidates) == seen)
  }

  lemma NoneOldest<V>(data: map<string, Item<V>>, threshold: int)
    requires threshold > 0
    ensures Oldest(data, {}, [], threshold)
  {}

  /** Without the oldest entries an eviction is complete. */
  lemma EvictsOldest<V(!new)>(s: State<V>, candidates: seq<Candidate>, threshold: int)
    requires threshold > 0 && Oldest(s.data, s.data.Keys, candidates, threshold)
    ensures Evicts(s, threshold, State(s.data - KeysOf(candidates), s.count - |candidates|))
  {
    var keys := KeysOf(candidates);
    DistinctCount(candidates);
    SubsetCount(keys, s.data.Keys);
    assert |s.data| == |s.data.Keys|;
    OldestGone(s, candidates, threshold, keys);
  }

  lemma OldestGone<V(!new)>(s: State<V>, candidates: seq<Candidate>, threshold: int, keys: set<string>)
    requires threshold > 0 && Oldest(s.data, s.data.Keys, candidates, threshold)
    requires keys == KeysOf(candidates) && keys <= s.data.Keys && |keys| == |candidates| <= |s.data|
    ensures Evicts(s, threshold, State(s.data - keys, s.count - |candidates|))
  {
    hide KeysOf;
    var after := s.data - keys;
    assert s.data.Keys - after.Keys == keys;
    assert |candidates| < threshold ==> keys == s.data.Keys && |s.data| == |s.data.Keys|;
    forall g, k | g in keys && k in after ensures s.data[g].expiration <= s.data[k].expiration {
      OldestBefore(s.data, candidates, threshold, g, k);
    }
  }

  lemma OldestBefore<V>(data: map<string, Item<V>>, candidates: seq<Candidate>, threshold: int, g: string, k: string)
    requires Oldest(data, data.Keys, candidates, threshold)
    requires g in KeysOf(candidates) && k in data && k !in KeysOf(candidates)
    ensures g in data && data[g].expiration <= data[k].expiration
  {
    var i :| 0 <= i < |candidates| && candidates[i].key == g;
  }

  lemma {:induction false} SubsetCount(a: set<string>, b: set<string>)
    requires a <= b
    ensures |a| <= |b|
  {
    assert |b - a| + |a| == |b - a + a| && b - a + a == b;
  }

  lemma KeysAppended(candidates: seq<Candidate>, c: Candidate)
    ensures KeysOf(candidates + [c]) == KeysOf(candidates) + {c.key}
  {
    var all := candidates + [c];
    assert forall i :: 0 <= i < |candidates| ==> all[i] == candidates[i];
    assert all[|candidates|] == c;
  }

  lemma KeysReplaced(candidates: seq<Candidate>, i: nat, c: Candidate)
    requires i < |candidates| && Distinct(candidates)
    ensures KeysOf(candidates[i := c]) == KeysOf(candidates) - {candidates[i].key} + {c.key}
  {
    var all := candidates[i := c];
    assert all[i] == c;
    assert forall j :: 0 <= j < |candidates| && j != i ==> all[j] == candidates[j];
  }

  lemma {:induction false} DistinctCount(candidates: seq<Candidate>)
    requires Distinct(candidates)
    ensures |KeysOf(candidates)| == |candidates|
    decreases |candidates|
  {
    if candidates != [] {
      var init, last := candidates[..|candidates| - 1], candidates[|candidates| - 1];
      assert candidates == init + [last];
      KeysAppended(init, last);
      DistinctCount(init);
    }
  }
}
