/** The cache of storage drivers: lookups, slow constructions and resets interleave under a short lock. */
module DriverCache {
  import opened Outcomes
  import opened StorageModel

  /** The fingerprint of a configuration; none where it cannot be serialized. */
  type Fingerprint<!Key> = Storage -> Option<Key>

  /** A driver, remembered by the call that built it and the configuration it was built from. */
  datatype Driver = Driver(builder: nat, config: Storage)

  /** The generation is an unsigned 64-bit counter. */
  const GENERATIONS: nat := 0x1_0000_0000_0000_0000

  /** What the lock protects. */
  datatype Shared<Key> = Shared(generation: nat, cache: map<Key, Driver>)

  // ----- The three critical sections -----

  function Cached<Key>(s: Shared<Key>, key: Key): Option<Driver> {
    if key in s.cache then Some(s.cache[key]) else None
  }

  /** The second critical section: what the caller gets, and what is then cached. */
  function Published<Key>(s: Shared<Key>, key: Key, seen: nat, built: Driver): (Driver, Shared<Key>) {
    if key in s.cache then (s.cache[key], s)
    else if seen != s.generation then (built, s)
    else (built, s.(cache := s.cache[key := built]))
  }

  function Reset<Key>(s: Shared<Key>): Shared<Key> {
    Shared((s.generation + 1) % GENERATIONS, map[])
  }

  class StorageDriverCache<Key(==)> {
    var generation: nat
    var cache: map<Key, Driver>

    ghost function View(): Shared<Key>
      reads this
    {
      Shared(generation, cache)
    }

    constructor ()
      ensures View() == Shared(0, map[])
    {
      generation := 0;
      cache := map[];
    }

    /** The first critical section: read the generation and look for a driver. */
    method Lookup(key: Key) returns (driver: Option<Driver>, seen: nat)
      ensures driver == Cached(View(), key) && seen == generation
    {
      seen := generation;
      if key in cache {
        return Some(cache[key]), seen;
      }
      return None, seen;
    }

    method Publish(key: Key, seen: nat, built: Driver) returns (driver: Driver)
      modifies this
      ensures (driver, View()) == Published(old(View()), key, seen, built)
    {
      if key in cache {
        return cache[key];
      }
      if seen != generation {
        return built;
      }
      cache := cache[key := built];
      return built;
    }

    method ResetAll()
      modifies this
      ensures View() == Reset(old(View()))
    {
      generation := (generation + 1) % GENERATIONS;
      cache := map[];
    }
  }

  // ----- Runs -----

  /** A request for a driver; `at` counts the resets before its lookup. */
  datatype Call<Key> =
    | Looking(config: Storage, key: Key)
    | Missed(config: Storage, key: Key, seen: nat, at: nat)
    | Built(config: Storage, key: Key, seen: nat, at: nat, driver: Driver)
    | Returned(config: Storage, key: Key, at: nat, driver: Driver)
    | Uncached(config: Storage)
    | ReturnedUncached(config: Storage, driver: Driver)
    | Failed(config: Storage)

  datatype World<Key> = World(shared: Shared<Key>, calls: seq<Call<Key>>, resets: nat)

  /** What may happen next: a request arrives, a call takes its next step, or the setting changes. */
  datatype Action =
    | Request(config: Storage)
    | TakeLookup(call: nat)
    | Construct(call: nat, succeeds: bool)
    | Publish(call: nat)
    | ResetCache

  function Arrive<Key>(f: Fingerprint<Key>, config: Storage): Call<Key> {
    if config.NoStorage? || config.id == "" then Uncached(config)
    else match f(config)
      case None => Failed(config)
      case Some(key) => Looking(config, key)
  }

  function LookedUp<Key>(w: World<Key>, c: Call<Key>): Call<Key>
    requires c.Looking?
  {
    match Cached(w.shared, c.key)
    case Some(driver) => Returned(c.config, c.key, w.resets, driver)
    case None => Missed(c.config, c.key, w.shared.generation, w.resets)
  }

  function Constructed<Key>(c: Call<Key>, i: nat, succeeds: bool): Call<Key>
    requires c.Missed? || c.Uncached?
  {
    if !succeeds then Failed(c.config)
    else if c.Missed? then Built(c.config, c.key, c.seen, c.at, Driver(i, c.config))
    else ReturnedUncached(c.config, Driver(i, c.config))
  }

  /** An action that is not possible leaves the world unchanged. */
  function Step<Key>(f: Fingerprint<Key>, w: World<Key>, a: Action): World<Key> {
    match a
    case Request(config) => w.(calls := w.calls + [Arrive(f, config)])
    case TakeLookup(i) =>
      if i < |w.calls| && w.calls[i].Looking?
      then w.(calls := w.calls[i := LookedUp(w, w.calls[i])]) else w
    case Construct(i, succeeds) =>
      if i < |w.calls| && (w.calls[i].Missed? || w.calls[i].Uncached?)
      then w.(calls := w.calls[i := Constructed(w.calls[i], i, succeeds)]) else w
    case Publish(i) =>
      if i < |w.calls| && w.calls[i].Built? then
        var c := w.calls[i];
        var (driver, shared) := Published(w.shared, c.key, c.seen, c.driver);
        w.(shared := shared, calls := w.calls[i := Returned(c.config, c.key, c.at, driver)])
      else w
    case ResetCache => w.(shared := Reset(w.shared), resets := w.resets + 1)
  }

  function Run<Key>(f: Fingerprint<Key>, w: World<Key>, actions: seq<Action>): World<Key>
    decreases |actions|
  {
    if actions == [] then w else Run(f, Step(f, w, actions[0]), actions[1..])
  }

  function Start<Key>(): World<Key> {
    World(Shared(0, map[]), [], 0)
  }

  // ----- What every interleaving keeps -----

  predicate SameGeneration(a: nat, b: nat) {
    a % GENERATIONS == b % GENERATIONS
  }

  /** The driver was built by a call for `key` that missed after `at` resets. */
  predicate BuiltAt<Key>(w: World<Key>, d: Driver, key: Key, at: nat) {
    && d.builder < |w.calls|
    && var c := w.calls[d.builder];
    && (c.Built? || c.Returned?)
    && c.key == key && c.at == at && c.config == d.config
  }

  /** A driver whose miss came after `missed` resets may serve a lookup made after `at` of them. */
  ghost predicate ServesFrom(missed: nat, at: nat, resets: nat) {
    && missed <= resets
    && exists now: nat :: at <= now <= resets && SameGeneration(missed, now)
  }

  /** The call is consistent with its history; a driver it returned was built by a miss
      no earlier than its own lookup, up to wrap-around of the generation. */
  ghost predicate CallSound<Key>(f: Fingerprint<Key>, w: World<Key>, i: nat)
    requires i < |w.calls|
  {
    match w.calls[i]
    case Looking(config, key) => f(config) == Some(key)
    case Missed(config, key, seen, at) =>
      f(config) == Some(key) && at <= w.resets && seen == at % GENERATIONS
    case Built(config, key, seen, at, driver) =>
      f(config) == Some(key) && at <= w.resets && seen == at % GENERATIONS && driver == Driver(i, config)
    case Returned(config, key, at, driver) =>
      && f(config) == Some(key) && at <= w.resets && f(driver.config) == Some(key)
      && exists missed: nat :: BuiltAt(w, driver, key, missed) && ServesFrom(missed, at, w.resets)
    case ReturnedUncached(config, driver) => driver == Driver(i, config)
    case Uncached(_) => true
    case Failed(_) => true
  }

  /** Every cached driver was built by a call that missed in the current generation,
      and sits under the fingerprint of the configuration it was built from. */
  ghost predicate EntrySound<Key>(f: Fingerprint<Key>, w: World<Key>, key: Key)
    requires key in w.shared.cache
  {
    var d := w.shared.cache[key];
    && f(d.config) == Some(key)
    && exists missed: nat :: BuiltAt(w, d, key, missed) && missed <= w.resets && SameGeneration(missed, w.resets)
  }

  ghost predicate Sound<Key(!new)>(f: Fingerprint<Key>, w: World<Key>) {
    && w.shared.generation == w.resets % GENERATIONS
    && (forall i: nat :: i < |w.calls| ==> CallSound(f, w, i))
    && (forall key :: key in w.shared.cache ==> EntrySound(f, w, key))
  }

  /** Nothing a call has built is ever re-attributed. */
  lemma BuiltAtKept<Key>(f: Fingerprint<Key>, w: World<Key>, a: Action, d: Driver, key: Key, at: nat)
    requires BuiltAt(w, d, key, at)
    ensures BuiltAt(Step(f, w, a), d, key, at)
  {}

  lemma ServesLonger(missed: nat, at: nat, resets: nat, later: nat)
    requires ServesFrom(missed, at, resets) && resets <= later
    ensures ServesFrom(missed, at, later)
  {
    var now: nat :| at <= now <= resets && SameGeneration(missed, now);
    assert at <= now <= later;
  }

  lemma CallKept<Key>(f: Fingerprint<Key>, w: World<Key>, a: Action, i: nat)
    requires i < |w.calls| && CallSound(f, w, i)
    requires Step(f, w, a).calls[i] == w.calls[i]
    ensures CallSound(f, Step(f, w, a), i)
  {
    if w.calls[i].Returned? {
      var c := w.calls[i];
      var missed: nat :| BuiltAt(w, c.driver, c.key, missed) && ServesFrom(missed, c.at, w.resets);
      ServesLonger(missed, c.at, w.resets, Step(f, w, a).resets);
      BuiltAtKept(f, w, a, c.driver, c.key, missed);
    }
  }

  lemma EntryKept<Key>(f: Fingerprint<Key>, w: World<Key>, a: Action, key: Key)
    requires key in w.shared.cache && EntrySound(f, w, key) && !a.ResetCache?
    requires var after := Step(f, w, a).shared.cache; key in after && after[key] == w.shared.cache[key]
    ensures EntrySound(f, Step(f, w, a), key)
  {
    var d := w.shared.cache[key];
    var missed: nat :| BuiltAt(w, d, key, missed) && missed <= w.resets && SameGeneration(missed, w.resets);
    BuiltAtKept(f, w, a, d, key, missed);
  }

  lemma LookupKeeps<Key(!new)>(f: Fingerprint<Key>, w: World<Key>, i: nat)
    requires Sound(f, w) && i < |w.calls| && w.calls[i].Looking?
    ensures CallSound(f, Step(f, w, TakeLookup(i)), i)
  {
    var c := w.calls[i];
    assert CallSound(f, w, i);
    if c.key in w.shared.cache {
      assert EntrySound(f, w, c.key);
      var d := w.shared.cache[c.key];
      var missed: nat :| BuiltAt(w, d, c.key, missed) && missed <= w.resets && SameGeneration(missed, w.resets);
      BuiltAtKept(f, w, TakeLookup(i), d, c.key, missed);
      assert ServesFrom(missed, w.resets, w.resets);
    }
  }

  lemma PublishKeeps<Key(!new)>(f: Fingerprint<Key>, w: World<Key>, i: nat)
    requires Sound(f, w) && i < |w.calls| && w.calls[i].Built?
    ensures var next := Step(f, w, Publish(i));
      && CallSound(f, next, i)
      && forall key :: key in next.shared.cache ==> EntrySound(f, next, key)
  {
    var c := w.calls[i];
    var next := Step(f, w, Publish(i));
    assert CallSound(f, w, i);
    if c.key in w.shared.cache {
      assert EntrySound(f, w, c.key);
      var d := w.shared.cache[c.key];
      var missed: nat :| BuiltAt(w, d, c.key, missed) && missed <= w.resets && SameGeneration(missed, w.resets);
      BuiltAtKept(f, w, Publish(i), d, c.key, missed);
      assert c.at <= w.resets <= w.resets && SameGeneration(missed, w.resets);
      assert ServesFrom(missed, c.at, w.resets);
    } else {
      BuiltAtKept(f, w, Publish(i), c.driver, c.key, c.at);
      assert SameGeneration(c.at, c.at);
      assert ServesFrom(c.at, c.at, w.resets);
    }
    forall key | key in next.shared.cache ensures EntrySound(f, next, key) {
      if key in w.shared.cache {
        EntryKept(f, w, Publish(i), key);
      } else {
        assert BuiltAt(next, c.driver, c.key, c.at);
      }
    }
  }

  lemma StepKeeps<Key(!new)>(f: Fingerprint<Key>, w: World<Key>, a: Action)
    requires Sound(f, w)
    ensures Sound(f, Step(f, w, a))
  {
    var next := Step(f, w, a);
    if a.TakeLookup? && next != w {
      LookupKeeps(f, w, a.call);
    } else if a.Publish? && next != w {
      PublishKeeps(f, w, a.call);
    }
    forall i: nat | i < |next.calls| ensures CallSound(f, next, i) {
      if i < |w.calls| {
        assert CallSound(f, w, i);
        if next.calls[i] == w.calls[i] {
          CallKept(f, w, a, i);
        }
      }
    }
    forall key | key in next.shared.cache ensures EntrySound(f, next, key) {
      if !a.Publish? {
        EntryKept(f, w, a, key);
      }
    }
  }

  /** The invariant of every interleaving of lookups, constructions, publications and resets. */
  lemma {:induction false} RunIsSound<Key(!new)>(f: Fingerprint<Key>, w: World<Key>, actions: seq<Action>)
    requires Sound(f, w)
    ensures Sound(f, Run(f, w, actions))
    decreases |actions|
  {
    if actions != [] {
      StepKeeps(f, w, actions[0]);
      RunIsSound(f, Step(f, w, actions[0]), actions[1..]);
    }
  }

  /** In every interleaving, what is cached was built under its own fingerprint by a call that missed
      in the current generation. */
  lemma CachedIsCurrent<Key(!new)>(f: Fingerprint<Key>, actions: seq<Action>, key: Key)
    requires key in Run(f, Start(), actions).shared.cache
    ensures var w := Run(f, Start(), actions);
      var d := w.shared.cache[key];
      && f(d.config) == Some(key)
      && exists missed: nat :: BuiltAt(w, d, key, missed) && missed <= w.resets && SameGeneration(missed, w.resets)
  {
    RunIsSound<Key>(f, Start(), actions);
    assert EntrySound(f, Run(f, Start(), actions), key);
  }

  lemma SameGenerationIsSame(a: nat, b: nat, resets: nat)
    requires a <= resets < GENERATIONS && b <= resets && SameGeneration(a, b)
    ensures a == b
  {}

  /** Up to 2^64 resets, a driver handed out was built by a call that missed no earlier than
      the lookup of the caller: a setting changed before a request never serves that request. */
  lemma ServedIsFresh<Key(!new)>(f: Fingerprint<Key>, actions: seq<Action>, i: nat)
    requires var w := Run(f, Start(), actions);
      w.resets < 0x1_0000_0000_0000_0000 && i < |w.calls| && w.calls[i].Returned?
    ensures var w := Run(f, Start(), actions);
      var c := w.calls[i];
      && f(c.driver.config) == f(c.config) == Some(c.key)
      && exists missed: nat :: BuiltAt(w, c.driver, c.key, missed) && c.at <= missed <= w.resets
  {
    RunIsSound<Key>(f, Start(), actions);
    var w := Run(f, Start(), actions);
    assert CallSound(f, w, i);
    var c := w.calls[i];
    var missed: nat :| BuiltAt(w, c.driver, c.key, missed) && ServesFrom(missed, c.at, w.resets);
    var now: nat :| c.at <= now <= w.resets && SameGeneration(missed, now);
    SameGenerationIsSame(missed, now, w.resets);
  }

  // ----- What one call comes to -----

  /** A request for a cached key is served from the cache, without a construction. */
  lemma HitIsServed<Key>(f: Fingerprint<Key>, w: World<Key>, config: Storage, key: Key)
    requires config.Storage? && config.id != "" && f(config) == Some(key) && key in w.shared.cache
    ensures var i := |w.calls|;
      var after := Run(f, w, [Request(config), TakeLookup(i)]);
      && after.shared == w.shared && |after.calls| == i + 1
      && after.calls[i].Returned? && after.calls[i].driver == w.shared.cache[key]
  {
    var i := |w.calls|;
    assert [Request(config), TakeLookup(i)][1..] == [TakeLookup(i)];
    assert Run(f, Step(f, w, Request(config)), [TakeLookup(i)]) == Step(f, Step(f, w, Request(config)), TakeLookup(i));
  }

  /** An undisturbed call for another key builds the driver, caches it and is served with it; if the
      construction fails, so does the call, and nothing is cached. */
  lemma MissIsBuilt<Key>(f: Fingerprint<Key>, w: World<Key>, config: Storage, key: Key, succeeds: bool)
    requires config.Storage? && config.id != "" && f(config) == Some(key) && key !in w.shared.cache
    ensures var i := |w.calls|;
      var after := Run(f, w, [Request(config), TakeLookup(i), Construct(i, succeeds), Publish(i)]);
      |after.calls| == i + 1 &&
      if succeeds then
        && after.shared == w.shared.(cache := w.shared.cache[key := Driver(i, config)])
        && after.calls[i].Returned? && after.calls[i].driver == Driver(i, config)
      else after.shared == w.shared && after.calls[i] == Failed(config)
  {
    var i := |w.calls|;
    var w1 := Step(f, w, Request(config));
    var w2 := Step(f, w1, TakeLookup(i));
    var w3 := Step(f, w2, Construct(i, succeeds));
    var all := [Request(config), TakeLookup(i), Construct(i, succeeds), Publish(i)];
    assert all[1..] == [TakeLookup(i), Construct(i, succeeds), Publish(i)];
    assert all[1..][1..] == [Construct(i, succeeds), Publish(i)];
    assert all[1..][1..][1..] == [Publish(i)];
    assert Run(f, w3, [Publish(i)]) == Step(f, w3, Publish(i));
    assert Run(f, w, all) == Run(f, w1, all[1..]) == Run(f, w2, all[1..][1..]) == Run(f, w3, [Publish(i)]);
  }

  /** Until the next reset a cached driver stays: everyone who asks for its key shares it. */
  lemma {:induction false} SharedUntilReset<Key>(f: Fingerprint<Key>, w: World<Key>, actions: seq<Action>, key: Key)
    requires key in w.shared.cache && ResetCache !in actions
    ensures var after := Run(f, w, actions).shared.cache;
      key in after && after[key] == w.shared.cache[key]
    decreases |actions|
  {
    if actions != [] {
      SharedUntilReset(f, Step(f, w, actions[0]), actions[1..], key);
    }
  }

  // ----- Where the counter wraps -----

  function Resets(n: nat): (r: seq<Action>)
    ensures |r| == n
  {
    if n == 0 then [] else [ResetCache] + Resets(n - 1)
  }

  lemma {:induction false} RunResets<Key>(f: Fingerprint<Key>, w: World<Key>, n: nat)
    requires n > 0 && w.shared.generation == w.resets % GENERATIONS
    ensures Run(f, w, Resets(n)) == World(Shared((w.resets + n) % GENERATIONS, map[]), w.calls, w.resets + n)
    decreases n
  {
    var next := Step(f, w, ResetCache);
    assert Resets(n)[1..] == Resets(n - 1);
    assert (w.resets % GENERATIONS + 1) % GENERATIONS == (w.resets + 1) % GENERATIONS;
    if n > 1 {
      RunResets(f, next, n - 1);
    }
  }

  lemma {:induction false} RunAppend<Key>(f: Fingerprint<Key>, w: World<Key>, a: seq<Action>, b: seq<Action>)
    ensures Run(f, w, a + b) == Run(f, Run(f, w, a), b)
    decreases |a|
  {
    if a == [] {
      assert a + b == b;
    } else {
      assert (a + b)[1..] == a[1..] + b;
      RunAppend(f, Step(f, w, a[0]), a[1..], b);
    }
  }

  /** A miss, `n` resets and its publication: the stale driver is cached exactly when the resets
      bring the 64-bit generation back to where it was. */
  lemma StaleCachedIffWrapped<Key(!new)>(f: Fingerprint<Key>, config: Storage, key: Key, n: nat)
    requires config.Storage? && config.id != "" && f(config) == Some(key) && n > 0
    ensures var w := Run(f, Start(), [Request(config), TakeLookup(0), Construct(0, true)] + Resets(n) + [Publish(0)]);
      key in w.shared.cache <==> n % 0x1_0000_0000_0000_0000 == 0
  {
    var early := [Request(config), TakeLookup(0), Construct(0, true)];
    var w0: World<Key> := Start();
    var w1 := Step(f, w0, Request(config));
    var w2 := Step(f, w1, TakeLookup(0));
    var w3 := Step(f, w2, Construct(0, true));
    assert Run(f, w0, early) == w3 by {
      assert early[1..] == [TakeLookup(0), Construct(0, true)];
      assert early[1..][1..] == [Construct(0, true)];
      assert Run(f, w1, early[1..]) == Run(f, w2, early[1..][1..]);
      assert Run(f, w2, [Construct(0, true)]) == Run(f, w3, [Construct(0, true)][1..]);
    }
    RunAppend(f, w0, early, Resets(n));
    RunAppend(f, w0, early + Resets(n), [Publish(0)]);
    RunResets(f, w3, n);
    var w4 := Run(f, w3, Resets(n));
    assert Run(f, w4, [Publish(0)]) == Step(f, w4, Publish(0));
  }
}
