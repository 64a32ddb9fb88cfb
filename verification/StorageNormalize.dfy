/** Bringing the named registry and the legacy fields of a storage setting into normal form. */
module StorageNormalize {
  import opened Outcomes
  import opened StorageModel

  // ----- The stages, on values -----

  /** Present entries with an identity, normalized, the first of each identity. */
  function KeepFirst(h: Digest, storages: seq<Storage>): (r: seq<Storage>)
    ensures Named(r) && DistinctIds(r)
  {
    if storages == [] then []
    else
      var k := |storages| - 1;
      var kept, s := KeepFirst(h, storages[..k]), NormalizeStorage(h, storages[k]);
      if !s.Storage? || s.id == "" || s.id in Ids(kept) then kept else kept + [s]
  }

  /** Register the legacy S3 configuration unless an entry already addresses its namespace. */
  function WithLegacyS3(h: Digest, s: Setting): Setting {
    if s.s3.None? || FindEquivalent(s.storages, LegacyS3(s.s3.value)) != NoStorage then s
    else
      var legacy := NormalizeStorage(h, LegacyS3(s.s3.value));
      if legacy.id != "" then s.(storages := s.storages + [legacy]) else s
  }

  /** The storage that the legacy fields select; an unset type means local. */
  function FromLegacy(h: Digest, s: Setting): Storage {
    var kind := if s.storageType == Unspecified then LocalKind else s.storageType;
    var builtin := BuiltinStorage(h, kind);
    if kind == S3Kind then NormalizeStorage(h, builtin.(config := s.s3)) else builtin
  }

  /** Select a default from the legacy fields when none is set. */
  function WithDefault(h: Digest, s: Setting): Setting {
    if s.defaultId != "" then s
    else
      var legacy := FromLegacy(h, s);
      var existing := FindEquivalent(s.storages, legacy);
      if existing != NoStorage then s.(defaultId := existing.id)
      else if legacy.id != "" then s.(storages := s.storages + [legacy], defaultId := legacy.id)
      else s
  }

  /** Fall back to the first entry, or to local storage, when the default is not configured. */
  function WithFallback(h: Digest, s: Setting): Setting
    requires Named(s.storages)
  {
    if Find(s.storages, s.defaultId) != NoStorage then s
    else if s.storages != [] then s.(defaultId := s.storages[0].id)
    else
      var local := BuiltinStorage(h, LocalKind);
      s.(storages := [local], defaultId := local.id)
  }

  /** The index of the first entry after the head with the given identity, or the length. */
  function IndexAfterHead(storages: seq<Storage>, id: string, i: nat): (r: nat)
    requires 1 <= i <= |storages| && Named(storages)
    ensures i <= r <= |storages|
    ensures r < |storages| ==> storages[r].id == id
    ensures forall k :: i <= k < r ==> storages[k].id != id
    decreases |storages| - i
  {
    if i == |storages| || storages[i].id == id then i else IndexAfterHead(storages, id, i + 1)
  }

  /** Move one entry to the front; the others keep their order. */
  function Rotated(storages: seq<Storage>, i: nat): seq<Storage>
    requires i < |storages|
  {
    [storages[i]] + storages[..i] + storages[i + 1..]
  }

  function DefaultFirst(s: Setting): Setting
    requires Named(s.storages)
  {
    if s.storages == [] then s
    else
      var i := IndexAfterHead(s.storages, s.defaultId, 1);
      if i == |s.storages| then s else s.(storages := Rotated(s.storages, i))
  }

  function FirstConfig(storages: seq<Storage>): Option<S3Config> {
    if storages == [] then None
    else if storages[0].Storage? && storages[0].config.Some? then storages[0].config
    else FirstConfig(storages[1..])
  }

  /** Mirror the default in the legacy fields. */
  function Synchronized(s: Setting): Setting {
    var d := Find(s.storages, s.defaultId);
    if d == NoStorage then s
    else s.(storageType := d.kind, s3 := if d.config.Some? then d.config else FirstConfig(s.storages))
  }

  function Registered(h: Digest, s: Setting): (r: Setting)
    ensures Named(r.storages)
  {
    var kept := s.(storages := KeepFirst(h, s.storages));
    var registered := WithDefault(h, WithLegacyS3(h, kept));
    assert Named(registered.storages);
    registered
  }

  function Normalized(h: Digest, s: Setting): Setting {
    Synchronized(DefaultFirst(WithFallback(h, Registered(h, s))))
  }

  // ----- The setting object -----

  class InstanceStorageSetting {
    var storages: seq<Storage>
    var defaultId: string
    var storageType: StorageKind
    var s3: Option<S3Config>

    constructor (s: Setting)
      ensures Contents() == s
    {
      storages, defaultId, storageType, s3 := s.storages, s.defaultId, s.storageType, s.s3;
    }

    function Contents(): Setting
      reads this
    {
      Setting(storages, defaultId, storageType, s3)
    }

    /** Bring the setting into normal form, in place. */
    method Normalize(h: Digest)
      modifies this
      ensures Contents() == Normalized(h, old(Contents()))
    {
      ghost var start := Contents();
      DropRepeats(h);
      assert Contents() == start.(storages := KeepFirst(h, start.storages));
      RegisterLegacy(h);
      ghost var registered := Contents();
      assert registered == Registered(h, start);
      EnsureDefault(h);
      ghost var ensured := Contents();
      MoveDefaultFirst();
      DefaultFirstKeepsFields(ensured);
      assert Contents() == DefaultFirst(ensured);
      SynchronizeLegacyFields();
    }

    /** Register the legacy S3 configuration and select a default from the legacy fields. */
    method RegisterLegacy(h: Digest)
      modifies this
      ensures Contents() == WithDefault(h, WithLegacyS3(h, old(Contents())))
    {
      if s3.Some? && FindEquivalent(storages, LegacyS3(s3.value)) == NoStorage {
        var legacy := NormalizeStorage(h, LegacyS3(s3.value));
        if legacy.id != "" {
          storages := storages + [legacy];
        }
      }
      assert Contents() == WithLegacyS3(h, old(Contents()));
      if defaultId == "" {
        var legacy := FromLegacy(h, Contents());
        var existing := FindEquivalent(storages, legacy);
        if existing != NoStorage {
          defaultId := existing.id;
        } else if legacy.id != "" {
          storages := storages + [legacy];
          defaultId := legacy.id;
        }
      }
    }

    method EnsureDefault(h: Digest)
      requires Named(storages)
      modifies this
      ensures Contents() == WithFallback(h, old(Contents())) && Named(storages)
    {
      FallbackNamed(h, Contents());
      if Find(storages, defaultId) == NoStorage {
        var fallback := BuiltinStorage(h, LocalKind);
        if |storages| > 0 {
          fallback := storages[0];
        } else {
          storages := storages + [fallback];
        }
        defaultId := fallback.id;
      }
    }

    method DropRepeats(h: Digest)
      modifies this`storages
      ensures storages == KeepFirst(h, old(storages))
    {
      var normalized: seq<Storage> := [];
      var seen: set<string> := {};
      for i := 0 to |storages|
        invariant storages == old(storages)
        invariant normalized == KeepFirst(h, storages[..i])
        invariant seen == Ids(normalized)
      {
        assert storages[..i + 1][..i] == storages[..i];
        var storage := NormalizeStorage(h, storages[i]);
        if !storage.Storage? || storage.id == "" || storage.id in seen {
          continue;
        }
        seen := seen + {storage.id};
        normalized := normalized + [storage];
      }
      assert storages[..|storages|] == storages;
      storages := normalized;
    }

    method MoveDefaultFirst()
      requires Named(storages)
      modifies this`storages
      ensures storages == DefaultFirst(old(Contents())).storages
    {
      var i := 0;
      while i < |storages|
        invariant 0 <= i <= |storages| && storages == old(storages)
        invariant i > 0 ==> IndexAfterHead(storages, defaultId, 1) == IndexAfterHead(storages, defaultId, i)
      {
        if storages[i].id != defaultId || i == 0 {
          i := i + 1;
          continue;
        }
        storages := [storages[i]] + storages[..i] + storages[i + 1..];
        return;
      }
    }

    method SynchronizeLegacyFields()
      modifies this`storageType, this`s3
      ensures Contents() == Synchronized(old(Contents()))
    {
      var storage := Find(storages, defaultId);
      if storage == NoStorage {
        return;
      }
      storageType := storage.kind;
      if storage.config.Some? {
        s3 := storage.config;
        return;
      }
      for i := 0 to |storages|
        invariant FirstConfig(storages) == FirstConfig(storages[i..])
      {
        if storages[i].Storage? && storages[i].config.Some? {
          s3 := storages[i].config;
          return;
        }
      }
      s3 := None;
    }
  }

  lemma DefaultFirstKeepsFields(s: Setting)
    requires Named(s.storages)
    ensures DefaultFirst(s) == s.(storages := DefaultFirst(s).storages)
  {}

  lemma FallbackNamed(h: Digest, s: Setting)
    requires Named(s.storages)
    ensures Named(WithFallback(h, s).storages) && WithFallback(h, s).storages != []
    ensures Find(WithFallback(h, s).storages, WithFallback(h, s).defaultId) != NoStorage
  {
    if Find(s.storages, s.defaultId) == NoStorage && s.storages != [] {
      assert s.storages[0] in s.storages;
    }
  }

  // ----- What normal form guarantees, for every setting -----

  /** Moving an entry to the front is a rotation: nothing is lost, the others keep their order. */
  lemma RotationKeeps(storages: seq<Storage>, i: nat)
    requires i < |storages|
    ensures multiset(Rotated(storages, i)) == multiset(storages)
    ensures Rotated(storages, i)[0] == storages[i]
    ensures Rotated(storages, i)[1..] == storages[..i] + storages[i + 1..]
  {
    assert storages == storages[..i] + [storages[i]] + storages[i + 1..];
  }

  lemma DefaultFirstKeeps(s: Setting)
    requires Named(s.storages) && Find(s.storages, s.defaultId) != NoStorage
    ensures var r := DefaultFirst(s);
      && multiset(r.storages) == multiset(s.storages) && Named(r.storages)
      && r.storages != [] && r.storages[0].id == s.defaultId
  {
    var i := IndexAfterHead(s.storages, s.defaultId, 1);
    if i < |s.storages| {
      RotationKeeps(s.storages, i);
      MultisetNamed(s.storages, Rotated(s.storages, i));
    } else {
      var d := Find(s.storages, s.defaultId);
      var k :| 0 <= k < |s.storages| && s.storages[k] == d;
      assert k == 0;
    }
  }

  lemma MultisetNamed(a: seq<Storage>, b: seq<Storage>)
    requires Named(a) && multiset(b) == multiset(a)
    ensures Named(b)
  {
    forall i | 0 <= i < |b|
      ensures b[i].Storage? && b[i].id != ""
    {
      assert b[i] in multiset(b);
      assert b[i] in a;
    }
  }

  /** Normal form: a non-empty list of named entries whose head is the default, which the legacy
      fields mirror. */
  lemma NormalForm(h: Digest, s: Setting)
    ensures var r := Normalized(h, s);
      && Named(r.storages) && r.storages != []
      && r.storages[0].id == r.defaultId
      && r.storageType == r.storages[0].kind
      && r.s3 == (if r.storages[0].config.Some? then r.storages[0].config else FirstConfig(r.storages))
  {
    var f := WithFallback(h, Registered(h, s));
    FallbackNamed(h, Registered(h, s));
    DefaultFirstKeeps(f);
  }

  // ----- Distinct identities -----

  predicate S3Collides(h: Digest, s: Setting) {
    && s.s3.Some? && FindEquivalent(s.storages, LegacyS3(s.s3.value)) == NoStorage
    && StorageId(h, LegacyS3(s.s3.value)) in Ids(s.storages)
  }

  predicate DefaultCollides(h: Digest, s: Setting) {
    && s.defaultId == "" && FindEquivalent(s.storages, FromLegacy(h, s)) == NoStorage
    && FromLegacy(h, s).id in Ids(s.storages)
  }

  /** The guard under which a generated identity is appended although an entry already holds it. */
  predicate Collides(h: Digest, s: Setting) {
    var kept := s.(storages := KeepFirst(h, s.storages));
    S3Collides(h, kept) || DefaultCollides(h, WithLegacyS3(h, kept))
  }

  lemma AppendDistinct(storages: seq<Storage>, s: Storage)
    requires Named(storages) && s.Storage? && s.id != ""
    ensures Named(storages + [s])
    ensures DistinctIds(storages + [s]) <==> DistinctIds(storages) && s.id !in Ids(storages)
  {
    var all := storages + [s];
    if DistinctIds(all) {
      forall i, j | 0 <= i < j < |storages|
        ensures storages[i].id != storages[j].id
      {
        assert all[i].id != all[j].id;
      }
      forall i | 0 <= i < |storages|
        ensures storages[i].id != s.id
      {
        assert all[i].id != all[|storages|].id;
      }
    }
  }

  lemma MultisetDistinct(a: seq<Storage>, b: seq<Storage>)
    requires Named(a) && Named(b) && multiset(a) == multiset(b)
    ensures DistinctIds(a) <==> DistinctIds(b)
  {
    if DistinctIds(a) {
      MultisetDistinctOneWay(a, b);
    }
    if DistinctIds(b) {
      MultisetDistinctOneWay(b, a);
    }
  }

  lemma MultisetDistinctOneWay(a: seq<Storage>, b: seq<Storage>)
    requires Named(a) && Named(b) && multiset(a) == multiset(b) && DistinctIds(a)
    ensures DistinctIds(b)
  {
    forall i, j | 0 <= i < j < |b|
      ensures b[i].id != b[j].id
    {
      if b[i].id == b[j].id {
        assert b[i] in multiset(a) && b[j] in multiset(a);
        var p :| 0 <= p < |a| && a[p] == b[i];
        var q :| 0 <= q < |a| && a[q] == b[j];
        assert p == q;
        TwoOccurrences(b, i, j);
        OneOccurrence(a, p);
      }
    }
  }

  lemma TwoOccurrences(b: seq<Storage>, i: nat, j: nat)
    requires i < j < |b| && b[i] == b[j]
    ensures multiset(b)[b[i]] >= 2
  {
    assert b == b[..j] + [b[j]] + b[j + 1..];
    assert b[i] in b[..j];
  }

  lemma OneOccurrence(a: seq<Storage>, p: nat)
    requires p < |a| && Named(a) && DistinctIds(a)
    ensures multiset(a)[a[p]] == 1
  {
    assert a == a[..p] + [a[p]] + a[p + 1..];
    assert a[p] !in a[..p] && a[p] !in a[p + 1..];
  }

  /** Identities are distinct after normalization if and only if no generated identity collides;
      a configured identity that is the digest of another namespace makes one collide. */
  lemma NormalizedDistinct(h: Digest, s: Setting)
    ensures DistinctIds(Normalized(h, s).storages) <==> !Collides(h, s)
  {
    var kept := s.(storages := KeepFirst(h, s.storages));
    var a := WithLegacyS3(h, kept);
    LegacyS3Distinct(h, kept);
    DefaultDistinct(h, a);
    FallbackDistinct(h, WithDefault(h, a));
  }

  lemma LegacyS3Distinct(h: Digest, s: Setting)
    requires Named(s.storages)
    ensures Named(WithLegacyS3(h, s).storages)
    ensures DistinctIds(WithLegacyS3(h, s).storages) <==> DistinctIds(s.storages) && !S3Collides(h, s)
  {
    if s.s3.Some? && FindEquivalent(s.storages, LegacyS3(s.s3.value)) == NoStorage {
      var legacy := NormalizeStorage(h, LegacyS3(s.s3.value));
      assert legacy.id == StorageId(h, LegacyS3(s.s3.value));
      if legacy.id != "" {
        AppendDistinct(s.storages, legacy);
      }
    }
  }

  lemma DefaultDistinct(h: Digest, s: Setting)
    requires Named(s.storages)
    ensures Named(WithDefault(h, s).storages)
    ensures DistinctIds(WithDefault(h, s).storages) <==> DistinctIds(s.storages) && !DefaultCollides(h, s)
  {
    var legacy := FromLegacy(h, s);
    if s.defaultId == "" && FindEquivalent(s.storages, legacy) == NoStorage && legacy.id != "" {
      AppendDistinct(s.storages, legacy);
    }
  }

  lemma FallbackDistinct(h: Digest, s: Setting)
    requires Named(s.storages)
    ensures Named(WithFallback(h, s).storages) && Named(DefaultFirst(WithFallback(h, s)).storages)
    ensures DistinctIds(DefaultFirst(WithFallback(h, s)).storages) <==> DistinctIds(s.storages)
  {
    FallbackNamed(h, s);
    var f := WithFallback(h, s);
    DefaultFirstKeeps(f);
    MultisetDistinct(f.storages, DefaultFirst(f).storages);
  }
}
