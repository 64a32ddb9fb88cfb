/** Over every run of accepted updates, an identity once in the registry keeps resolving to a
    storage with the same physical namespace. */
module StorageSafety {
  import opened Outcomes
  import opened StorageModel
  import opened StorageNormalize
  import opened StorageUpdate

  /** Every identity found in a is found in b, with the same namespace. */
  ghost predicate Keeps(a: seq<Storage>, b: seq<Storage>) {
    forall id: string :: Find(a, id).Storage? ==>
      Find(b, id).Storage? && NamespaceOf(Find(b, id)) == NamespaceOf(Find(a, id))
  }

  lemma KeepsTransitive(a: seq<Storage>, b: seq<Storage>, c: seq<Storage>)
    requires Keeps(a, b) && Keeps(b, c)
    ensures Keeps(a, c)
  {}

  lemma FindMember(storages: seq<Storage>, s: Storage)
    requires s in storages && Named(storages) && DistinctIds(storages)
    ensures Find(storages, s.id) == s
  {
    var i :| 0 <= i < |storages| && storages[i] == s;
    FindInDistinct(storages, i);
  }

  /** In a registry with distinct identities it is enough to look at the entries. */
  lemma KeepsByMembers(a: seq<Storage>, b: seq<Storage>)
    requires Named(b) && DistinctIds(b)
    requires forall s :: s in a && s.Storage? ==>
               exists t :: t in b && t.Storage? && t.id == s.id && NamespaceOf(t) == NamespaceOf(s)
    ensures Keeps(a, b)
  {
    forall id: string | Find(a, id).Storage?
      ensures Find(b, id).Storage? && NamespaceOf(Find(b, id)) == NamespaceOf(Find(a, id))
    {
      var s := Find(a, id);
      var t :| t in b && t.Storage? && t.id == s.id && NamespaceOf(t) == NamespaceOf(s);
      FindMember(b, t);
    }
  }

  // ----- Normalization keeps a sound registry -----

  lemma NormalizedKeepsId(h: Digest, s: Storage)
    requires s.Storage? && s.id != ""
    ensures NormalizeStorage(h, s).Storage? && NormalizeStorage(h, s).id == s.id
  {}

  lemma {:induction false} KeepFirstOfSound(h: Digest, storages: seq<Storage>)
    requires Sound(h, storages)
    ensures |KeepFirst(h, storages)| == |storages|
    ensures forall i :: 0 <= i < |storages| ==> KeepFirst(h, storages)[i] == NormalizeStorage(h, storages[i])
    decreases |storages|
  {
    hide NormalizeStorage, Sound;
    if storages != [] {
      var k := |storages| - 1;
      SoundInit(h, storages);
      KeepFirstOfSound(h, storages[..k]);
      LastIsNew(h, storages, KeepFirst(h, storages[..k]));
    }
  }

  lemma SoundInit(h: Digest, storages: seq<Storage>)
    requires Sound(h, storages) && storages != []
    ensures Sound(h, storages[..|storages| - 1])
  {}

  /** The last entry of a sound registry is no repeat of what was kept before it. */
  lemma LastIsNew(h: Digest, storages: seq<Storage>, kept: seq<Storage>)
    requires Sound(h, storages) && storages != [] && |kept| == |storages| - 1
    requires forall i :: 0 <= i < |kept| ==> kept[i] == NormalizeStorage(h, storages[..|kept|][i])
    ensures var s := NormalizeStorage(h, storages[|kept|]); s.Storage? && s.id != "" && s.id !in Ids(kept)
  {
    hide NormalizeStorage, Truthful, Steady;
    NormalizedKeepsId(h, storages[|kept|]);
    forall i | 0 <= i < |kept| ensures kept[i].Storage? && kept[i].id != storages[|kept|].id {
      NormalizedKeepsId(h, storages[i]);
    }
  }

  lemma NormalizedEntry(h: Digest, s: Storage)
    requires Steady(s) && s.id != "" && Truthful(h, s)
    ensures var t := NormalizeStorage(h, s);
      && t.Storage? && t.id == s.id && t.kind == s.kind && t.config == s.config
      && Steady(t) && Truthful(h, t) && NamespaceOf(t) == NamespaceOf(s)
  {
    var t := NormalizeStorage(h, s);
    forall ns: Namespace | t.id == h(ns)
      ensures NamespaceOf(t) == ns
    {
      assert s.id == h(ns);
    }
  }

  lemma KeptIsSound(h: Digest, storages: seq<Storage>)
    requires Sound(h, storages)
    ensures Sound(h, KeepFirst(h, storages)) && Keeps(storages, KeepFirst(h, storages))
  {
    var kept := KeepFirst(h, storages);
    KeepFirstOfSound(h, storages);
    forall i | 0 <= i < |kept|
      ensures Steady(kept[i]) && Truthful(h, kept[i]) && kept[i].id == storages[i].id
      ensures NamespaceOf(kept[i]) == NamespaceOf(storages[i])
    {
      NormalizedEntry(h, storages[i]);
    }
    forall s | s in storages && s.Storage?
      ensures exists t :: t in kept && t.Storage? && t.id == s.id && NamespaceOf(t) == NamespaceOf(s)
    {
      var i :| 0 <= i < |storages| && storages[i] == s;
      assert kept[i] in kept;
    }
    KeepsByMembers(storages, kept);
  }

  lemma {:induction false} FindAppend(a: seq<Storage>, s: Storage, id: string)
    requires Find(a, id).Storage?
    ensures Find(a + [s], id) == Find(a, id)
  {
    if !(a[0].Storage? && a[0].id == id) {
      FindAppend(a[1..], s, id);
      assert (a + [s])[1..] == a[1..] + [s];
    }
  }

  /** A storage with a generated identity can be appended when its namespace is not yet served. */
  lemma AppendGenerated(h: Digest, storages: seq<Storage>, s: Storage)
    requires Separates(h) && Sound(h, storages)
    requires Typed(s) && s.id == StorageId(h, s) && FindEquivalent(storages, s) == NoStorage
    ensures Sound(h, storages + [s]) && Keeps(storages, storages + [s])
  {
    GeneratedIdTruthful(h, s);
    forall t | t in storages
      ensures t.id != s.id
    {
      if t.id == s.id {
        HolderHasNamespace(h, t, s);
        NamespaceEqualExact(t, s);
      }
    }
    AppendDistinct(storages, s);
    forall id: string | Find(storages, id).Storage?
      ensures Find(storages + [s], id) == Find(storages, id)
    {
      FindAppend(storages, s, id);
    }
  }

  lemma LegacyS3Sound(h: Digest, s: Setting)
    requires Separates(h) && Sound(h, s.storages)
    ensures Sound(h, WithLegacyS3(h, s).storages) && Keeps(s.storages, WithLegacyS3(h, s).storages)
  {
    if WithLegacyS3(h, s) != s {
      var legacy := NormalizeStorage(h, LegacyS3(s.s3.value));
      assert NamespaceOf(legacy) == NamespaceOf(LegacyS3(s.s3.value));
      EquivalentToSame(s.storages, LegacyS3(s.s3.value), legacy);
      AppendGenerated(h, s.storages, legacy);
    }
  }

  lemma EquivalentToSame(storages: seq<Storage>, a: Storage, b: Storage)
    requires a.Storage? && b.Storage? && NamespaceOf(a) == NamespaceOf(b) && FindEquivalent(storages, a) == NoStorage
    ensures FindEquivalent(storages, b) == NoStorage
  {
    forall s | s in storages
      ensures !NamespaceEqual(s, b)
    {
      NamespaceEqualExact(s, a);
      NamespaceEqualExact(s, b);
    }
  }

  lemma LegacyIsGenerated(h: Digest, s: Setting)
    requires FromLegacy(h, s).id != ""
    ensures Typed(FromLegacy(h, s)) && FromLegacy(h, s).id == StorageId(h, FromLegacy(h, s))
  {}

  lemma DefaultSound(h: Digest, s: Setting)
    requires Separates(h) && Sound(h, s.storages)
    ensures Sound(h, WithDefault(h, s).storages) && Keeps(s.storages, WithDefault(h, s).storages)
  {
    if WithDefault(h, s).storages != s.storages {
      LegacyIsGenerated(h, s);
      AppendGenerated(h, s.storages, FromLegacy(h, s));
    }
  }

  lemma FallbackSound(h: Digest, s: Setting)
    requires Separates(h) && Sound(h, s.storages)
    ensures Sound(h, WithFallback(h, s).storages) && Keeps(s.storages, WithFallback(h, s).storages)
  {
    if s.storages == [] {
      AppendGenerated(h, s.storages, BuiltinStorage(h, LocalKind));
      assert [] + [BuiltinStorage(h, LocalKind)] == [BuiltinStorage(h, LocalKind)];
    }
  }

  lemma RotationSound(h: Digest, a: seq<Storage>, b: seq<Storage>)
    requires Sound(h, a) && multiset(a) == multiset(b)
    ensures Sound(h, b) && Keeps(a, b)
  {
    MultisetNamed(a, b);
    MultisetDistinct(a, b);
    forall i | 0 <= i < |b|
      ensures Steady(b[i]) && Truthful(h, b[i])
    {
      assert b[i] in multiset(a);
      assert b[i] in a;
    }
    forall s | s in a
      ensures s in b
    {
      assert s in multiset(b);
    }
    KeepsByMembers(a, b);
  }

  /** Normalizing a sound registry keeps it sound and keeps every identity resolving as before. */
  lemma NormalizedKeeps(h: Digest, s: Setting)
    requires Separates(h) && Sound(h, s.storages)
    ensures Sound(h, Normalized(h, s).storages) && Keeps(s.storages, Normalized(h, s).storages)
  {
    var kept := s.(storages := KeepFirst(h, s.storages));
    KeptIsSound(h, s.storages);
    var a := WithLegacyS3(h, kept);
    LegacyS3Sound(h, kept);
    var b := WithDefault(h, a);
    DefaultSound(h, a);
    var c := WithFallback(h, b);
    FallbackSound(h, b);
    FallbackNamed(h, b);
    DefaultFirstKeeps(c);
    RotationSound(h, c.storages, DefaultFirst(c).storages);
    KeepsTransitive(s.storages, kept.storages, a.storages);
    KeepsTransitive(s.storages, a.storages, b.storages);
    KeepsTransitive(s.storages, b.storages, c.storages);
    KeepsTransitive(s.storages, c.storages, DefaultFirst(c).storages);
  }

  // ----- The entries of a request -----

  /** What is asked of a request: an entry with an identity that is not yet registered does not
      carry the generated identity of another namespace. */
  ghost predicate FreshTruthful(h: Digest, existing: seq<Storage>, storages: seq<Storage>) {
    forall i :: 0 <= i < |storages| && storages[i].Storage? && storages[i].id !in Ids(existing) ==>
      Truthful(h, storages[i])
  }

  ghost predicate RequestEntries(h: Digest, existing: seq<Storage>, storages: seq<Storage>) {
    Named(storages) && FreshTruthful(h, existing, storages) &&
    forall i :: 0 <= i < |storages| ==> Typed(storages[i])
  }

  lemma AppendRequestEntry(h: Digest, existing: seq<Storage>, storages: seq<Storage>, s: Storage)
    requires RequestEntries(h, existing, storages)
    requires Typed(s) && s.id != "" && (s.id in Ids(existing) || Truthful(h, s))
    ensures RequestEntries(h, existing, storages + [s])
  {}

  lemma {:induction false} KeptRequestEntries(h: Digest, existing: seq<Storage>, storages: seq<Storage>)
    requires RequestEntries(h, existing, storages)
    ensures RequestEntries(h, existing, KeepFirst(h, storages))
    decreases |storages|
  {
    if storages != [] {
      var k := |storages| - 1;
      var s := storages[k];
      KeptRequestEntries(h, existing, storages[..k]);
      var t := NormalizeStorage(h, s);
      assert t.id == s.id && t.kind == s.kind && t.config == s.config;
      if s.id !in Ids(existing) {
        NormalizedEntry(h, s);
      }
      if KeepFirst(h, storages) != KeepFirst(h, storages[..k]) {
        AppendRequestEntry(h, existing, KeepFirst(h, storages[..k]), t);
      }
    }
  }

  /** Normalizing the request adds only storages with generated identities. */
  lemma NormalizedRequest(h: Digest, existing: seq<Storage>, s: Setting)
    requires Separates(h) && RequestEntries(h, existing, s.storages)
    ensures RequestEntries(h, existing, Normalized(h, s).storages)
  {
    var kept := s.(storages := KeepFirst(h, s.storages));
    KeptRequestEntries(h, existing, s.storages);
    var a := WithLegacyS3(h, kept);
    LegacyS3Request(h, existing, kept);
    DefaultRequest(h, existing, a);
    FallbackRequest(h, existing, WithDefault(h, a));
  }

  lemma LegacyS3Request(h: Digest, existing: seq<Storage>, s: Setting)
    requires Separates(h) && RequestEntries(h, existing, s.storages)
    ensures RequestEntries(h, existing, WithLegacyS3(h, s).storages)
  {
    if WithLegacyS3(h, s) != s {
      AppendGeneratedEntry(h, existing, s.storages, NormalizeStorage(h, LegacyS3(s.s3.value)));
    }
  }

  lemma DefaultRequest(h: Digest, existing: seq<Storage>, s: Setting)
    requires Separates(h) && RequestEntries(h, existing, s.storages)
    ensures RequestEntries(h, existing, WithDefault(h, s).storages)
  {
    if WithDefault(h, s).storages != s.storages {
      LegacyIsGenerated(h, s);
      AppendGeneratedEntry(h, existing, s.storages, FromLegacy(h, s));
    }
  }

  lemma FallbackRequest(h: Digest, existing: seq<Storage>, s: Setting)
    requires Separates(h) && RequestEntries(h, existing, s.storages)
    ensures RequestEntries(h, existing, DefaultFirst(WithFallback(h, s)).storages)
  {
    var f := WithFallback(h, s);
    if s.storages == [] {
      AppendGeneratedEntry(h, existing, [], BuiltinStorage(h, LocalKind));
      assert f.storages == [] + [BuiltinStorage(h, LocalKind)];
    }
    FallbackNamed(h, s);
    DefaultFirstKeeps(f);
    PermutedRequest(h, existing, f.storages, DefaultFirst(f).storages);
  }

  lemma PermutedRequest(h: Digest, existing: seq<Storage>, a: seq<Storage>, b: seq<Storage>)
    requires RequestEntries(h, existing, a) && multiset(a) == multiset(b)
    ensures RequestEntries(h, existing, b)
  {
    forall i | 0 <= i < |b|
      ensures b[i] in a
    {
      assert b[i] in multiset(a);
    }
  }

  lemma AppendGeneratedEntry(h: Digest, existing: seq<Storage>, storages: seq<Storage>, s: Storage)
    requires Separates(h) && RequestEntries(h, existing, storages)
    requires Typed(s) && s.id == StorageId(h, s)
    ensures RequestEntries(h, existing, storages + [s])
  {
    GeneratedIdTruthful(h, s);
    AppendRequestEntry(h, existing, storages, s);
  }

  // ----- Editing -----

  lemma {:induction false} ByIdInDistinct(storages: seq<Storage>, id: string)
    requires Named(storages) && DistinctIds(storages)
    ensures if id in Ids(storages) then ById(storages, id) in storages && ById(storages, id).id == id
            else ById(storages, id) == NoStorage
    decreases |storages|
  {
    if storages != [] {
      var k := |storages| - 1;
      assert storages == storages[..k] + [storages[k]];
      ByIdInDistinct(storages[..k], id);
    }
  }

  lemma BackfilledKeepsNamespace(existing: seq<Storage>, legacyRequest: bool, previous: Storage, s: Storage)
    requires Typed(s)
    ensures var t := Backfilled(existing, legacyRequest, previous, s);
      t.Storage? && t.id == s.id && t.kind == s.kind && Typed(t) && NamespaceOf(t) == NamespaceOf(s)
  {}

  /** An edited entry carries an identity that is truthful, and if that identity is registered, the
      namespace it is registered for. */
  lemma EditedEntrySafe(h: Digest, existing: seq<Storage>, legacyRequest: bool, s: Storage)
    requires Separates(h) && Sound(h, existing)
    requires Typed(s) && s.id != "" && (s.id in Ids(existing) || Truthful(h, s))
    ensures var t := EditEntry(h, existing, legacyRequest, s).s;
      && Typed(t) && t.id != "" && Truthful(h, t)
      && (forall e :: e in existing && e.id == t.id ==> NamespaceOf(e) == NamespaceOf(t))
  {
    var previous := ById(existing, s.id);
    ByIdInDistinct(existing, s.id);
    var t := EditEntry(h, existing, legacyRequest, s).s;
    if NamespaceChanged(previous, s) {
      var renamed := s.(id := StorageId(h, s));
      BackfilledKeepsNamespace(existing, legacyRequest, NoStorage, renamed);
      GeneratedIdTruthful(h, t);
      forall e | e in existing && e.id == t.id
        ensures NamespaceOf(e) == NamespaceOf(t)
      {
        HolderHasNamespace(h, e, t);
      }
    } else {
      BackfilledKeepsNamespace(existing, legacyRequest, previous, s);
      NamespaceEqualExact(previous, s);
      forall e | e in existing && e.id == t.id
        ensures NamespaceOf(e) == NamespaceOf(t)
      {
        FindMember(existing, e);
        FindMember(existing, previous);
      }
      if previous.Storage? {
        SameIdSameTruth(h, previous, t);
      } else {
        SameIdSameTruth(h, s, t);
      }
    }
  }

  lemma SameIdSameTruth(h: Digest, s: Storage, t: Storage)
    requires s.Storage? && t.Storage? && s.id == t.id && NamespaceOf(s) == NamespaceOf(t) && Truthful(h, s)
    ensures Truthful(h, t)
  {
    forall ns: Namespace | t.id == h(ns)
      ensures NamespaceOf(t) == ns
    {
      assert s.id == h(ns);
    }
  }

  // ----- Resolving repeats -----

  ghost predicate AllPresent(entries: seq<Edited>) {
    forall i :: 0 <= i < |entries| ==> entries[i].s.Storage?
  }

  lemma StepDistinct(before: seq<Edited>, e: Edited)
    requires AllPresent(before) && e.s.Storage? && DistinctIds(Entries(before))
    ensures DistinctIds(Entries(Resolve(before, e)))
  {
    hide IndexOf;
    var i := IndexOf(before, e.s.id);
    var after := Resolve(before, e);
    if i < |before| {
      assert Entries(after) == Entries(before)[i := after[i].s];
    } else {
      assert Entries(after) == Entries(before) + [e.s];
    }
  }

  lemma {:induction false} ResolvedDistinct(entries: seq<Edited>)
    requires AllPresent(entries)
    ensures DistinctIds(Entries(ResolveAll(entries)))
    decreases |entries|
  {
    hide Resolve, DistinctIds;
    if entries == [] {
      NoneDistinct();
    } else {
      var k := |entries| - 1;
      ResolvedDistinct(entries[..k]);
      assert AllPresent(ResolveAll(entries[..k]));
      StepDistinct(ResolveAll(entries[..k]), entries[k]);
    }
  }

  lemma NoneDistinct()
    ensures DistinctIds([])
  {}

  // ----- Which of repeated entries stays -----

  lemma {:induction false} ResolvedKeepsId(entries: seq<Edited>, e: Edited)
    requires (forall i :: 0 <= i < |entries| ==> entries[i].s.Storage?) && e in entries
    ensures exists r :: r in ResolveAll(entries) && r.s.id == e.s.id
    decreases |entries|
  {
    var k := |entries| - 1;
    var init, last := entries[..k], entries[k];
    var front := ResolveAll(init);
    if e in init {
      ResolvedKeepsId(init, e);
      var r :| r in front && r.s.id == e.s.id;
      StepKeepsId(front, last, r);
    } else {
      assert entries == init + [last];
      StepHasId(front, last);
    }
  }

  lemma StepKeepsId(front: seq<Edited>, last: Edited, r: Edited)
    requires (forall i :: 0 <= i < |front| ==> front[i].s.Storage?) && last.s.Storage? && r in front
    ensures exists t :: t in Resolve(front, last) && t.s.id == r.s.id
  {
    var i := IndexOf(front, last.s.id);
    var j :| 0 <= j < |front| && front[j] == r;
    var next := Resolve(front, last);
    assert next[j].s.id == r.s.id;
  }

  lemma StepHasId(front: seq<Edited>, last: Edited)
    requires (forall i :: 0 <= i < |front| ==> front[i].s.Storage?) && last.s.Storage?
    ensures exists t :: t in Resolve(front, last) && t.s.id == last.s.id
  {
    var i := IndexOf(front, last.s.id);
    var next := Resolve(front, last);
    assert next[i].s.id == last.s.id;
  }

  /** The entry that prevails for its identity: the first re-identified one, or the first if none is. */
  predicate Prevails(entries: seq<Edited>, i: nat)
    requires i < |entries| && AllPresent(entries)
  {
    if entries[i].reidentified then
      forall k :: 0 <= k < i && entries[k].s.id == entries[i].s.id ==> !entries[k].reidentified
    else
      && (forall k :: 0 <= k < i ==> entries[k].s.id != entries[i].s.id)
      && (forall k :: 0 <= k < |entries| && entries[k].s.id == entries[i].s.id ==> !entries[k].reidentified)
  }

  ghost predicate FromPrevailing(entries: seq<Edited>, r: Edited)
    requires AllPresent(entries)
  {
    exists i :: 0 <= i < |entries| && entries[i] == r && Prevails(entries, i)
  }

  lemma PrevailsLonger(init: seq<Edited>, last: Edited, r: Edited)
    requires AllPresent(init) && last.s.Storage? && FromPrevailing(init, r)
    requires last.s.id == r.s.id && last.reidentified ==> r.reidentified
    ensures FromPrevailing(init + [last], r)
  {
    var i :| 0 <= i < |init| && init[i] == r && Prevails(init, i);
    assert Prevails(init + [last], i);
  }

  /** A re-identified entry takes the place of one that is not. */
  lemma LastPrevails(init: seq<Edited>, last: Edited)
    requires AllPresent(init) && last.s.Storage?
    requires (forall k :: 0 <= k < |init| ==> init[k].s.id != last.s.id)
          || (last.reidentified && exists r: Edited :: r.s.Storage? && r.s.id == last.s.id && !r.reidentified && FromPrevailing(init, r))
    ensures FromPrevailing(init + [last], last)
  {
    assert Prevails(init + [last], |init|);
  }

  lemma {:induction false} ResolvedPrevail(entries: seq<Edited>)
    requires AllPresent(entries)
    ensures forall j :: 0 <= j < |ResolveAll(entries)| ==> FromPrevailing(entries, ResolveAll(entries)[j])
    decreases |entries|
  {
    hide FromPrevailing, Prevails;
    if entries != [] {
      var init, last := entries[..|entries| - 1], entries[|entries| - 1];
      assert entries == init + [last];
      ResolvedPrevail(init);
      ResolvedDistinct(init);
      var front := ResolveAll(init);
      assert AllPresent(front);
      var i := IndexOf(front, last.s.id);
      forall j | 0 <= j < |front| && (j != i || !last.reidentified || front[j].reidentified)
        ensures FromPrevailing(entries, front[j])
      {
        DistinctAt(front, i, j, last.s.id);
        PrevailsLonger(init, last, front[j]);
      }
      if i == |front| {
        NewIdentity(init, last);
        LastPrevails(init, last);
      } else if last.reidentified && !front[i].reidentified {
        LastPrevails(init, last);
      }
    }
  }

  lemma DistinctAt(front: seq<Edited>, i: nat, j: nat, id: string)
    requires AllPresent(front) && DistinctIds(Entries(front)) && i <= |front| && j < |front|
    requires i < |front| ==> front[i].s.id == id
    requires i == |front| ==> forall k :: 0 <= k < |front| ==> front[k].s.id != id
    ensures j != i ==> front[j].s.id != id
  {
    if i < |front| {
      assert Entries(front)[i] == front[i].s && Entries(front)[j] == front[j].s;
    }
  }

  lemma NewIdentity(init: seq<Edited>, last: Edited)
    requires AllPresent(init) && last.s.Storage?
    requires forall k :: 0 <= k < |ResolveAll(init)| ==> ResolveAll(init)[k].s.Storage? && ResolveAll(init)[k].s.id != last.s.id
    ensures forall k :: 0 <= k < |init| ==> init[k].s.id != last.s.id
  {
    forall k | 0 <= k < |init| ensures init[k].s.id != last.s.id {
      ResolvedKeepsId(init, init[k]);
    }
  }

  /** Of the entries with one identity exactly one stays: the first re-identified one if there is any,
      otherwise the first. */
  lemma RepeatsResolved(entries: seq<Edited>, e: Edited)
    requires AllPresent(entries) && e in entries
    ensures var resolved := ResolveAll(entries);
      && DistinctIds(Entries(resolved))
      && exists j :: 0 <= j < |resolved| && resolved[j].s.Storage? && resolved[j].s.id == e.s.id && FromPrevailing(entries, resolved[j])
  {
    hide FromPrevailing;
    ResolvedDistinct(entries);
    ResolvedPrevail(entries);
    ResolvedKeepsId(entries, e);
    var resolved := ResolveAll(entries);
    var r :| r in resolved && r.s.id == e.s.id;
    var j :| 0 <= j < |resolved| && resolved[j] == r;
  }

  // ----- One update -----

  lemma RequestAfterMatching(h: Digest, request: Setting, existing: Setting)
    requires RequestEntries(h, existing.storages, request.storages) && Sound(h, existing.storages)
    ensures RequestEntries(h, existing.storages, Matched(request, existing).storages)
  {
    hide Find, FindEquivalent, Truthful, NamespaceEqual, ReplaceFirst;
    var d := Find(request.storages, request.defaultId);
    if d != NoStorage {
      var matching := FindEquivalent(existing.storages, d);
      if matching != NoStorage {
        var i :| 0 <= i < |request.storages| && request.storages[i] == d;
        MatchingIsNamed(existing, matching);
        var renamed := if d.name == DefaultName(d) then d.(name := matching.name) else d;
        ReplacedEntries(h, existing.storages, request.storages, d, renamed.(id := matching.id));
      }
    }
  }

  lemma MatchingIsNamed(existing: Setting, matching: Storage)
    requires Named(existing.storages) && matching in existing.storages
    ensures matching.Storage? && matching.id != "" && matching.id in Ids(existing.storages)
  {}

  lemma ReplacedEntries(h: Digest, existing: seq<Storage>, storages: seq<Storage>, before: Storage, after: Storage)
    requires RequestEntries(h, existing, storages)
    requires Typed(after) && after.id != "" && after.id in Ids(existing)
    ensures RequestEntries(h, existing, ReplaceFirst(storages, before, after))
  {
    hide Truthful;
  }

  /** The resolved entries and the preserved ones together form a sound registry in which every
      stored identity keeps its namespace. */
  lemma CompletedSafe(h: Digest, existing: seq<Storage>, legacyRequest: bool, matched: Setting)
    requires Separates(h) && Sound(h, existing) && RequestEntries(h, existing, matched.storages)
    ensures var resolved := Entries(ResolveAll(EditAll(h, existing, legacyRequest, matched.storages)));
            var all := resolved + Preserved(existing, Ids(resolved));
            Sound(h, all) && Keeps(existing, all)
  {
    var edited := EditAll(h, existing, legacyRequest, matched.storages);
    forall i | 0 <= i < |edited|
      ensures EntrySafe(h, existing, edited[i].s)
    {
      EditedEntrySafe(h, existing, legacyRequest, matched.storages[i]);
    }
    ResolvedDistinct(edited);
    var resolved := Entries(ResolveAll(edited));
    forall i | 0 <= i < |resolved|
      ensures EntrySafe(h, existing, resolved[i])
    {
      assert ResolveAll(edited)[i] in edited;
    }
    UnionSafe(h, existing, resolved);
  }

  ghost predicate EntrySafe(h: Digest, existing: seq<Storage>, t: Storage) {
    && Typed(t) && t.id != "" && Truthful(h, t)
    && forall e :: e in existing && e.Storage? && e.id == t.id ==> NamespaceOf(e) == NamespaceOf(t)
  }

  lemma {:induction false} PreservedDistinct(existing: seq<Storage>, ids: set<string>)
    requires Named(existing) && DistinctIds(existing)
    ensures Named(Preserved(existing, ids)) && DistinctIds(Preserved(existing, ids))
  {
    if existing != [] {
      PreservedDistinct(existing[1..], ids);
      var rest := Preserved(existing[1..], ids);
      forall i | 0 <= i < |rest|
        ensures rest[i].Storage? && rest[i].id != existing[0].id
      {
        assert rest[i] in existing[1..];
        var j :| 0 <= j < |existing[1..]| && existing[1..][j] == rest[i];
        assert existing[j + 1] == rest[i];
      }
    }
  }

  lemma UnionSafe(h: Digest, existing: seq<Storage>, resolved: seq<Storage>)
    requires Sound(h, existing) && DistinctIds(resolved)
    requires forall i :: 0 <= i < |resolved| ==> EntrySafe(h, existing, resolved[i])
    ensures var all := resolved + Preserved(existing, Ids(resolved));
            Sound(h, all) && Keeps(existing, all)
  {
    var ids := Ids(resolved);
    var rest := Preserved(existing, ids);
    var all := resolved + rest;
    PreservedDistinct(existing, ids);
    forall i | 0 <= i < |all|
      ensures all[i].Storage? && all[i].id != "" && Steady(all[i]) && Truthful(h, all[i])
    {
      if i >= |resolved| {
        assert all[i] in rest;
        assert all[i] in existing;
      }
    }
    forall i, j | 0 <= i < j < |all|
      ensures all[i].id != all[j].id
    {
      if i < |resolved| <= j {
        assert all[j] in rest && all[i] in resolved;
        assert all[i].id in ids;
      } else if |resolved| <= i {
        assert all[i] == rest[i - |resolved|] && all[j] == rest[j - |resolved|];
      }
    }
    forall e | e in existing && e.Storage?
      ensures exists t :: t in all && t.Storage? && t.id == e.id && NamespaceOf(t) == NamespaceOf(e)
    {
      if e.id in ids {
        var t :| t in resolved && t.Storage? && t.id == e.id;
        var i :| 0 <= i < |resolved| && resolved[i] == t;
        assert EntrySafe(h, existing, resolved[i]);
        assert t in all;
      } else {
        assert e in rest;
        assert e in all;
      }
    }
    KeepsByMembers(existing, all);
  }

  lemma {:induction false} ValidatedEntries(s: Setting, i: nat, seen: set<string>)
    requires i <= |s.storages| && ValidateFrom(s, i, seen).None?
    ensures forall k :: i <= k < |s.storages| ==> Typed(s.storages[k]) && s.storages[k].id != ""
    decreases |s.storages| - i
  {
    if i < |s.storages| {
      ValidatedEntries(s, i + 1, seen + {s.storages[i].id});
    }
  }

  /** One accepted update keeps the registry sound, and every stored identity keeps resolving to a
      storage with the same namespace. */
  lemma UpdateKeepsRegistry(h: Digest, incoming: Setting, existing: Setting)
    requires Separates(h) && Sound(h, existing.storages) && FreshTruthful(h, existing.storages, incoming.storages)
    requires Prepared(h, incoming, Some(existing)).Accepted?
    ensures var result := Prepared(h, incoming, Some(existing)).setting;
            Sound(h, result.storages) && Keeps(existing.storages, result.storages)
  {
    var stored := Normalized(h, existing);
    NormalizedKeeps(h, existing);
    var adopted := Adopted(incoming, Some(stored)).setting;
    if adopted.storages != [] {
      ValidatedEntries(adopted, 0, {});
    }
    AdoptedEntries(h, incoming, existing.storages, stored);
    NormalizedRequest(h, stored.storages, adopted);
    var legacyRequest, request := adopted.storages == [], Normalized(h, adopted);
    MergeKeepsRegistry(h, legacyRequest, request, stored);
    var merged := Merged(h, legacyRequest, request, stored).setting;
    KeepsTransitive(existing.storages, stored.storages, merged.storages);
    NormalizedAfter(h, existing.storages, merged);
  }

  /** A merge is a sound registry that keeps the stored identities. */
  lemma MergeKeepsRegistry(h: Digest, legacyRequest: bool, request: Setting, stored: Setting)
    requires Separates(h) && Sound(h, stored.storages) && RequestEntries(h, stored.storages, request.storages)
    requires Merged(h, legacyRequest, request, stored).Accepted?
    ensures var merged := Merged(h, legacyRequest, request, stored).setting;
            Sound(h, merged.storages) && Keeps(stored.storages, merged.storages)
  {
    var matched := MatchedRequest(h, legacyRequest, request, stored);
    CompletedSafe(h, stored.storages, legacyRequest, matched);
  }

  lemma MatchedRequest(h: Digest, legacyRequest: bool, request: Setting, stored: Setting) returns (matched: Setting)
    requires RequestEntries(h, stored.storages, request.storages) && Sound(h, stored.storages)
    ensures matched == if legacyRequest then Matched(request, stored) else request
    ensures RequestEntries(h, stored.storages, matched.storages)
  {
    if legacyRequest {
      RequestAfterMatching(h, request, stored);
    }
    matched := if legacyRequest then Matched(request, stored) else request;
  }

  lemma NormalizedAfter(h: Digest, before: seq<Storage>, s: Setting)
    requires Separates(h) && Sound(h, s.storages) && Keeps(before, s.storages)
    ensures Sound(h, Normalized(h, s).storages) && Keeps(before, Normalized(h, s).storages)
  {
    NormalizedKeeps(h, s);
    KeepsTransitive(before, s.storages, Normalized(h, s).storages);
  }

  lemma AdoptedEntries(h: Digest, incoming: Setting, existing: seq<Storage>, stored: Setting)
    requires Sound(h, stored.storages) && Keeps(existing, stored.storages) && Named(existing) && DistinctIds(existing)
    requires FreshTruthful(h, existing, incoming.storages)
    requires Adopted(incoming, Some(stored)).Accepted?
    requires var a := Adopted(incoming, Some(stored)).setting;
             forall k :: 0 <= k < |a.storages| ==> Typed(a.storages[k]) && a.storages[k].id != ""
    ensures RequestEntries(h, stored.storages, Adopted(incoming, Some(stored)).setting.storages)
  {
    var a := Adopted(incoming, Some(stored)).setting;
    forall i | 0 <= i < |a.storages|
      ensures a.storages[i].id in Ids(stored.storages) || Truthful(h, a.storages[i])
    {
      var s := a.storages[i];
      if i < |incoming.storages| {
        assert incoming.storages[i] == s;
        if s.id in Ids(existing) {
          var e :| e in existing && e.Storage? && e.id == s.id;
          FindMember(existing, e);
          assert Find(stored.storages, s.id) in stored.storages;
        }
      } else {
        assert s in stored.storages;
      }
    }
  }

  // ----- Runs -----

  /** The stored setting after each request: an accepted one replaces it, a rejected one does not. */
  function Run(h: Digest, start: Setting, requests: seq<Setting>): Setting
    decreases |requests|
  {
    if requests == [] then start
    else
      match Prepared(h, requests[0], Some(start))
      case Accepted(next) => Run(h, next, requests[1..])
      case Rejected(_) => Run(h, start, requests[1..])
  }

  /** A run of one request stores what is accepted, and runs compose. */
  lemma {:induction false} RunsCompose(h: Digest, start: Setting, request: Setting, before: seq<Setting>, later: seq<Setting>)
    ensures Run(h, start, [request]) ==
      match Prepared(h, request, Some(start)) case Accepted(next) => next case Rejected(_) => start
    ensures Run(h, start, before + later) == Run(h, Run(h, start, before), later)
    decreases |before|
  {
    hide Prepared;
    if before == [] {
      assert before + later == later;
    } else {
      assert (before + later)[0] == before[0] && (before + later)[1..] == before[1..] + later;
      match Prepared(h, before[0], Some(start))
      case Accepted(next) => RunsCompose(h, next, request, before[1..], later);
      case Rejected(_) => RunsCompose(h, start, request, before[1..], later);
    }
  }

  /** Every request of the run treats identities that are not registered at that time honestly. */
  ghost predicate RunFreshTruthful(h: Digest, start: Setting, requests: seq<Setting>)
    decreases |requests|
  {
    requests == [] ||
    (FreshTruthful(h, start.storages, requests[0].storages) &&
     match Prepared(h, requests[0], Some(start))
     case Accepted(next) => RunFreshTruthful(h, next, requests[1..])
     case Rejected(_) => RunFreshTruthful(h, start, requests[1..]))
  }

  /** Over every run an identity once registered keeps resolving to the same physical namespace,
      and the registry stays sound. */
  lemma {:induction false} RunKeepsRegistry(h: Digest, start: Setting, requests: seq<Setting>)
    requires Separates(h) && Sound(h, start.storages) && RunFreshTruthful(h, start, requests)
    ensures Sound(h, Run(h, start, requests).storages)
    ensures Keeps(start.storages, Run(h, start, requests).storages)
    decreases |requests|
  {
    if requests != [] {
      match Prepared(h, requests[0], Some(start))
      case Accepted(next) =>
        UpdateKeepsRegistry(h, requests[0], start);
        RunKeepsRegistry(h, next, requests[1..]);
        KeepsTransitive(start.storages, next.storages, Run(h, start, requests).storages);
      case Rejected(_) => RunKeepsRegistry(h, start, requests[1..]);
    }
  }
}
