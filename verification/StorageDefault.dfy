/** Where the default goes when an update gives storages new identities. */
module StorageDefault {
  import opened Outcomes
  import opened Texts
  import opened StorageModel
  import opened StorageNormalize
  import opened StorageUpdate
  import opened StorageSafety

  /** The entry gets a new identity: the stored one with its identity is another namespace. */
  predicate Moves(existing: seq<Storage>, s: Storage)
    requires s.Storage?
  {
    NamespaceChanged(ById(existing, s.id), s)
  }

  /** The identity of an entry after the edit. */
  function NewId(h: Digest, existing: seq<Storage>, s: Storage): string
    requires s.Storage?
  {
    if Moves(existing, s) then StorageId(h, s) else s.id
  }

  lemma NewIdExact(h: Digest, existing: seq<Storage>, legacyRequest: bool, s: Storage)
    requires s.Storage?
    ensures EditEntry(h, existing, legacyRequest, s).s.Storage?
    ensures EditEntry(h, existing, legacyRequest, s).s.id == NewId(h, existing, s)
  {}

  /** The entry that the default of entry j belongs to after n entries: each moving entry that
      still carries the default's identity takes it along. */
  function Holder(h: Digest, existing: seq<Storage>, storages: seq<Storage>, j: nat, n: nat): (r: nat)
    requires Named(storages) && j < n <= |storages|
    ensures j <= r < n
  {
    if n == j + 1 then j
    else
      var held := Holder(h, existing, storages, j, n - 1);
      if Moves(existing, storages[n - 1]) && storages[n - 1].id == NewId(h, existing, storages[held]) then n - 1 else held
  }

  /** A later entry that moves carries the identity that entry j has got. */
  predicate TakenOver(h: Digest, existing: seq<Storage>, storages: seq<Storage>, j: nat, n: nat)
    requires Named(storages) && j < n <= |storages|
  {
    exists i :: j < i < n && Moves(existing, storages[i]) && storages[i].id == NewId(h, existing, storages[j])
  }

  lemma {:induction false} DefaultUntouched(h: Digest, existing: seq<Storage>, defaultId: string, storages: seq<Storage>, n: nat)
    requires Named(storages) && n <= |storages| && forall i :: 0 <= i < n ==> storages[i].id != defaultId
    ensures EditedDefaults(h, existing, defaultId, storages[..n]) == defaultId
  {
    if n > 0 {
      assert storages[..n][..n - 1] == storages[..n - 1];
      DefaultUntouched(h, existing, defaultId, storages, n - 1);
    }
  }

  lemma {:induction false} DefaultHeld(h: Digest, existing: seq<Storage>, defaultId: string, storages: seq<Storage>, j: nat, n: nat)
    requires Named(storages) && j < n <= |storages|
    requires storages[j].id == defaultId && forall i :: 0 <= i < j ==> storages[i].id != defaultId
    ensures EditedDefaults(h, existing, defaultId, storages[..n]) ==
            NewId(h, existing, storages[Holder(h, existing, storages, j, n)])
    decreases n
  {
    assert storages[..n][..n - 1] == storages[..n - 1];
    if n == j + 1 {
      DefaultUntouched(h, existing, defaultId, storages, j);
    } else {
      DefaultHeld(h, existing, defaultId, storages, j, n - 1);
    }
  }

  lemma {:induction false} HolderStaysIff(h: Digest, existing: seq<Storage>, storages: seq<Storage>, j: nat, n: nat)
    requires Named(storages) && j < n <= |storages|
    ensures Holder(h, existing, storages, j, n) == j <==> !TakenOver(h, existing, storages, j, n)
    decreases n
  {
    if n > j + 1 {
      HolderStaysIff(h, existing, storages, j, n - 1);
      if Moves(existing, storages[n - 1]) && storages[n - 1].id == NewId(h, existing, storages[j]) {
        assert TakenOver(h, existing, storages, j, n);
      }
      if i :| j < i < n && Moves(existing, storages[i]) && storages[i].id == NewId(h, existing, storages[j]) {
        assert i < n - 1 ==> TakenOver(h, existing, storages, j, n - 1);
      }
    }
  }

  /** The default ends as the new identity of the entry that holds it; that is the request's
      default entry if and only if no later entry that moves carried the identity it has got. */
  lemma DefaultStaysIff(h: Digest, existing: seq<Storage>, defaultId: string, storages: seq<Storage>, j: nat)
    requires Named(storages) && j < |storages|
    requires storages[j].id == defaultId && forall i :: 0 <= i < j ==> storages[i].id != defaultId
    ensures var held := Holder(h, existing, storages, j, |storages|);
      && EditedDefaults(h, existing, defaultId, storages) == NewId(h, existing, storages[held])
      && (held == j <==> !TakenOver(h, existing, storages, j, |storages|))
  {
    assert storages[..|storages|] == storages;
    DefaultHeld(h, existing, defaultId, storages, j, |storages|);
    HolderStaysIff(h, existing, storages, j, |storages|);
  }

  // ----- The stored default -----

  /** Normalization keeps a default that names an entry. */
  lemma {:induction false} KeepFirstKeepsId(h: Digest, storages: seq<Storage>, s: Storage)
    requires s in storages && s.Storage? && s.id != ""
    ensures exists t :: t in KeepFirst(h, storages) && t.Storage? && t.id == s.id
    decreases |storages|
  {
    hide NormalizeStorage;
    var k := |storages| - 1;
    NormalizedId(h, storages[k]);
    if storages[k] != s {
      assert storages == storages[..k] + [storages[k]];
      KeepFirstKeepsId(h, storages[..k], s);
    } else if NormalizeStorage(h, s) !in KeepFirst(h, storages) {
      assert s.id in Ids(KeepFirst(h, storages[..k]));
    }
  }

  lemma NormalizedId(h: Digest, s: Storage)
    ensures s.Storage? && s.id != "" ==> NormalizeStorage(h, s).Storage? && NormalizeStorage(h, s).id == s.id
  {}

  lemma NormalizedKeepsDefault(h: Digest, s: Setting)
    requires Find(s.storages, s.defaultId).Storage?
    ensures Normalized(h, s).defaultId == s.defaultId
  {
    hide KeepFirst, NormalizeStorage, Find, FindEquivalent;
    KeepFirstKeepsId(h, s.storages, Find(s.storages, s.defaultId));
    var t :| t in KeepFirst(h, s.storages) && t.Storage? && t.id == s.defaultId;
    assert t in Registered(h, s).storages;
    DefaultFirstKeepsFields(WithFallback(h, Registered(h, s)));
  }

  /** The new identity of a typed entry is an identity. */
  lemma NewIdPresent(h: Digest, existing: seq<Storage>, s: Storage)
    requires Separates(h) && Typed(s) && s.id != ""
    ensures NewId(h, existing, s) != ""
  {
    if Moves(existing, s) {
      GeneratedIdTruthful(h, s.(id := StorageId(h, s)));
    }
  }

  /** A merge stores an entry with the identity that its default has got. */
  lemma MergedHoldsId(h: Digest, existing: seq<Storage>, legacyRequest: bool, matched: Setting, i: nat)
    requires Separates(h) && Named(matched.storages) && i < |matched.storages| && Typed(matched.storages[i])
    ensures var resolved := Entries(ResolveAll(EditAll(h, existing, legacyRequest, matched.storages)));
      Find(resolved + Preserved(existing, Ids(resolved)), NewId(h, existing, matched.storages[i])).Storage?
  {
    hide EditEntry, NewId, Find, Resolve, ResolveAll;
    var id := NewId(h, existing, matched.storages[i]);
    var edited := EditAll(h, existing, legacyRequest, matched.storages);
    forall k | 0 <= k < |edited| ensures edited[k].s.Storage? {
      NewIdExact(h, existing, legacyRequest, matched.storages[k]);
    }
    NewIdExact(h, existing, legacyRequest, matched.storages[i]);
    NewIdPresent(h, existing, matched.storages[i]);
    ResolvedKeepsId(edited, edited[i]);
    var r :| r in ResolveAll(edited) && r.s.id == id;
    var k :| 0 <= k < |ResolveAll(edited)| && ResolveAll(edited)[k] == r;
    var resolved := Entries(ResolveAll(edited));
    assert resolved[k] == r.s && r.s in resolved + Preserved(existing, Ids(resolved));
  }

  /** The request as it is edited: normalized, and a request without named storages matched with
      the stored ones. */
  function EditedRequest(h: Digest, incoming: Setting, existing: Setting): Setting
    requires Adopted(incoming, Some(NormalizedNamed(h, existing))).Accepted?
  {
    var stored := NormalizedNamed(h, existing);
    var adopted := Adopted(incoming, Some(stored)).setting;
    var request := NormalizedNamed(h, adopted);
    if adopted.storages == [] then Matched(request, stored) else request
  }

  lemma {:induction false} ReplacedAt(storages: seq<Storage>, before: Storage, after: Storage) returns (i: nat)
    requires before in storages
    ensures i < |storages| && storages[i] == before && ReplaceFirst(storages, before, after) == storages[i := after]
  {
    if storages[0] == before {
      i := 0;
      assert storages[0 := after] == [after] + storages[1..];
    } else {
      var rest := storages[1..];
      var k := ReplacedAt(rest, before, after);
      i := k + 1;
      assert storages == [storages[0]] + rest;
      assert ([storages[0]] + rest)[k + 1 := after] == [storages[0]] + rest[k := after];
    }
  }

  /** The stored storage that a request without named storages reconfigures: the first with the
      namespace of its default. */
  ghost predicate Reconfigures(existing: seq<Storage>, d: Storage, m: Storage)
    requires d.Storage?
  {
    m.Storage? && exists i :: 0 <= i < |existing| && existing[i] == m && NamespaceOf(m) == NamespaceOf(d)
                              && forall k :: 0 <= k < i ==> !NamespaceEqual(existing[k], d)
  }

  lemma {:induction false} FirstEquivalent(existing: seq<Storage>, d: Storage)
    requires d.Storage?
    ensures var m := FindEquivalent(existing, d); m != NoStorage ==> Reconfigures(existing, d, m)
  {
    var m := FindEquivalent(existing, d);
    if m != NoStorage {
      NamespaceEqualExact(m, d);
      if existing[0] != m {
        FirstEquivalent(existing[1..], d);
        var i :| 0 <= i < |existing[1..]| && existing[1..][i] == m && forall k :: 0 <= k < i ==> !NamespaceEqual(existing[1..][k], d);
        assert existing[i + 1] == m;
        assert forall k :: 0 < k <= i ==> existing[k] == existing[1..][k - 1];
      }
    }
  }

  /** The default of a request without named storages takes over the identity of the storage that it
      reconfigures, and its name if it has none of its own; nothing else changes. */
  lemma MatchedExactly(request: Setting, existing: Setting)
    requires Named(request.storages) && Named(existing.storages)
    ensures var r := Matched(request, existing);
      var d := Find(request.storages, request.defaultId);
      if d == NoStorage || forall m :: m in existing.storages ==> NamespaceOf(m) != NamespaceOf(d) then r == request
      else exists i, m ::
        && 0 <= i < |request.storages| && request.storages[i] == d && Reconfigures(existing.storages, d, m)
        && r == request.(defaultId := m.id, storages := request.storages[i :=
             d.(id := m.id, name := if d.name == DefaultName(d) then m.name else d.name)])
  {
    hide Find, FindEquivalent, Reconfigures, ReplaceFirst, NamespaceEqual, DefaultName;
    var d := Find(request.storages, request.defaultId);
    if d != NoStorage {
      forall m | m in existing.storages ensures NamespaceEqual(m, d) <==> NamespaceOf(m) == NamespaceOf(d) {
        NamespaceEqualExact(m, d);
      }
      var m := FindEquivalent(existing.storages, d);
      if m != NoStorage {
        FirstEquivalent(existing.storages, d);
        var i := ReplacedAt(request.storages, d, d.(id := m.id, name := if d.name == DefaultName(d) then m.name else d.name));
      }
    }
  }

  lemma MatchedHead(request: Setting, existing: Setting)
    requires Named(request.storages) && Named(existing.storages)
    requires request.storages != [] && request.storages[0].id == request.defaultId
    ensures var m := Matched(request, existing); m.storages != [] && m.storages[0].id == m.defaultId
  {
    assert Find(request.storages, request.defaultId) == request.storages[0];
  }

  /** The default entry heads the request that is edited. After an accepted update the stored
      default is the new identity of the entry that holds the default, and that is still the
      request's default entry if and only if no later entry that moves carried its new identity. */
  lemma UpdatedDefault(h: Digest, incoming: Setting, existing: Setting)
    requires Separates(h) && Sound(h, existing.storages) && FreshTruthful(h, existing.storages, incoming.storages)
    requires Prepared(h, incoming, Some(existing)).Accepted?
    ensures var stored := NormalizedNamed(h, existing).storages;
      var request := EditedRequest(h, incoming, existing);
      && Named(request.storages) && request.storages != [] && request.storages[0].id == request.defaultId
      && var held := Holder(h, stored, request.storages, 0, |request.storages|);
      && Prepared(h, incoming, Some(existing)).setting.defaultId == NewId(h, stored, request.storages[held])
      && (held == 0 <==> !TakenOver(h, stored, request.storages, 0, |request.storages|))
  {
    hide Normalized, Matched, Validate, EditedDefaults, Holder, TakenOver, NewId, MissingSecret, RequestEntries, Sound, Truthful;
    var stored := NormalizedNamed(h, existing);
    NormalizedKeeps(h, existing);
    var adopted := Adopted(incoming, Some(stored)).setting;
    var request := NormalizedNamed(h, adopted);
    var legacyRequest := adopted.storages == [];
    RequestIsTyped(h, incoming, existing, adopted);
    NormalForm(h, adopted);
    MatchedHead(request, stored);
    var matched := MatchedRequest(h, legacyRequest, request, stored);
    DefaultStaysIff(h, stored.storages, matched.defaultId, matched.storages, 0);
    var held := Holder(h, stored.storages, matched.storages, 0, |matched.storages|);
    EntryIsTyped(h, stored.storages, matched.storages, held);
    MergedHoldsId(h, stored.storages, legacyRequest, matched, held);
    NormalizedKeepsDefault(h, Merged(h, legacyRequest, request, stored).setting);
  }

  lemma EntryIsTyped(h: Digest, existing: seq<Storage>, storages: seq<Storage>, i: nat)
    requires RequestEntries(h, existing, storages) && i < |storages|
    ensures Typed(storages[i])
  {}

  lemma RequestIsTyped(h: Digest, incoming: Setting, existing: Setting, adopted: Setting)
    requires Separates(h) && Sound(h, existing.storages) && FreshTruthful(h, existing.storages, incoming.storages)
    requires Prepared(h, incoming, Some(existing)).Accepted?
    requires Adopted(incoming, Some(Normalized(h, existing))) == Accepted(adopted)
    ensures RequestEntries(h, Normalized(h, existing).storages, Normalized(h, adopted).storages)
  {
    hide Normalized, Truthful, Matched, Merged;
    var stored := Normalized(h, existing);
    NormalizedKeeps(h, existing);
    if adopted.storages != [] {
      ValidatedEntries(adopted, 0, {});
    }
    AdoptedEntries(h, incoming, existing.storages, stored);
    NormalizedRequest(h, stored.storages, adopted);
  }

  // ----- A swap -----

  function S3Storage(id: string, name: string, c: S3Config): Storage {
    Storage(id, name, S3Kind, Some(c))
  }

  /** Two S3 storages with the first as the default, and the legacy fields that mirror it. */
  function Pair(x: Storage, y: Storage): Setting
    requires x.Storage?
  {
    Setting([x, y], x.id, S3Kind, x.config)
  }

  predicate Usable(s: Storage) {
    s.Storage? && s.id != "" && s.kind == S3Kind && s.config.Some? && TrimSpace(s.name) != []
    && s.config.value.accessKeySecret != ""
  }

  lemma PairKept(h: Digest, x: Storage, y: Storage)
    requires Usable(x) && Usable(y) && x.id != y.id
    ensures KeepFirst(h, [x, y]) == [x, y]
  {
    hide TrimSpace;
    var both := [x, y];
    assert both[..1] == [x] && both[..1][..0] == [];
    assert KeepFirst(h, both[..1][..0]) == [];
    assert KeepFirst(h, both[..1]) == [x];
    assert y.id !in Ids([x]);
  }

  lemma PairIsNormal(h: Digest, x: Storage, y: Storage)
    requires Usable(x) && Usable(y) && x.id != y.id
    ensures Normalized(h, Pair(x, y)) == Pair(x, y)
  {
    hide KeepFirst;
    PairKept(h, x, y);
    var s := Pair(x, y);
    assert FindEquivalent(s.storages, LegacyS3(x.config.value)) == x by {
      NamespaceEqualExact(x, LegacyS3(x.config.value));
    }
    assert Find(s.storages, x.id) == x;
    assert IndexAfterHead(s.storages, x.id, 1) == 2;
  }

  lemma PairIsSound(h: Digest, x: Storage, y: Storage)
    requires Separates(h) && Usable(x) && Usable(y) && x.id != y.id
    requires x.id == StorageId(h, x) && y.id == StorageId(h, y)
    ensures Sound(h, [x, y])
  {
    GeneratedIdTruthful(h, x);
    GeneratedIdTruthful(h, y);
  }

  /** An edit keeps a secret that is given, so that a merge of usable entries is not rejected. */
  lemma UsableMerge(h: Digest, request: Setting, stored: Setting)
    requires Named(request.storages) && Named(stored.storages)
    requires forall i :: 0 <= i < |request.storages| ==> Usable(request.storages[i])
    ensures Merged(h, false, request, stored).Accepted?
  {
    hide ResolveAll;
    var edited := EditAll(h, stored.storages, false, request.storages);
    forall i | 0 <= i < |edited| ensures !LacksSecret(edited[i].s) {
      assert Usable(request.storages[i]);
    }
    var resolved := ResolveAll(edited);
    forall s | s in Entries(resolved) ensures !LacksSecret(s) {
      var i :| 0 <= i < |resolved| && Entries(resolved)[i] == s;
      assert resolved[i] in edited;
    }
  }

  lemma PairAccepted(h: Digest, x: Storage, y: Storage, stored: Setting)
    requires Usable(x) && Usable(y) && x.id != y.id && Normalized(h, stored) == stored && Named(stored.storages)
    ensures Prepared(h, Pair(x, y), Some(stored)).Accepted?
    ensures Adopted(Pair(x, y), Some(stored)).Accepted? && EditedRequest(h, Pair(x, y), stored) == Pair(x, y)
  {
    hide Normalized, Merged, ValidateFrom;
    var incoming := Pair(x, y);
    assert Find(incoming.storages, x.id) == x;
    assert x in incoming.storages && DistinctIds(incoming.storages);
    ValidateIff(incoming);
    PairIsNormal(h, x, y);
    UsableMerge(h, incoming, stored);
  }

  /** A request that swaps the namespaces of two storages is accepted, and the stored default is the
      storage that the request did not mean: its default entry has the namespace of d, the stored one c. */
  lemma SwapMovesDefault(h: Digest, c: S3Config, d: S3Config)
    requires Separates(h) && ConfigNamespace(c) != ConfigNamespace(d)
    requires c.accessKeySecret != "" && d.accessKeySecret != ""
    ensures var a, b := h(ConfigNamespace(c)), h(ConfigNamespace(d));
      var existing := Pair(S3Storage(a, "A", c), S3Storage(b, "B", d));
      var incoming := Pair(S3Storage(a, "A", d), S3Storage(b, "B", c));
      var update := Prepared(h, incoming, Some(existing));
      && update.Accepted? && update.setting.defaultId == a
      && Find(update.setting.storages, a).Storage?
      && NamespaceOf(Find(update.setting.storages, a)) == ConfigNamespace(c)
      && NamespaceOf(Find(incoming.storages, incoming.defaultId)) == ConfigNamespace(d)
  {
    hide Prepared, Normalized, Usable, EditedRequest, Adopted, Sound, FreshTruthful, Holder, NewId;
    var a, b := h(ConfigNamespace(c)), h(ConfigNamespace(d));
    var p, q := S3Storage(a, "A", c), S3Storage(b, "B", d);
    var x, y := S3Storage(a, "A", d), S3Storage(b, "B", c);
    SwapUsable(h, c, d);
    PairIsNormal(h, p, q);
    PairIsSound(h, p, q);
    PairAccepted(h, x, y, Pair(p, q));
    SwapIsFresh(h, p, q, x, y);
    UpdatedDefault(h, Pair(x, y), Pair(p, q));
    SwapHolder(h, c, d);
    UpdateKeepsRegistry(h, Pair(x, y), Pair(p, q));
    assert Find([p, q], a) == p && Find([x, y], a) == x;
  }

  lemma SwapUsable(h: Digest, c: S3Config, d: S3Config)
    requires Separates(h) && ConfigNamespace(c) != ConfigNamespace(d)
    requires c.accessKeySecret != "" && d.accessKeySecret != ""
    ensures var a, b := h(ConfigNamespace(c)), h(ConfigNamespace(d));
      && a != b && a != "" && b != ""
      && Usable(S3Storage(a, "A", c)) && Usable(S3Storage(b, "B", d))
      && Usable(S3Storage(a, "A", d)) && Usable(S3Storage(b, "B", c))
  {
    NotBlank("A");
    NotBlank("B");
  }

  lemma SwapIsFresh(h: Digest, p: Storage, q: Storage, x: Storage, y: Storage)
    requires p.Storage? && q.Storage? && x.Storage? && y.Storage? && x.id == p.id && y.id == q.id
    ensures FreshTruthful(h, [p, q], [x, y])
  {
    assert p in [p, q] && q in [p, q];
  }

  lemma SwapHolder(h: Digest, c: S3Config, d: S3Config)
    requires Separates(h) && ConfigNamespace(c) != ConfigNamespace(d)
    ensures var a, b := h(ConfigNamespace(c)), h(ConfigNamespace(d));
      var existing := [S3Storage(a, "A", c), S3Storage(b, "B", d)];
      var request := [S3Storage(a, "A", d), S3Storage(b, "B", c)];
      Named(request) && Holder(h, existing, request, 0, 2) == 1 && NewId(h, existing, request[1]) == a
  {
    var a, b := h(ConfigNamespace(c)), h(ConfigNamespace(d));
    var p, q := S3Storage(a, "A", c), S3Storage(b, "B", d);
    var existing := [p, q];
    assert existing[..1] == [p] && existing[..1][..0] == [];
    assert ById(existing[..1], a) == p;
    assert ById(existing, a) == p && ById(existing, b) == q;
  }
}
