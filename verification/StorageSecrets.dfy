/** Which secret an update stores: what the request leaves out is filled in from what is stored. */
module StorageSecrets {
  import opened Outcomes
  import opened Texts
  import opened StorageModel
  import opened StorageNormalize
  import opened StorageUpdate
  import opened StorageSafety
  import opened StorageDefault

  // ----- Where a secret comes from -----

  /** The storage holds a secret of the access key. */
  predicate HoldsKey(t: Storage, key: string) {
    t.Storage? && t.config.Some? && t.config.value.accessKeyId == key && t.config.value.accessKeySecret != ""
  }

  /** It holds one for the same endpoint and region. */
  predicate HoldsScope(t: Storage, c: S3Config) {
    && HoldsKey(t, c.accessKeyId)
    && NormalizeEndpoint(t.config.value.endpoint) == NormalizeEndpoint(c.endpoint)
    && TrimSpace(t.config.value.region) == TrimSpace(c.region)
  }

  /** The storage may give its secret to the configuration: for its scope, or for its access key alone. */
  predicate Gives(t: Storage, c: S3Config, scoped: bool) {
    if scoped then HoldsScope(t, c) else HoldsKey(t, c.accessKeyId)
  }

  /** The secret is that of the first storage that may give one. */
  ghost predicate FirstGives(storages: seq<Storage>, c: S3Config, scoped: bool, secret: string) {
    exists i :: 0 <= i < |storages| && Gives(storages[i], c, scoped)
                && (forall k :: 0 <= k < i ==> !Gives(storages[k], c, scoped))
                && storages[i].Storage? && storages[i].config.Some? && storages[i].config.value.accessKeySecret == secret
  }

  ghost predicate NoneGives(storages: seq<Storage>, c: S3Config, scoped: bool) {
    forall i :: 0 <= i < |storages| ==> !Gives(storages[i], c, scoped)
  }

  /** The stored entry that the request's entry edits in place: the same identity and the same namespace. */
  ghost predicate EditsInPlace(existing: seq<Storage>, s: Storage, p: Storage)
    requires s.Storage?
  {
    p in existing && p.Storage? && p.id == s.id && NamespaceOf(p) == NamespaceOf(s)
  }

  /** The entry's identity is stored for another namespace. */
  ghost predicate EditsAway(existing: seq<Storage>, s: Storage)
    requires s.Storage?
  {
    exists p :: p in existing && p.Storage? && p.id == s.id && NamespaceOf(p) != NamespaceOf(s)
  }

  /** The secret of an S3 entry after the edit: its own; else the one of the stored entry that it edits
      in place; else the first one stored for its scope, or, for a request without named storages, for
      its access key; else none. */
  ghost predicate SecretAfter(existing: seq<Storage>, legacyRequest: bool, s: Storage, secret: string)
    requires s.Storage? && s.config.Some?
  {
    var c := s.config.value;
    if c.accessKeySecret != "" then secret == c.accessKeySecret
    else if exists p :: EditsInPlace(existing, s, p) && p.config.Some? then
      exists p :: EditsInPlace(existing, s, p) && p.config.Some? && secret == p.config.value.accessKeySecret
    else if !NoneGives(existing, c, true) then FirstGives(existing, c, true, secret)
    else if legacyRequest && !NoneGives(existing, c, false) then FirstGives(existing, c, false, secret)
    else secret == ""
  }

  lemma {:induction false} SourceGives(existing: seq<Storage>, c: S3Config, scoped: bool)
    ensures var r := if scoped then CredentialSource(existing, c) else LegacyCredentialSource(existing, c.accessKeyId);
      && (r == NoStorage <==> NoneGives(existing, c, scoped))
      && (r != NoStorage ==> r.config.Some? && r.config.value.accessKeySecret != ""
                             && FirstGives(existing, c, scoped, r.config.value.accessKeySecret))
  {
    if existing != [] && !Gives(existing[0], c, scoped) {
      SourceGives(existing[1..], c, scoped);
      NoneGivesRest(existing, c, scoped);
      var r := if scoped then CredentialSource(existing[1..], c) else LegacyCredentialSource(existing[1..], c.accessKeyId);
      if r != NoStorage {
        FirstGivesRest(existing, c, scoped, r.config.value.accessKeySecret);
      }
    }
  }

  lemma NoneGivesRest(storages: seq<Storage>, c: S3Config, scoped: bool)
    requires storages != [] && !Gives(storages[0], c, scoped)
    ensures NoneGives(storages, c, scoped) <==> NoneGives(storages[1..], c, scoped)
  {
    hide Gives;
    var rest := storages[1..];
    assert forall i :: 0 <= i < |rest| ==> rest[i] == storages[i + 1];
    assert forall i :: 0 < i < |storages| ==> storages[i] == rest[i - 1];
  }

  lemma FirstGivesRest(storages: seq<Storage>, c: S3Config, scoped: bool, secret: string)
    requires storages != [] && !Gives(storages[0], c, scoped) && FirstGives(storages[1..], c, scoped, secret)
    ensures FirstGives(storages, c, scoped, secret)
  {
    hide Gives;
    var rest := storages[1..];
    var i :| 0 <= i < |rest| && Gives(rest[i], c, scoped) && (forall k :: 0 <= k < i ==> !Gives(rest[k], c, scoped))
             && rest[i].Storage? && rest[i].config.Some? && rest[i].config.value.accessKeySecret == secret;
    assert storages[i + 1] == rest[i];
    assert forall k :: 0 < k < i + 1 ==> storages[k] == rest[k - 1];
  }

  // ----- The edit of one entry -----

  /** The edit changes an identity only when the entry moves, and of the rest nothing but the secret. */
  ghost predicate EditedTo(h: Digest, existing: seq<Storage>, legacyRequest: bool, s: Storage, e: Edited)
    requires s.Storage?
  {
    && (e.reidentified <==> EditsAway(existing, s))
    && e.s.Storage? && e.s.name == s.name && e.s.kind == s.kind
    && e.s.id == (if EditsAway(existing, s) then StorageId(h, s) else s.id)
    && (s.config.None? ==> e.s.config.None?)
    && (s.config.Some? ==>
          && e.s.config.Some?
          && e.s.config.value == s.config.value.(accessKeySecret := e.s.config.value.accessKeySecret)
          && SecretAfter(existing, legacyRequest, s, e.s.config.value.accessKeySecret))
  }

  lemma PreviousEntry(existing: seq<Storage>, s: Storage)
    requires s.Storage? && Named(existing) && DistinctIds(existing)
    ensures var p := ById(existing, s.id);
      && (NamespaceChanged(p, s) <==> EditsAway(existing, s))
      && (p.Storage? && !NamespaceChanged(p, s) ==> EditsInPlace(existing, s, p))
      && forall q :: EditsInPlace(existing, s, q) ==> q == p && !NamespaceChanged(p, s)
  {
    ByIdInDistinct(existing, s.id);
    var p := ById(existing, s.id);
    forall q | q in existing && q.Storage? && q.id == s.id ensures q == p {
      FindMember(existing, q);
      FindMember(existing, p);
    }
    NamespaceEqualExact(p, s);
  }

  /** Filling in the secret of an entry, given the stored entry that it edits in place, if any. */
  lemma BackfilledExactly(existing: seq<Storage>, legacyRequest: bool, p: Storage, s: Storage)
    requires s.Storage? && s.config.Some?
    requires forall q :: EditsInPlace(existing, s, q) ==> q == p
    requires p != NoStorage ==> EditsInPlace(existing, s, p)
    ensures var t := Backfilled(existing, legacyRequest, p, s);
      && t.Storage? && t.config.Some?
      && t == WithSecret(s, t.config.value.accessKeySecret)
      && SecretAfter(existing, legacyRequest, s, t.config.value.accessKeySecret)
  {
    hide CredentialSource, LegacyCredentialSource, NoneGives, FirstGives;
    SourceGives(existing, s.config.value, true);
    SourceGives(existing, s.config.value, false);
  }

  lemma BackfilledRenamed(existing: seq<Storage>, legacyRequest: bool, p: Storage, s: Storage, id: string)
    requires s.Storage?
    ensures var t := Backfilled(existing, legacyRequest, p, s);
      && t.Storage? && (s.config.None? ==> t == s)
      && Backfilled(existing, legacyRequest, p, s.(id := id)) == t.(id := id)
  {
    hide CredentialSource, LegacyCredentialSource;
  }

  /** The secret of an entry that the request leaves empty is filled in from what is stored. */
  lemma EditedExactly(h: Digest, existing: seq<Storage>, legacyRequest: bool, s: Storage)
    requires s.Storage? && Named(existing) && DistinctIds(existing)
    ensures EditedTo(h, existing, legacyRequest, s, EditEntry(h, existing, legacyRequest, s))
  {
    PreviousEntry(existing, s);
    hide ById, Backfilled, NamespaceChanged, EditsAway, EditsInPlace, SecretAfter, StorageId;
    var p := ById(existing, s.id);
    var source := if NamespaceChanged(p, s) then NoStorage else p;
    BackfilledRenamed(existing, legacyRequest, source, s, StorageId(h, s));
    if s.config.Some? {
      BackfilledExactly(existing, legacyRequest, source, s);
    }
  }

  /** An entry edited in place with an empty secret keeps the stored one, whatever its new name. */
  lemma SecretIsKept(h: Digest, existing: seq<Storage>, legacyRequest: bool, s: Storage, p: Storage)
    requires s.Storage? && Named(existing) && DistinctIds(existing)
    requires EditsInPlace(existing, s, p) && p.config.Some? && s.config.Some? && s.config.value.accessKeySecret == ""
    ensures EditEntry(h, existing, legacyRequest, s) ==
      Edited(s.(config := Some(s.config.value.(accessKeySecret := p.config.value.accessKeySecret))), false)
  {
    hide EditEntry, ById, EditsInPlace, EditsAway;
    EditedExactly(h, existing, legacyRequest, s);
    PreviousEntry(existing, s);
  }

  /** An entry that is not edited in place gets a secret exactly when one is stored for its scope, or,
      for a request without named storages, for its access key. */
  lemma SecretIsFound(h: Digest, existing: seq<Storage>, legacyRequest: bool, s: Storage)
    requires s.Storage? && Named(existing) && DistinctIds(existing)
    requires s.config.Some? && s.config.value.accessKeySecret == "" && forall p :: !EditsInPlace(existing, s, p)
    ensures var e := EditEntry(h, existing, legacyRequest, s).s;
      && e.config.Some?
      && (e.config.value.accessKeySecret != "" <==>
            exists t :: t in existing &&
              (HoldsScope(t, s.config.value) || (legacyRequest && HoldsKey(t, s.config.value.accessKeyId))))
  {
    hide EditEntry, EditsInPlace, EditsAway, Gives, NoneGives, FirstGives, HoldsKey, HoldsScope;
    EditedExactly(h, existing, legacyRequest, s);
    SomeGives(existing, s.config.value, true);
    SomeGives(existing, s.config.value, false);
    var e := EditEntry(h, existing, legacyRequest, s).s;
    FirstHasSecret(existing, s.config.value, true, e.config.value.accessKeySecret);
    FirstHasSecret(existing, s.config.value, false, e.config.value.accessKeySecret);
  }

  lemma FirstHasSecret(storages: seq<Storage>, c: S3Config, scoped: bool, secret: string)
    ensures FirstGives(storages, c, scoped, secret) ==> secret != ""
  {}

  lemma SomeGives(storages: seq<Storage>, c: S3Config, scoped: bool)
    ensures NoneGives(storages, c, scoped) <==>
      forall t :: t in storages ==> !(if scoped then HoldsScope(t, c) else HoldsKey(t, c.accessKeyId))
  {
    hide HoldsScope, HoldsKey;
    if NoneGives(storages, c, scoped) {
      forall t | t in storages ensures !Gives(t, c, scoped) {
        var i :| 0 <= i < |storages| && storages[i] == t;
      }
    }
  }

  // ----- When an update is rejected -----

  lemma {:induction false} PrevailingStays(entries: seq<Edited>, i: nat)
    requires AllPresent(entries) && i < |entries| && Prevails(entries, i)
    ensures entries[i] in ResolveAll(entries)
  {
    RepeatsResolved(entries, entries[i]);
    var resolved := ResolveAll(entries);
    var j :| 0 <= j < |resolved| && resolved[j].s.Storage? && resolved[j].s.id == entries[i].s.id
             && FromPrevailing(entries, resolved[j]);
    var k :| 0 <= k < |entries| && entries[k] == resolved[j] && Prevails(entries, k);
    assert k == i;
  }

  /** Of the edited entries one that stays lacks its secret. */
  ghost predicate SomeLacks(edited: seq<Edited>, id: string)
    requires AllPresent(edited)
  {
    exists i :: 0 <= i < |edited| && Prevails(edited, i) && WithoutSecret(edited[i].s) && edited[i].s.id == id
  }

  /** An access key is configured, its secret is not. */
  predicate WithoutSecret(s: Storage)
    requires s.Storage?
  {
    match s.config
    case Some(c) => c.accessKeyId != "" && c.accessKeySecret == ""
    case None => false
  }

  lemma {:induction false} MissingNames(storages: seq<Storage>)
    ensures MissingSecret(storages).Some? ==>
      exists s :: s in storages && LacksSecret(s) && MissingSecret(storages) == Some(SecretRequired(s.id))
  {
    if storages != [] {
      MissingNames(storages[1..]);
      if LacksSecret(storages[0]) {
        assert storages[0] in storages;
      }
    }
  }

  lemma ResolvedLacks(edited: seq<Edited>)
    requires AllPresent(edited)
    ensures match MissingSecret(Entries(ResolveAll(edited)))
      case None => forall id: string :: !SomeLacks(edited, id)
      case Some(e) => e.SecretRequired? && SomeLacks(edited, e.id)
  {
    hide ResolveAll, Prevails, MissingSecret;
    var resolved := ResolveAll(edited);
    MissingNames(Entries(resolved));
    match MissingSecret(Entries(resolved)) {
      case None =>
        forall i | 0 <= i < |edited| && Prevails(edited, i) ensures !LacksSecret(edited[i].s) {
          PrevailingStays(edited, i);
          var j :| 0 <= j < |resolved| && resolved[j] == edited[i];
          assert Entries(resolved)[j] == edited[i].s;
        }
      case Some(e) =>
        var s :| s in Entries(resolved) && LacksSecret(s) && e == SecretRequired(s.id);
        var j :| 0 <= j < |resolved| && Entries(resolved)[j] == s;
        ResolvedPrevail(edited);
        var i :| 0 <= i < |edited| && edited[i] == resolved[j] && Prevails(edited, i);
    }
  }

  /** The default of the request is unset, among its entries, or stored. */
  predicate DefaultKnown(incoming: Setting, stored: seq<Storage>) {
    incoming.defaultId == "" || incoming.defaultId in Ids(incoming.storages) || incoming.defaultId in Ids(stored)
  }

  /** A default that the request names without resending it is adopted from what is stored. */
  lemma AdoptedIff(incoming: Setting, stored: Setting)
    ensures match Adopted(incoming, Some(stored))
      case Rejected(e) => !DefaultKnown(incoming, stored.storages) && e == DefaultNotConfigured(incoming.defaultId)
      case Accepted(a) =>
        && DefaultKnown(incoming, stored.storages)
        && if incoming.defaultId == "" || incoming.defaultId in Ids(incoming.storages) then a == incoming
           else exists d :: d in stored.storages && d.Storage? && d.id == incoming.defaultId
                            && a == incoming.(storages := incoming.storages + [d])
  {
    FindIff(incoming.storages, incoming.defaultId);
    FindIff(stored.storages, incoming.defaultId);
  }

  lemma FindIff(storages: seq<Storage>, id: string)
    ensures Find(storages, id) != NoStorage <==> id != "" && id in Ids(storages)
  {}

  lemma MatchedNamed(legacyRequest: bool, request: Setting, stored: Setting) returns (matched: Setting)
    requires Named(request.storages) && Named(stored.storages)
    ensures matched == if legacyRequest then Matched(request, stored) else request
    ensures Named(matched.storages)
  {
    matched := if legacyRequest then Matched(request, stored) else request;
  }

  /** A merge is rejected exactly when an entry that stays lacks its secret, and names one of those. */
  lemma MergedIff(h: Digest, legacyRequest: bool, request: Setting, stored: Setting, matched: Setting)
    requires Named(request.storages) && Named(stored.storages) && Named(matched.storages)
    requires matched == if legacyRequest then Matched(request, stored) else request
    ensures var edited := EditAll(h, stored.storages, legacyRequest, matched.storages);
      && AllPresent(edited)
      && match Merged(h, legacyRequest, request, stored)
         case Accepted(_) => forall id: string :: !SomeLacks(edited, id)
         case Rejected(e) => e.SecretRequired? && SomeLacks(edited, e.id)
  {
    hide EditEntry, MissingSecret, ResolveAll, SomeLacks, Completed, Matched;
    var edited := EditAll(h, stored.storages, legacyRequest, matched.storages);
    forall i | 0 <= i < |edited| ensures edited[i].s.Storage? {
      NewIdExact(h, stored.storages, legacyRequest, matched.storages[i]);
    }
    ResolvedLacks(edited);
  }

  /** When an update is accepted: the default is known, named entries are well-formed, and no entry that
      stays lacks its secret. */
  lemma AcceptedIff(h: Digest, incoming: Setting, existing: Setting)
    ensures var stored := NormalizedNamed(h, existing);
      var r := Prepared(h, incoming, Some(existing));
      if !DefaultKnown(incoming, stored.storages) then r == Rejected(DefaultNotConfigured(incoming.defaultId))
      else
        var adopted := Adopted(incoming, Some(stored)).setting;
        if adopted.storages != [] && !WellFormedRequest(adopted) then r.Rejected? && Some(r.error) == Validate(adopted)
        else
          var edited := EditAll(h, stored.storages, adopted.storages == [], EditedRequest(h, incoming, existing).storages);
          && AllPresent(edited)
          && (r.Accepted? <==> forall id: string :: !SomeLacks(edited, id))
          && (r.Rejected? ==> r.error.SecretRequired? && SomeLacks(edited, r.error.id))
  {
    hide Normalized, Matched, Adopted, Validate, Merged, WellFormedRequest, SomeLacks, DefaultKnown, EditAll;
    var stored := NormalizedNamed(h, existing);
    AdoptedIff(incoming, stored);
    if Adopted(incoming, Some(stored)).Accepted? {
      var adopted := Adopted(incoming, Some(stored)).setting;
      ValidateIff(adopted);
      var request := NormalizedNamed(h, adopted);
      var matched := MatchedNamed(adopted.storages == [], request, stored);
      MergedIff(h, adopted.storages == [], request, stored, matched);
    }
  }

  /** The first setting is stored when its default is among its entries or unset, and named entries are well-formed. */
  lemma FirstSettingIff(h: Digest, incoming: Setting)
    ensures var r := Prepared(h, incoming, None);
      if !DefaultKnown(incoming, []) then r == Rejected(DefaultNotConfigured(incoming.defaultId))
      else if incoming.storages != [] && !WellFormedRequest(incoming) then r.Rejected? && Some(r.error) == Validate(incoming)
      else r == Accepted(Normalized(h, incoming))
  {
    hide Normalized, Validate, WellFormedRequest;
    FindIff(incoming.storages, incoming.defaultId);
    ValidateIff(incoming);
  }

  // ----- What an accepted update stores -----

  /** Normalizing a sound registry keeps each entry, with its configuration. */
  lemma NormalizedHolds(h: Digest, s: Setting, x: Storage)
    requires Sound(h, s.storages) && x in s.storages
    ensures NormalizeStorage(h, x) in Normalized(h, s).storages
  {
    hide NormalizeStorage, Sound, KeepFirst, Find, FindEquivalent, DefaultFirst;
    KeepFirstOfSound(h, s.storages);
    var i :| 0 <= i < |s.storages| && s.storages[i] == x;
    var y := KeepFirst(h, s.storages)[i];
    var f := WithFallback(h, Registered(h, s));
    assert y in f.storages;
    FallbackNamed(h, Registered(h, s));
    DefaultFirstKeeps(f);
    assert y in multiset(DefaultFirst(f).storages);
  }

  /** The entry is the first of the request with its identity, and no entry that moves takes it over. */
  ghost predicate Undisputed(h: Digest, existing: seq<Storage>, storages: seq<Storage>, i: nat)
    requires Named(storages) && i < |storages|
  {
    && (forall k :: 0 <= k < i ==> storages[k].id != storages[i].id)
    && (forall k :: 0 <= k < |storages| && EditsAway(existing, storages[k]) ==> StorageId(h, storages[k]) != storages[i].id)
  }

  lemma UndisputedPrevails(h: Digest, existing: seq<Storage>, legacyRequest: bool, storages: seq<Storage>, i: nat, p: Storage)
    requires Named(storages) && Named(existing) && DistinctIds(existing)
    requires i < |storages| && EditsInPlace(existing, storages[i], p) && Undisputed(h, existing, storages, i)
    ensures var edited := EditAll(h, existing, legacyRequest, storages);
      AllPresent(edited) && Prevails(edited, i) && !edited[i].reidentified
  {
    hide EditEntry, EditsInPlace, EditsAway, StorageId, SecretAfter;
    var edited := EditAll(h, existing, legacyRequest, storages);
    forall k | 0 <= k < |edited| ensures EditedTo(h, existing, legacyRequest, storages[k], edited[k]) {
      EditedExactly(h, existing, legacyRequest, storages[k]);
    }
    PreviousEntry(existing, storages[i]);
  }

  lemma StoredAfter(h: Digest, merged: Setting, x: Storage)
    requires Separates(h) && Sound(h, merged.storages) && x in merged.storages
    ensures x.Storage?
    ensures var t := Find(Normalized(h, merged).storages, x.id); t.Storage? && t.kind == x.kind && t.config == x.config
  {
    hide Normalized, NormalizeStorage, Truthful, Steady;
    NormalizedKeeps(h, merged);
    NormalizedHolds(h, merged, x);
    var i :| 0 <= i < |merged.storages| && merged.storages[i] == x;
    NormalizedEntry(h, x);
    FindMember(Normalized(h, merged).storages, NormalizeStorage(h, x));
  }

  /** What an accepted update stores for an entry that stays. */
  lemma MergeStores(h: Digest, legacyRequest: bool, request: Setting, stored: Setting, matched: Setting, i: nat)
    requires Separates(h) && Sound(h, stored.storages) && RequestEntries(h, stored.storages, request.storages)
    requires Named(request.storages) && Named(stored.storages)
    requires matched == (if legacyRequest then Matched(request, stored) else request) && Named(matched.storages)
    requires Merged(h, legacyRequest, request, stored).Accepted? && i < |matched.storages|
    requires var edited := EditAll(h, stored.storages, legacyRequest, matched.storages); AllPresent(edited) && Prevails(edited, i)
    ensures var merged, e := Merged(h, legacyRequest, request, stored).setting, EditEntry(h, stored.storages, legacyRequest, matched.storages[i]);
      && Sound(h, merged.storages) && e.s.Storage?
      && var t := Find(Normalized(h, merged).storages, e.s.id);
      && t.Storage? && t.kind == e.s.kind && t.config == e.s.config
  {
    hide Normalized, Matched, MissingSecret, RequestEntries, Sound, EditEntry, Prevails, Preserved, ResolveAll, EditedDefaults;
    MergeKeepsRegistry(h, legacyRequest, request, stored);
    var edited := EditAll(h, stored.storages, legacyRequest, matched.storages);
    PrevailingStays(edited, i);
    var resolved := ResolveAll(edited);
    var j :| 0 <= j < |resolved| && resolved[j] == edited[i];
    assert Entries(resolved)[j] == edited[i].s;
    StoredAfter(h, Merged(h, legacyRequest, request, stored).setting, edited[i].s);
  }

  /** The storage has the kind and the configuration of the entry, an empty secret filled in from the previous one. */
  predicate EditInPlace(s: Storage, p: Storage, t: Storage)
    requires s.Storage? && p.Storage? && (s.config.Some? ==> p.config.Some?)
  {
    && t.Storage? && t.kind == s.kind
    && t.config == if s.config.Some? && s.config.value.accessKeySecret == ""
                   then Some(s.config.value.(accessKeySecret := p.config.value.accessKeySecret)) else s.config
  }

  lemma EditedInPlace(h: Digest, existing: seq<Storage>, legacyRequest: bool, s: Storage, p: Storage)
    requires s.Storage? && Named(existing) && DistinctIds(existing) && EditsInPlace(existing, s, p)
    requires s.config.Some? ==> p.config.Some?
    ensures var t := EditEntry(h, existing, legacyRequest, s).s; t.Storage? && t.id == s.id && EditInPlace(s, p, t)
  {
    hide ById, EditEntry, StorageId, NoneGives, FirstGives, EditsAway;
    EditedExactly(h, existing, legacyRequest, s);
    PreviousEntry(existing, s);
  }

  /** After an accepted update an undisputed entry that is edited in place is stored under its identity
      as the request states it; one without a secret keeps the stored secret. */
  lemma EditInPlaceIsStored(h: Digest, incoming: Setting, existing: Setting, i: nat, p: Storage)
    requires Separates(h) && Sound(h, existing.storages) && FreshTruthful(h, existing.storages, incoming.storages)
    requires Prepared(h, incoming, Some(existing)).Accepted?
    requires var stored, request := NormalizedNamed(h, existing).storages, EditedRequest(h, incoming, existing);
      && Named(request.storages) && i < |request.storages|
      && EditsInPlace(stored, request.storages[i], p) && Undisputed(h, stored, request.storages, i)
      && (request.storages[i].config.Some? ==> p.config.Some?)
    ensures var s := EditedRequest(h, incoming, existing).storages[i];
      EditInPlace(s, p, Find(Prepared(h, incoming, Some(existing)).setting.storages, s.id))
  {
    hide Normalized, Matched, Validate, Merged, RequestEntries, Sound, Truthful, EditEntry, EditInPlace, EditsAway, Undisputed, Prevails, Find;
    var stored := NormalizedNamed(h, existing);
    NormalizedKeeps(h, existing);
    SoundIsDistinct(h, stored.storages);
    var adopted := Adopted(incoming, Some(stored)).setting;
    var request := NormalizedNamed(h, adopted);
    var legacyRequest := adopted.storages == [];
    RequestIsTyped(h, incoming, existing, adopted);
    var matched := MatchedNamed(legacyRequest, request, stored);
    UndisputedPrevails(h, stored.storages, legacyRequest, matched.storages, i, p);
    MergeStores(h, legacyRequest, request, stored, matched, i);
    EditedInPlace(h, stored.storages, legacyRequest, matched.storages[i], p);
    StoredLikeEdited(matched.storages[i], p, EditEntry(h, stored.storages, legacyRequest, matched.storages[i]).s,
                     Find(Normalized(h, Merged(h, legacyRequest, request, stored).setting).storages, matched.storages[i].id));
  }

  lemma StoredLikeEdited(s: Storage, p: Storage, e: Storage, t: Storage)
    requires s.Storage? && p.Storage? && (s.config.Some? ==> p.config.Some?) && e.Storage? && EditInPlace(s, p, e)
    requires t.Storage? && t.kind == e.kind && t.config == e.config
    ensures EditInPlace(s, p, t)
  {}

  lemma SoundIsDistinct(h: Digest, storages: seq<Storage>)
    requires Sound(h, storages)
    ensures Named(storages) && DistinctIds(storages)
  {}
}
