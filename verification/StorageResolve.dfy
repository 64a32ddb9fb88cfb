/** Which storage serves an attachment, and further guarantees of the registry. */
module StorageResolve {
  import opened Outcomes
  import opened Texts
  import opened StorageModel
  import opened StorageNormalize
  import opened StorageUpdate
  import opened StorageSafety

  /** The storage of an attachment: the registered entry, else the one that addresses the
      attachment's own or the setting's legacy configuration, else that configuration itself. */
  function ResolveStorage(s: Setting, id: string, legacy: Option<S3Config>): Option<Storage> {
    if Find(s.storages, id) != NoStorage then Some(Find(s.storages, id))
    else
      var config := if legacy.Some? then legacy else s.s3;
      match config
      case None => None
      case Some(c) =>
        var configured := FindEquivalent(s.storages, LegacyS3(c));
        Some(if configured != NoStorage then configured else LegacyS3(c))
  }

  /** Over every run of updates, an attachment that refers to a registered storage resolves to that
      identity and to the same physical namespace, whatever legacy configuration it carries. */
  lemma AttachmentsKeepResolving(h: Digest, start: Setting, requests: seq<Setting>, id: string, legacy: Option<S3Config>)
    requires Separates(h) && Sound(h, start.storages) && RunFreshTruthful(h, start, requests)
    requires Find(start.storages, id).Storage?
    ensures var r := ResolveStorage(Run(h, start, requests), id, legacy);
      r.Some? && r.value.Storage? && r.value.id == id && NamespaceOf(r.value) == NamespaceOf(Find(start.storages, id))
  {
    RunKeepsRegistry(h, start, requests);
  }

  /** An attachment with an embedded configuration and no registered identity always resolves to
      the namespace of that configuration, and to a registered storage if one has that namespace. */
  lemma LegacyAttachmentNamespace(s: Setting, id: string, c: S3Config)
    requires Find(s.storages, id) == NoStorage
    ensures var r := ResolveStorage(s, id, Some(c));
      && r.Some? && r.value.Storage? && NamespaceOf(r.value) == ConfigNamespace(c)
      && forall t :: t in s.storages && t.Storage? && NamespaceOf(t) == ConfigNamespace(c) ==> r.value in s.storages
  {
    NamespaceEqualExact(FindEquivalent(s.storages, LegacyS3(c)), LegacyS3(c));
    forall t | t in s.storages && t.Storage? && NamespaceOf(t) == ConfigNamespace(c)
      ensures FindEquivalent(s.storages, LegacyS3(c)) != NoStorage
    {
      NamespaceEqualExact(t, LegacyS3(c));
    }
  }

  /** One without a configuration of its own resolves to the namespace of the setting's legacy
      configuration, and to nothing exactly when there is none. */
  lemma BareAttachmentNamespace(s: Setting, id: string)
    requires Find(s.storages, id) == NoStorage
    ensures var r := ResolveStorage(s, id, None);
      && (r.Some? <==> s.s3.Some?)
      && (r.Some? ==> r.value.Storage? && NamespaceOf(r.value) == ConfigNamespace(s.s3.value))
  {
    if s.s3.Some? {
      LegacyAttachmentNamespace(s, id, s.s3.value);
    }
  }

  // ----- Completing an entry -----

  /** An entry without type, identity or name is completed from its configuration; a complete one stays. */
  lemma EntryCompleted(h: Digest, s: Storage)
    requires Separates(h) && s.Storage?
    ensures s.id == "" && TrimSpace(s.name) == "" ==>
      match s.config
      case Some(c) => s.kind in {Unspecified, S3Kind} ==> NormalizeStorage(h, s) == S3Entry(h, c)
      case None =>
        && (s.kind == LocalKind ==> NormalizeStorage(h, s) == Storage("local", "Local", LocalKind, None))
        && (s.kind == DatabaseKind ==> NormalizeStorage(h, s) == Storage("database", "Database", DatabaseKind, None))
        && (s.kind in {Unspecified, S3Kind} ==> NormalizeStorage(h, s).id == "")
    ensures s.id != "" && TrimSpace(s.name) != "" && s.kind != Unspecified ==> NormalizeStorage(h, s) == s
  {
    SelectedNames();
    if s.config.Some? {
      assert |h(ConfigNamespace(s.config.value))| > 3;
    }
  }

  // ----- Idempotence -----

  /** A configuration is present exactly for S3. */
  predicate Regular(s: Storage) {
    s.Storage? && (s.config.Some? <==> s.kind == S3Kind)
  }

  ghost predicate Honest(h: Digest, storages: seq<Storage>) {
    forall i :: 0 <= i < |storages| && storages[i].Storage? ==>
      var t := NormalizeStorage(h, storages[i]);
      Regular(t) && (t.id != "" ==> Truthful(h, t))
  }

  lemma NormalizeStorageIdempotent(h: Digest, s: Storage)
    ensures NormalizeStorage(h, NormalizeStorage(h, s)) == NormalizeStorage(h, s)
  {}

  /** A sound registry of regular entries that normalization leaves alone. */
  ghost predicate Settled(h: Digest, storages: seq<Storage>) {
    Sound(h, storages) &&
    forall i :: 0 <= i < |storages| ==> Regular(storages[i]) && NormalizeStorage(h, storages[i]) == storages[i]
  }

  lemma {:induction false} KeptIsSettled(h: Digest, storages: seq<Storage>)
    requires Honest(h, storages)
    ensures Settled(h, KeepFirst(h, storages))
    decreases |storages|
  {
    if storages != [] {
      var k := |storages| - 1;
      KeptIsSettled(h, storages[..k]);
      NormalizeStorageIdempotent(h, storages[k]);
      if KeepFirst(h, storages) != KeepFirst(h, storages[..k]) {
        AppendDistinct(KeepFirst(h, storages[..k]), NormalizeStorage(h, storages[k]));
      }
    }
  }

  lemma AppendSettled(h: Digest, storages: seq<Storage>, s: Storage)
    requires Separates(h) && Settled(h, storages) && Regular(s) && NormalizeStorage(h, s) == s
    requires Typed(s) && s.id == StorageId(h, s) && FindEquivalent(storages, s) == NoStorage
    ensures Settled(h, storages + [s])
  {
    AppendGenerated(h, storages, s);
  }

  lemma LegacyS3Settled(h: Digest, s: Setting)
    requires Separates(h) && Settled(h, s.storages)
    ensures Settled(h, WithLegacyS3(h, s).storages)
  {
    if WithLegacyS3(h, s) != s {
      var legacy := NormalizeStorage(h, LegacyS3(s.s3.value));
      NormalizeStorageIdempotent(h, LegacyS3(s.s3.value));
      EquivalentToSame(s.storages, LegacyS3(s.s3.value), legacy);
      AppendSettled(h, s.storages, legacy);
    }
  }

  lemma DefaultSettled(h: Digest, s: Setting)
    requires Separates(h) && Settled(h, s.storages)
    ensures Settled(h, WithDefault(h, s).storages)
  {
    if WithDefault(h, s).storages != s.storages {
      LegacyIsGenerated(h, s);
      AppendSettled(h, s.storages, FromLegacy(h, s));
    }
  }

  lemma FallbackSettled(h: Digest, s: Setting)
    requires Separates(h) && Settled(h, s.storages)
    ensures Settled(h, DefaultFirst(WithFallback(h, s)).storages)
  {
    var f := WithFallback(h, s);
    if s.storages == [] {
      AppendSettled(h, [], BuiltinStorage(h, LocalKind));
      assert f.storages == [] + [BuiltinStorage(h, LocalKind)];
    }
    FallbackNamed(h, s);
    DefaultFirstKeeps(f);
    var r := DefaultFirst(f).storages;
    RotationSound(h, f.storages, r);
    forall i | 0 <= i < |r|
      ensures r[i] in f.storages
    {
      assert r[i] in multiset(f.storages);
    }
  }

  lemma NormalizedSettled(h: Digest, s: Setting)
    requires Separates(h) && Honest(h, s.storages)
    ensures Settled(h, Normalized(h, s).storages)
  {
    var kept := s.(storages := KeepFirst(h, s.storages));
    KeptIsSettled(h, s.storages);
    LegacyS3Settled(h, kept);
    var a := WithLegacyS3(h, kept);
    DefaultSettled(h, a);
    FallbackSettled(h, WithDefault(h, a));
  }

  lemma {:induction false} KeepFirstOfSettled(h: Digest, storages: seq<Storage>)
    requires Settled(h, storages)
    ensures KeepFirst(h, storages) == storages
    decreases |storages|
  {
    if storages != [] {
      var k := |storages| - 1;
      KeepFirstOfSettled(h, storages[..k]);
      assert storages == storages[..k] + [storages[k]];
      AppendDistinct(storages[..k], storages[k]);
    }
  }

  lemma {:induction false} FirstConfigPresent(storages: seq<Storage>)
    ensures FirstConfig(storages).Some? ==>
      exists s :: s in storages && s.Storage? && s.config == FirstConfig(storages)
  {
    if storages != [] && !(storages[0].Storage? && storages[0].config.Some?) {
      FirstConfigPresent(storages[1..]);
    } else if storages != [] {
      assert storages[0] in storages;
    }
  }

  /** A settled registry in normal form is a fixed point. */
  lemma SettledIsFixed(h: Digest, r: Setting)
    requires Settled(h, r.storages) && r.storages != [] && r.storages[0].id == r.defaultId
    requires r.storageType == r.storages[0].kind
    requires r.s3 == if r.storages[0].config.Some? then r.storages[0].config else FirstConfig(r.storages)
    ensures Normalized(h, r) == r
  {
    hide KeepFirst, WithLegacyS3, WithDefault, WithFallback, DefaultFirst, Synchronized, FirstConfig, Settled;
    KeepFirstOfSettled(h, r.storages);
    LegacyIsKnown(h, r);
    HeadIsDefault(h, r);
    HeadIsMirrored(r);
  }

  lemma LegacyIsKnown(h: Digest, r: Setting)
    requires Settled(h, r.storages) && r.storages != []
    requires r.s3 == if r.storages[0].config.Some? then r.storages[0].config else FirstConfig(r.storages)
    ensures WithLegacyS3(h, r) == r
  {
    FirstConfigPresent(r.storages);
    if r.s3.Some? {
      var s: Storage :| s in r.storages && s.Storage? && s.config == r.s3;
      NamespaceEqualExact(s, LegacyS3(r.s3.value));
    }
  }

  lemma HeadIsDefault(h: Digest, r: Setting)
    requires Settled(h, r.storages) && r.storages != [] && r.storages[0].id == r.defaultId
    ensures Named(r.storages)
    ensures WithDefault(h, r) == r && WithFallback(h, r) == r && DefaultFirst(r) == r
  {
    FindInDistinct(r.storages, 0);
    assert IndexAfterHead(r.storages, r.defaultId, 1) == |r.storages|;
  }

  lemma HeadIsMirrored(r: Setting)
    requires Named(r.storages) && r.storages != [] && r.storages[0].id == r.defaultId
    requires r.storageType == r.storages[0].kind
    requires r.s3 == if r.storages[0].config.Some? then r.storages[0].config else FirstConfig(r.storages)
    ensures Synchronized(r) == r
  {}

  /** Normalization is idempotent when a configuration is present exactly for S3 and generated
      identities are truthful. */
  lemma NormalizedIdempotent(h: Digest, s: Setting)
    requires Separates(h) && Honest(h, s.storages)
    ensures Normalized(h, Normalized(h, s)) == Normalized(h, s)
  {
    NormalizedSettled(h, s);
    NormalForm(h, s);
    SettledIsFixed(h, Normalized(h, s));
  }

  // ----- A setting of an older client -----

  /** The storage that an S3 configuration stands for, named after its bucket. */
  function S3Entry(h: Digest, c: S3Config): Storage {
    Storage(h(ConfigNamespace(c)), if TrimSpace(c.bucket) != "" then TrimSpace(c.bucket) else "S3", S3Kind, Some(c))
  }

  /** The storage that the legacy fields select: local when the type is unset or S3 lacks its configuration. */
  function LegacySelection(h: Digest, s: Setting): Storage {
    if s.storageType == DatabaseKind then Storage("database", "Database", DatabaseKind, None)
    else if s.storageType == S3Kind && s.s3.Some? then S3Entry(h, s.s3.value)
    else Storage("local", "Local", LocalKind, None)
  }

  lemma SelectedNames()
    ensures TrimSpace("Database") != [] && TrimSpace("Local") != [] && TrimSpace("S3") != [] && TrimSpace("") == []
  {
    NotBlank("Database");
    NotBlank("Local");
    NotBlank("S3");
  }

  function S3Entries(h: Digest, s: Setting): seq<Storage> {
    if s.s3.Some? then [S3Entry(h, s.s3.value)] else []
  }

  lemma OnlyS3Listed(h: Digest, s: Setting)
    requires Separates(h) && s.storages == []
    ensures WithLegacyS3(h, s).storages == S3Entries(h, s)
    ensures WithLegacyS3(h, s) == s.(storages := S3Entries(h, s))
  {
    SelectedNames();
    if s.s3.Some? {
      assert |h(ConfigNamespace(s.s3.value))| > 3;
    }
  }

  /** The legacy fields select the selection's namespace; S3 without a configuration has no identity. */
  lemma LegacySelected(h: Digest, s: Setting)
    ensures var legacy, d := FromLegacy(h, s), LegacySelection(h, s);
      if s.storageType == S3Kind then
        legacy.Storage? && legacy.kind == S3Kind && legacy.config == s.s3 && (s.s3.None? ==> legacy.id == "")
      else legacy == d && legacy.config == None
  {
    SelectedNames();
  }

  lemma EquivalentToS3(h: Digest, s: Setting, legacy: Storage)
    requires legacy.Storage?
    ensures FindEquivalent(S3Entries(h, s), legacy) ==
            if s.s3.Some? && legacy.kind == S3Kind && legacy.config == s.s3 then S3Entry(h, s.s3.value)
            else if s.s3.Some? && NamespaceEqual(S3Entry(h, s.s3.value), legacy) then S3Entry(h, s.s3.value)
            else NoStorage
  {
    if s.s3.Some? {
      assert S3Entries(h, s)[1..] == [];
      assert FindEquivalent(S3Entries(h, s)[1..], legacy) == NoStorage;
    }
  }

  /** The selection is added behind the S3 configuration unless it is that configuration. */
  lemma SelectionAdded(h: Digest, s: Setting)
    requires Separates(h) && s.storages == S3Entries(h, s) && s.defaultId == ""
    ensures var d := LegacySelection(h, s);
      && Named(WithDefault(h, s).storages)
      && WithFallback(h, WithDefault(h, s)) == s.(storages := S3Entries(h, s) + (if d.kind == S3Kind then [] else [d]), defaultId := d.id)
  {
    hide FromLegacy, NormalizeStorage, FindEquivalent;
    LegacySelected(h, s);
    EquivalentToS3(h, s, FromLegacy(h, s));
    LocalBuiltin(h);
    if s.s3.Some? {
      assert |h(ConfigNamespace(s.s3.value))| > 3;
    }
  }

  lemma LocalBuiltin(h: Digest)
    ensures BuiltinStorage(h, LocalKind) == Storage("local", "Local", LocalKind, None)
  {
    SelectedNames();
  }

  lemma SelectionLeads(h: Digest, s: Setting, d: Storage)
    requires Separates(h) && d == LegacySelection(h, s) && s.defaultId == d.id
    requires s.storages == S3Entries(h, s) + if d.kind == S3Kind then [] else [d]
    ensures Named(s.storages)
    ensures Synchronized(DefaultFirst(s)) ==
            Setting(if s.s3.Some? && d.kind != S3Kind then [d, S3Entry(h, s.s3.value)] else [d], d.id, d.kind, s.s3)
  {
    if s.s3.Some? {
      assert h(ConfigNamespace(s.s3.value))[..3] == "s3-";
      assert h(ConfigNamespace(s.s3.value))[0] == h(ConfigNamespace(s.s3.value))[..3][0] == 's';
      if d.kind != S3Kind {
        assert d.id[0] != 's';
        assert IndexAfterHead(s.storages, d.id, 1) == 1;
        assert Rotated(s.storages, 1) == [d, S3Entry(h, s.s3.value)];
        assert Find([d, S3Entry(h, s.s3.value)], d.id) == d;
        assert [d, S3Entry(h, s.s3.value)][1..] == [S3Entry(h, s.s3.value)];
        assert FirstConfig([S3Entry(h, s.s3.value)]) == s.s3;
      }
    } else {
      assert s.storages == [d] && Find([d], d.id) == d;
      assert FirstConfig([d][1..]) == None;
    }
  }

  /** A setting without a registry ends with the storage that its legacy fields select as the default,
      followed by the storage of an S3 configuration that it does not select. */
  lemma LegacySettingEndsWith(h: Digest, s: Setting)
    requires Separates(h) && s.storages == [] && s.defaultId == ""
    ensures var d := LegacySelection(h, s);
      Normalized(h, s) == Setting(if s.s3.Some? && d.kind != S3Kind then [d, S3Entry(h, s.s3.value)] else [d], d.id, d.kind, s.s3)
  {
    hide Separates, WithLegacyS3, WithDefault, WithFallback, DefaultFirst, Synchronized, S3Entry;
    assert s.(storages := KeepFirst(h, s.storages)) == s;
    OnlyS3Listed(h, s);
    var listed := WithLegacyS3(h, s);
    SelectionAdded(h, listed);
    SelectionLeads(h, WithFallback(h, WithDefault(h, listed)), LegacySelection(h, s));
  }

  // ----- An untruthful identity -----

  /** When a configured identity is the digest of another namespace, normalizing appends a second
      entry with that identity. */
  lemma UntruthfulIdRepeats(h: Digest, c: S3Config)
    requires Separates(h)
    ensures var taken := Storage(h(ConfigNamespace(c)), "Local", LocalKind, None);
            var r := Normalized(h, Setting([taken], taken.id, LocalKind, Some(c)));
            !DistinctIds(r.storages)
  {
    var id := h(ConfigNamespace(c));
    assert |id| > 3;
    var taken := Storage(id, "Local", LocalKind, None);
    var s := Setting([taken], id, LocalKind, Some(c));
    NotBlank("Local");
    assert NormalizeStorage(h, taken) == taken;
    assert s.storages[..0] == [] && KeepFirst(h, []) == [];
    assert KeepFirst(h, s.storages) == [taken];
    assert taken.id in Ids([taken]);
    var kept := s.(storages := [taken]);
    assert S3Collides(h, kept);
    NormalizedDistinct(h, s);
  }

  // ----- Credentials -----

  lemma {:induction false} CredentialSourceScoped(storages: seq<Storage>, c: S3Config)
    ensures var r := CredentialSource(storages, c);
      r.Storage? ==>
        && r in storages && r.config.Some?
        && r.config.value.accessKeyId == c.accessKeyId && r.config.value.accessKeySecret != ""
        && NormalizeEndpoint(r.config.value.endpoint) == NormalizeEndpoint(c.endpoint)
        && TrimSpace(r.config.value.region) == TrimSpace(c.region)
  {
    if storages != [] {
      CredentialSourceScoped(storages[1..], c);
    }
  }

  /** With named storages, a secret that the request did not carry is the previous secret of the same
      unmoved entry, or comes from a stored storage of the same endpoint, region and access key. */
  lemma SecretsStayScoped(h: Digest, existing: seq<Storage>, s: Storage)
    requires s.Storage? && s.config.Some? && s.config.value.accessKeySecret == ""
    ensures var t := EditEntry(h, existing, false, s).s;
      && t.config.Some?
      && (t.config.value.accessKeySecret == ""
          || (ById(existing, s.id).Storage? && NamespaceEqual(ById(existing, s.id), s) &&
              ById(existing, s.id).config.Some? &&
              t.config.value.accessKeySecret == ById(existing, s.id).config.value.accessKeySecret)
          || (exists e :: e in existing && e.Storage? && e.config.Some? &&
                e.config.value.accessKeySecret == t.config.value.accessKeySecret &&
                e.config.value.accessKeyId == s.config.value.accessKeyId &&
                NormalizeEndpoint(e.config.value.endpoint) == NormalizeEndpoint(s.config.value.endpoint) &&
                TrimSpace(e.config.value.region) == TrimSpace(s.config.value.region)))
  {
    CredentialSourceScoped(existing, s.config.value);
  }
}
