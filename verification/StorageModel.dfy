/** Named storages, their physical namespaces, and the registry of an instance. */
module StorageModel {
  import opened Outcomes
  import opened Texts

  datatype StorageKind = Unspecified | DatabaseKind | LocalKind | S3Kind

  /** An S3 configuration; `options` stands for its transport options. */
  datatype S3Config = S3Config(endpoint: string, region: string, bucket: string, accessKeyId: string,
                               accessKeySecret: string, options: string)

  datatype Storage =
    | NoStorage
    | Storage(id: string, name: string, kind: StorageKind, config: Option<S3Config>)

  /** The instance setting: the named registry and the legacy fields of older clients. */
  datatype Setting = Setting(storages: seq<Storage>, defaultId: string, storageType: StorageKind, s3: Option<S3Config>)

  function NormalizeEndpoint(s: string): string {
    TrimRight(TrimSpace(s), c => c == '/')
  }

  /** An endpoint is stripped of the white space around it and of the slashes behind it. */
  lemma EndpointIff(s: string, e: string)
    ensures NormalizeEndpoint(s) == e <==>
      e <= TrimSpace(s) && (e == [] || e[|e| - 1] != '/') && forall i :: |e| <= i < |TrimSpace(s)| ==> TrimSpace(s)[i] == '/'
  {
    TrimRightIff(TrimSpace(s), c => c == '/', e);
  }

  // ----- Namespaces -----

  /** Where a storage physically keeps its objects. */
  datatype Namespace =
    | Kind(kind: StorageKind)
    | NoConfig
    | Bucket(endpoint: string, region: string, bucket: string)

  function ConfigNamespace(c: S3Config): Namespace {
    Bucket(NormalizeEndpoint(c.endpoint), TrimSpace(c.region), TrimSpace(c.bucket))
  }

  function NamespaceOf(s: Storage): Namespace
    requires s.Storage?
  {
    if s.kind != S3Kind then Kind(s.kind)
    else match s.config
      case None => NoConfig
      case Some(c) => ConfigNamespace(c)
  }

  /** Whether two configurations address the same physical namespace. */
  predicate NamespaceEqual(a: Storage, b: Storage) {
    if !a.Storage? || !b.Storage? || a.kind != b.kind then false
    else if a.kind != S3Kind then true
    else match (a.config, b.config)
      case (Some(c), Some(d)) =>
        && NormalizeEndpoint(c.endpoint) == NormalizeEndpoint(d.endpoint)
        && TrimSpace(c.region) == TrimSpace(d.region)
        && TrimSpace(c.bucket) == TrimSpace(d.bucket)
      case (None, None) => true
      case _ => false
  }

  lemma NamespaceEqualExact(a: Storage, b: Storage)
    ensures NamespaceEqual(a, b) <==> a.Storage? && b.Storage? && NamespaceOf(a) == NamespaceOf(b)
  {}

  // ----- Identities -----

  const DATABASE_ID := "database"

  const LOCAL_ID := "local"

  /** The digest of a namespace: `s3-` and a truncated hash. */
  type Digest = Namespace -> string

  /** The digest is taken to tell namespaces apart and to look like no other generated identity. */
  ghost predicate Separates(h: Digest) {
    && (forall a: Namespace, b: Namespace :: h(a) == h(b) ==> a == b)
    && (forall a: Namespace :: |h(a)| > 3 && h(a)[..3] == "s3-")
  }

  function StorageId(h: Digest, s: Storage): string {
    if !s.Storage? then ""
    else match s.kind
      case DatabaseKind => DATABASE_ID
      case LocalKind => LOCAL_ID
      case S3Kind => if s.config.Some? then h(NamespaceOf(s)) else ""
      case Unspecified => ""
  }

  function DefaultName(s: Storage): (name: string)
    requires s.Storage?
    ensures TrimSpace(name) != []
  {
    match s.kind
    case DatabaseKind => NotBlank("Database"); "Database"
    case LocalKind => NotBlank("Local"); "Local"
    case S3Kind =>
      var bucket := if s.config.Some? then TrimSpace(s.config.value.bucket) else "";
      if bucket != "" then TrimmedIsNotBlank(s.config.value.bucket); bucket else NotBlank("S3"); "S3"
    case Unspecified => NotBlank("Storage"); "Storage"
  }

  lemma NotBlank(s: string)
    requires s != [] && !IsSpace(s[0])
    ensures TrimSpace(s) != []
  {
    TrimmedEnd(s);
  }

  function NormalizeStorage(h: Digest, s: Storage): Storage {
    if !s.Storage? then s
    else
      var typed := if s.kind == Unspecified && s.config.Some? then s.(kind := S3Kind) else s;
      var named := if typed.id == "" then typed.(id := StorageId(h, typed)) else typed;
      if TrimSpace(named.name) == [] then named.(name := DefaultName(named)) else named
  }

  function BuiltinStorage(h: Digest, kind: StorageKind): Storage {
    NormalizeStorage(h, Storage("", "", kind, None))
  }

  function LegacyS3(c: S3Config): Storage {
    Storage("", "", S3Kind, Some(c))
  }

  // ----- Lookups -----

  function Find(storages: seq<Storage>, id: string): (r: Storage)
    ensures r.Storage? ==> r in storages && r.id == id && id != ""
    ensures r == NoStorage <==> id == "" || forall s :: s in storages && s.Storage? ==> s.id != id
  {
    if id == "" || storages == [] then NoStorage
    else if storages[0].Storage? && storages[0].id == id then storages[0]
    else
      assert forall s :: s in storages <==> s == storages[0] || s in storages[1..];
      Find(storages[1..], id)
  }

  function FindEquivalent(storages: seq<Storage>, target: Storage): (r: Storage)
    ensures r.Storage? ==> r in storages && NamespaceEqual(r, target)
    ensures r == NoStorage <==> forall s :: s in storages ==> !NamespaceEqual(s, target)
  {
    if storages == [] then NoStorage
    else if NamespaceEqual(storages[0], target) then storages[0]
    else
      assert forall s :: s in storages <==> s == storages[0] || s in storages[1..];
      FindEquivalent(storages[1..], target)
  }

  function Ids(storages: seq<Storage>): set<string> {
    set s | s in storages && s.Storage? :: s.id
  }

  // ----- Invariants of a registry -----

  /** Entries are present and carry an identity. */
  predicate Named(storages: seq<Storage>) {
    forall i :: 0 <= i < |storages| ==> storages[i].Storage? && storages[i].id != ""
  }

  predicate DistinctIds(storages: seq<Storage>) {
    forall i, j :: 0 <= i < j < |storages| && storages[i].Storage? && storages[j].Storage? ==>
      storages[i].id != storages[j].id
  }

  /** The kind is set and an S3 storage has its configuration. */
  predicate Typed(s: Storage) {
    s.Storage? && s.kind != Unspecified && (s.kind == S3Kind ==> s.config.Some?)
  }

  /** Normalization leaves the kind alone, and an S3 storage has its configuration. */
  predicate Steady(s: Storage) {
    s.Storage? && (s.kind == Unspecified ==> s.config.None?) && (s.kind == S3Kind ==> s.config.Some?)
  }

  /** A generated identity names the namespace it was generated from. */
  ghost predicate Truthful(h: Digest, s: Storage) {
    s.Storage? ==>
      && (s.id == DATABASE_ID ==> NamespaceOf(s) == Kind(DatabaseKind))
      && (s.id == LOCAL_ID ==> NamespaceOf(s) == Kind(LocalKind))
      && (forall ns: Namespace :: s.id == h(ns) ==> NamespaceOf(s) == ns)
  }

  ghost predicate Sound(h: Digest, storages: seq<Storage>) {
    && Named(storages) && DistinctIds(storages)
    && forall i :: 0 <= i < |storages| ==> Steady(storages[i]) && Truthful(h, storages[i])
  }

  /** A generated identity of a typed storage is non-empty and truthful. */
  lemma GeneratedIdTruthful(h: Digest, s: Storage)
    requires Separates(h) && Typed(s) && s.id == StorageId(h, s)
    ensures s.id != "" && Truthful(h, s)
  {
    assert DATABASE_ID[0] == 'd' && LOCAL_ID[0] == 'l';
    forall ns: Namespace
      ensures |h(ns)| > 3 && h(ns)[0] == 's'
    {
      assert h(ns)[..3] == "s3-";
      assert h(ns)[0] == h(ns)[..3][0];
    }
    if s.kind == S3Kind {
      assert s.id[0] == 's';
    }
  }

  /** In a sound registry, whoever holds the generated identity of a namespace has that namespace. */
  lemma HolderHasNamespace(h: Digest, s: Storage, t: Storage)
    requires Truthful(h, s) && s.Storage? && Typed(t) && s.id == StorageId(h, t)
    ensures NamespaceOf(s) == NamespaceOf(t)
  {}

  lemma {:induction false} FindInDistinct(storages: seq<Storage>, i: nat)
    requires i < |storages| && Named(storages) && DistinctIds(storages)
    ensures Find(storages, storages[i].id) == storages[i]
  {
    if i > 0 {
      assert storages[0].id != storages[i].id;
      FindInDistinct(storages[1..], i - 1);
    }
  }
}
