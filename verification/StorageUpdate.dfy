/** Accepting an update of the storage setting: edited storages get a new identity, repeats are
    resolved, secrets are backfilled, and entries that attachments may still need are preserved. */
module StorageUpdate {
  import opened Outcomes
  import opened Texts
  import opened StorageModel
  import opened StorageNormalize

  datatype UpdateError =
    | SettingRequired
    | DefaultNotConfigured(id: string)
    | IdRequired
    | DuplicateId(id: string)
    | KindRequired(id: string)
    | ConfigRequired(id: string)
    | SecretRequired(id: string)

  datatype Update = Rejected(error: UpdateError) | Accepted(setting: Setting)

  // ----- Validation of a request -----

  function ValidateFrom(s: Setting, i: nat, seen: set<string>): Option<UpdateError>
    requires i <= |s.storages|
    decreases |s.storages| - i
  {
    if i == |s.storages| then
      if s.defaultId in seen then None else Some(DefaultNotConfigured(s.defaultId))
    else
      var x := s.storages[i];
      if !x.Storage? || x.id == "" then Some(IdRequired)
      else if x.id in seen then Some(DuplicateId(x.id))
      else if x.kind == Unspecified then Some(KindRequired(x.id))
      else if x.kind == S3Kind && x.config.None? then Some(ConfigRequired(x.id))
      else ValidateFrom(s, i + 1, seen + {x.id})
  }

  function Validate(s: Setting): Option<UpdateError> {
    ValidateFrom(s, 0, {})
  }

  /** A request whose entries are present, identified, typed and told apart, with the default among them. */
  predicate WellFormedRequest(s: Setting) {
    && (forall i :: 0 <= i < |s.storages| ==> Typed(s.storages[i]) && s.storages[i].id != "")
    && DistinctIds(s.storages)
    && s.defaultId in Ids(s.storages)
  }

  lemma IdsAppended(storages: seq<Storage>, x: Storage)
    requires x.Storage?
    ensures Ids(storages + [x]) == Ids(storages) + {x.id}
  {
    var all := storages + [x];
    assert x in all && forall s :: s in all <==> s in storages || s == x;
  }

  lemma DistinctAppended(storages: seq<Storage>, x: Storage)
    requires x.Storage?
    ensures DistinctIds(storages + [x]) <==> DistinctIds(storages) && x.id !in Ids(storages)
  {
    var all := storages + [x];
    assert forall i :: 0 <= i < |storages| ==> all[i] == storages[i];
    if x.id in Ids(storages) {
      var s :| s in storages && s.Storage? && s.id == x.id;
      var i :| 0 <= i < |storages| && storages[i] == s;
      assert all[i].id == all[|storages|].id;
    }
  }

  lemma DistinctPrefix(storages: seq<Storage>, n: nat)
    requires n <= |storages| && DistinctIds(storages)
    ensures DistinctIds(storages[..n])
  {}

  lemma {:induction false} ValidateFromIff(s: Setting, i: nat)
    requires i <= |s.storages| && DistinctIds(s.storages[..i])
    requires forall k :: 0 <= k < i ==> Typed(s.storages[k]) && s.storages[k].id != ""
    ensures ValidateFrom(s, i, Ids(s.storages[..i])).None? <==> WellFormedRequest(s)
    decreases |s.storages| - i
  {
    hide Ids, DistinctIds;
    if i == |s.storages| {
      assert s.storages[..i] == s.storages;
    } else {
      var x := s.storages[i];
      assert s.storages[..i + 1] == s.storages[..i] + [x];
      if x.Storage? {
        IdsAppended(s.storages[..i], x);
        DistinctAppended(s.storages[..i], x);
      }
      if DistinctIds(s.storages) {
        DistinctPrefix(s.storages, i + 1);
      }
      if Typed(x) && x.id != "" && x.id !in Ids(s.storages[..i]) {
        ValidateFromIff(s, i + 1);
      }
    }
  }

  /** A request is accepted exactly when it is well-formed. */
  lemma ValidateIff(s: Setting)
    ensures Validate(s).None? <==> WellFormedRequest(s)
  {
    assert Ids(s.storages[..0]) == {};
    ValidateFromIff(s, 0);
  }

  // ----- The stages -----

  /** Adopt a stored default that the request names without resending it. */
  function Adopted(incoming: Setting, existing: Option<Setting>): Update {
    if incoming.defaultId == "" || Find(incoming.storages, incoming.defaultId) != NoStorage then Accepted(incoming)
    else
      var preserved := if existing.Some? then Find(existing.value.storages, incoming.defaultId) else NoStorage;
      if preserved == NoStorage then Rejected(DefaultNotConfigured(incoming.defaultId))
      else Accepted(incoming.(storages := incoming.storages + [preserved]))
  }

  /** The last entry of each identity, as a lookup table holds it. */
  function ById(storages: seq<Storage>, id: string): Storage {
    if storages == [] then NoStorage
    else
      var last := storages[|storages| - 1];
      if last.Storage? && last.id == id then last else ById(storages[..|storages| - 1], id)
  }

  /** The default that a request without named storages selects takes over the identity of the
      stored storage with the same namespace. */
  function Matched(s: Setting, existing: Setting): (r: Setting)
    requires Named(s.storages) && Named(existing.storages)
    ensures Named(r.storages)
  {
    var d := Find(s.storages, s.defaultId);
    if d == NoStorage then s
    else
      var matching := FindEquivalent(existing.storages, d);
      if matching == NoStorage then s
      else
        var renamed := if d.name == DefaultName(d) then d.(name := matching.name) else d;
        s.(storages := ReplaceFirst(s.storages, d, renamed.(id := matching.id)), defaultId := matching.id)
  }

  function ReplaceFirst(storages: seq<Storage>, before: Storage, after: Storage): (r: seq<Storage>)
    ensures |r| == |storages|
    ensures forall i :: 0 <= i < |r| ==> r[i] == storages[i] || r[i] == after
  {
    if storages == [] then []
    else if storages[0] == before then [after] + storages[1..]
    else [storages[0]] + ReplaceFirst(storages[1..], before, after)
  }

  function CredentialSource(storages: seq<Storage>, c: S3Config): Storage {
    if storages == [] then NoStorage
    else
      var s := storages[0];
      if s.Storage? && s.config.Some? && s.config.value.accessKeyId == c.accessKeyId &&
         s.config.value.accessKeySecret != "" &&
         NormalizeEndpoint(s.config.value.endpoint) == NormalizeEndpoint(c.endpoint) &&
         TrimSpace(s.config.value.region) == TrimSpace(c.region)
      then s else CredentialSource(storages[1..], c)
  }

  function LegacyCredentialSource(storages: seq<Storage>, accessKeyId: string): Storage {
    if storages == [] then NoStorage
    else
      var s := storages[0];
      if s.Storage? && s.config.Some? && s.config.value.accessKeyId == accessKeyId && s.config.value.accessKeySecret != ""
      then s else LegacyCredentialSource(storages[1..], accessKeyId)
  }

  function WithSecret(s: Storage, secret: string): Storage
    requires s.Storage? && s.config.Some?
  {
    s.(config := Some(s.config.value.(accessKeySecret := secret)))
  }

  /** Fill an empty secret from the previous entry or from a stored credential. */
  function Backfilled(existing: seq<Storage>, legacyRequest: bool, previous: Storage, s: Storage): Storage
    requires s.Storage?
  {
    if s.config.None? || s.config.value.accessKeySecret != "" then s
    else if previous.Storage? && previous.config.Some? then WithSecret(s, previous.config.value.accessKeySecret)
    else
      var scoped := CredentialSource(existing, s.config.value);
      var candidate := if scoped == NoStorage && legacyRequest
                       then LegacyCredentialSource(existing, s.config.value.accessKeyId) else scoped;
      if candidate.Storage? && candidate.config.Some?
      then WithSecret(s, candidate.config.value.accessKeySecret) else s
  }

  /** An entry of the request and whether it got a new identity. */
  datatype Edited = Edited(s: Storage, reidentified: bool)

  predicate NamespaceChanged(previous: Storage, s: Storage) {
    previous.Storage? && !NamespaceEqual(previous, s)
  }

  function EditEntry(h: Digest, existing: seq<Storage>, legacyRequest: bool, s: Storage): Edited
    requires s.Storage?
  {
    var previous := ById(existing, s.id);
    if NamespaceChanged(previous, s) then
      Edited(Backfilled(existing, legacyRequest, NoStorage, s.(id := StorageId(h, s))), true)
    else Edited(Backfilled(existing, legacyRequest, previous, s), false)
  }

  /** The default follows each entry that carried its identity when the entry was edited. */
  function EditedDefault(h: Digest, existing: seq<Storage>, defaultId: string, s: Storage): string
    requires s.Storage?
  {
    if NamespaceChanged(ById(existing, s.id), s) && defaultId == s.id then StorageId(h, s) else defaultId
  }

  function EditAll(h: Digest, existing: seq<Storage>, legacyRequest: bool, storages: seq<Storage>): (r: seq<Edited>)
    requires Named(storages)
    ensures |r| == |storages|
    ensures forall i :: 0 <= i < |r| ==> r[i] == EditEntry(h, existing, legacyRequest, storages[i])
  {
    seq(|storages|, i requires 0 <= i < |storages| => EditEntry(h, existing, legacyRequest, storages[i]))
  }

  function EditedDefaults(h: Digest, existing: seq<Storage>, defaultId: string, storages: seq<Storage>): string
    requires Named(storages)
  {
    if storages == [] then defaultId
    else
      var k := |storages| - 1;
      EditedDefault(h, existing, EditedDefaults(h, existing, defaultId, storages[..k]), storages[k])
  }

  function IndexOf(entries: seq<Edited>, id: string): (r: nat)
    requires forall i :: 0 <= i < |entries| ==> entries[i].s.Storage?
    ensures r <= |entries|
    ensures r < |entries| ==> entries[r].s.id == id
    ensures forall k :: 0 <= k < r ==> entries[k].s.id != id
  {
    if entries == [] || entries[0].s.id == id then 0 else 1 + IndexOf(entries[1..], id)
  }

  /** Resolve one more entry against those before it: of two with the same identity a
      re-identified one wins over one that is not, otherwise the earlier one. */
  function Resolve(entries: seq<Edited>, e: Edited): seq<Edited>
    requires forall i :: 0 <= i < |entries| ==> entries[i].s.Storage?
    requires e.s.Storage?
  {
    var i := IndexOf(entries, e.s.id);
    if i == |entries| then entries + [e]
    else if e.reidentified && !entries[i].reidentified then entries[i := e]
    else entries
  }

  function ResolveAll(entries: seq<Edited>): (r: seq<Edited>)
    requires forall i :: 0 <= i < |entries| ==> entries[i].s.Storage?
    ensures forall i :: 0 <= i < |r| ==> r[i] in entries
  {
    if entries == [] then []
    else
      var k := |entries| - 1;
      Resolve(ResolveAll(entries[..k]), entries[k])
  }

  function Entries(entries: seq<Edited>): (r: seq<Storage>)
    ensures |r| == |entries| && forall i :: 0 <= i < |r| ==> r[i] == entries[i].s
  {
    seq(|entries|, i requires 0 <= i < |entries| => entries[i].s)
  }

  predicate LacksSecret(s: Storage) {
    s.Storage? && s.config.Some? && s.config.value.accessKeyId != "" && s.config.value.accessKeySecret == ""
  }

  function MissingSecret(storages: seq<Storage>): (r: Option<UpdateError>)
    ensures r.None? <==> forall s :: s in storages ==> !LacksSecret(s)
  {
    if storages == [] then None
    else
      assert forall s :: s in storages <==> s == storages[0] || s in storages[1..];
      if LacksSecret(storages[0]) then Some(SecretRequired(storages[0].id)) else MissingSecret(storages[1..])
  }

  /** The stored entries whose identity the request does not carry, in order. */
  function Preserved(existing: seq<Storage>, ids: set<string>): (r: seq<Storage>)
    ensures forall s :: s in r <==> s in existing && s.Storage? && s.id !in ids
  {
    if existing == [] then []
    else
      assert forall s :: s in existing <==> s == existing[0] || s in existing[1..];
      var rest := Preserved(existing[1..], ids);
      if existing[0].Storage? && existing[0].id !in ids then [existing[0]] + rest else rest
  }

  /** A normalized request merged with the normalized stored setting, before the last normalization. */
  function Merged(h: Digest, legacyRequest: bool, request: Setting, existing: Setting): Update
    requires Named(request.storages) && Named(existing.storages)
  {
    var matched := if legacyRequest then Matched(request, existing) else request;
    var edited := EditAll(h, existing.storages, legacyRequest, matched.storages);
    var resolved := Entries(ResolveAll(edited));
    match MissingSecret(resolved)
    case Some(error) => Rejected(error)
    case None => Accepted(Completed(h, existing.storages, matched, resolved))
  }

  /** The resolved entries, followed by the stored ones that the request does not carry. */
  function Completed(h: Digest, existing: seq<Storage>, matched: Setting, resolved: seq<Storage>): Setting
    requires Named(matched.storages)
  {
    matched.(storages := resolved + Preserved(existing, Ids(resolved)),
             defaultId := EditedDefaults(h, existing, matched.defaultId, matched.storages))
  }

  function NormalizedNamed(h: Digest, s: Setting): (r: Setting)
    ensures r == Normalized(h, s) && Named(r.storages)
  {
    NormalForm(h, s);
    Normalized(h, s)
  }

  /** The setting that an accepted request stores. */
  function Prepared(h: Digest, incoming: Setting, existing: Option<Setting>): Update {
    var stored := if existing.Some? then Some(NormalizedNamed(h, existing.value)) else None;
    match Adopted(incoming, stored)
    case Rejected(error) => Rejected(error)
    case Accepted(adopted) =>
      var legacyRequest := adopted.storages == [];
      if !legacyRequest && Validate(adopted).Some? then Rejected(Validate(adopted).value)
      else
        var request := NormalizedNamed(h, adopted);
        if stored.None? then Accepted(request)
        else match Merged(h, legacyRequest, request, stored.value)
          case Rejected(error) => Rejected(error)
          case Accepted(merged) => Accepted(Normalized(h, merged))
  }
}
