/** The update as it runs: the request and the stored setting are changed in place. */
module StorageService {
  import opened Outcomes
  import opened StorageModel
  import opened StorageNormalize
  import opened StorageUpdate

  method ValidateRequest(s: Setting) returns (error: Option<UpdateError>)
    ensures error == Validate(s)
  {
    var seen: set<string> := {};
    for i := 0 to |s.storages|
      invariant Validate(s) == ValidateFrom(s, i, seen)
    {
      var x := s.storages[i];
      if !x.Storage? || x.id == "" {
        return Some(IdRequired);
      }
      if x.id in seen {
        return Some(DuplicateId(x.id));
      }
      seen := seen + {x.id};
      if x.kind == Unspecified {
        return Some(KindRequired(x.id));
      }
      if x.kind == S3Kind && x.config.None? {
        return Some(ConfigRequired(x.id));
      }
    }
    if s.defaultId !in seen {
      return Some(DefaultNotConfigured(s.defaultId));
    }
    return None;
  }

  method IndexStored(existing: seq<Storage>) returns (byId: map<string, Storage>)
    requires Named(existing)
    ensures forall id: string :: (if id in byId then byId[id] else NoStorage) == ById(existing, id)
  {
    byId := map[];
    for i := 0 to |existing|
      invariant forall id: string :: (if id in byId then byId[id] else NoStorage) == ById(existing[..i], id)
    {
      assert existing[..i + 1][..i] == existing[..i];
      byId := byId[existing[i].id := existing[i]];
    }
    assert existing[..|existing|] == existing;
  }

  /** Give moved entries their new identity and backfill secrets, entry by entry. */
  method EditEntries(h: Digest, incoming: InstanceStorageSetting, existing: seq<Storage>, legacyRequest: bool)
    returns (reidentified: seq<bool>)
    requires Named(incoming.storages) && Named(existing)
    modifies incoming`storages, incoming`defaultId
    ensures var edited := EditAll(h, existing, legacyRequest, old(incoming.storages));
      && |reidentified| == |incoming.storages| == |edited|
      && forall i :: 0 <= i < |edited| ==> edited[i] == Edited(incoming.storages[i], reidentified[i])
    ensures incoming.defaultId == EditedDefaults(h, existing, old(incoming.defaultId), old(incoming.storages))
  {
    var byId := IndexStored(existing);
    ghost var before := incoming.storages;
    reidentified := [];
    for i := 0 to |incoming.storages|
      invariant |incoming.storages| == |before| && |reidentified| == i
      invariant forall k :: 0 <= k < i ==>
        EditEntry(h, existing, legacyRequest, before[k]) == Edited(incoming.storages[k], reidentified[k])
      invariant forall k :: i <= k < |before| ==> incoming.storages[k] == before[k]
      invariant incoming.defaultId == EditedDefaults(h, existing, old(incoming.defaultId), before[..i])
    {
      var storage := incoming.storages[i];
      assert before[..i + 1][..i] == before[..i];
      var previous := if storage.id in byId then byId[storage.id] else NoStorage;
      var moved := NamespaceChanged(previous, storage);
      if moved {
        var oldId := storage.id;
        storage := storage.(id := StorageId(h, storage));
        if incoming.defaultId == oldId {
          incoming.defaultId := storage.id;
        }
        previous := NoStorage;
      }
      storage := Backfilled(existing, legacyRequest, previous, storage);
      incoming.storages := incoming.storages[i := storage];
      reidentified := reidentified + [moved];
    }
    assert before[..|before|] == before;
  }

  method ResolveRepeats(entries: seq<Edited>) returns (resolved: seq<Edited>)
    requires forall i :: 0 <= i < |entries| ==> entries[i].s.Storage?
    ensures resolved == ResolveAll(entries)
  {
    resolved := [];
    var indexById: map<string, nat> := map[];
    for i := 0 to |entries|
      invariant resolved == ResolveAll(entries[..i])
      invariant forall k :: 0 <= k < |resolved| ==> resolved[k].s.Storage?
      invariant forall id: string :: (if id in indexById then indexById[id] else |resolved|) == IndexOf(resolved, id)
      invariant forall id: string :: id in indexById ==> indexById[id] < |resolved|
    {
      assert entries[..i + 1][..i] == entries[..i];
      var e := entries[i];
      if e.s.id in indexById {
        var k := indexById[e.s.id];
        if e.reidentified && !resolved[k].reidentified {
          IndexOfReplaced(resolved, k, e);
          resolved := resolved[k := e];
        }
        continue;
      }
      IndexOfAppended(resolved, e);
      indexById := indexById[e.s.id := |resolved|];
      resolved := resolved + [e];
    }
    assert entries[..|entries|] == entries;
  }

  lemma {:induction false} IndexOfAppended(entries: seq<Edited>, e: Edited)
    requires (forall i :: 0 <= i < |entries| ==> entries[i].s.Storage?) && e.s.Storage?
    ensures forall id: string ::
              IndexOf(entries + [e], id) ==
              if IndexOf(entries, id) < |entries| then IndexOf(entries, id)
              else if id == e.s.id then |entries| else |entries| + 1
  {
    if entries == [] {
      assert entries + [e] == [e];
    } else {
      IndexOfAppended(entries[1..], e);
      assert (entries + [e])[1..] == entries[1..] + [e];
    }
  }

  lemma {:induction false} IndexOfReplaced(entries: seq<Edited>, k: nat, e: Edited)
    requires (forall i :: 0 <= i < |entries| ==> entries[i].s.Storage?) && e.s.Storage?
    requires k < |entries| && entries[k].s.id == e.s.id
    ensures forall id: string :: IndexOf(entries[k := e], id) == IndexOf(entries, id)
  {
    if k > 0 {
      IndexOfReplaced(entries[1..], k - 1, e);
      assert entries[k := e][1..] == entries[1..][k - 1 := e];
    } else {
      assert entries[k := e][1..] == entries[1..];
    }
  }

  method AppendPreserved(incoming: InstanceStorageSetting, existing: seq<Storage>)
    requires Named(existing)
    modifies incoming`storages
    ensures incoming.storages == old(incoming.storages) + Preserved(existing, Ids(old(incoming.storages)))
  {
    var resolved := incoming.storages;
    var ids := Ids(resolved);
    assert Preserved(existing[..0], ids) == [];
    for i := 0 to |existing|
      invariant incoming.storages == resolved + Preserved(existing[..i], ids)
    {
      assert existing[..i + 1] == existing[..i] + [existing[i]];
      PreservedAppend(existing[..i], existing[i], ids);
      if existing[i].id !in ids {
        incoming.storages := incoming.storages + [existing[i]];
      }
    }
    assert existing[..|existing|] == existing;
  }

  lemma {:induction false} PreservedAppend(existing: seq<Storage>, s: Storage, ids: set<string>)
    requires s.Storage?
    ensures Preserved(existing + [s], ids) == Preserved(existing, ids) + (if s.id in ids then [] else [s])
  {
    if existing == [] {
      assert existing + [s] == [s] && [s][1..] == [];
      assert Preserved([s][1..], ids) == [];
    } else {
      PreservedAppend(existing[1..], s, ids);
      assert (existing + [s])[1..] == existing[1..] + [s];
    }
  }

  /** The entries of the request merged with the stored registry, in place. */
  method Merge(h: Digest, legacyRequest: bool, incoming: InstanceStorageSetting, stored: Setting)
    returns (error: Option<UpdateError>)
    requires Named(incoming.storages) && Named(stored.storages)
    modifies incoming
    ensures match Merged(h, legacyRequest, old(incoming.Contents()), stored)
            case Accepted(merged) => error.None? && incoming.Contents() == merged
            case Rejected(e) => error == Some(e)
  {
    ghost var request := incoming.Contents();
    if legacyRequest {
      var matched := Matched(incoming.Contents(), stored);
      incoming.storages, incoming.defaultId := matched.storages, matched.defaultId;
    }
    ghost var matched := incoming.Contents();
    assert matched == if legacyRequest then Matched(request, stored) else request;
    var reidentified := EditEntries(h, incoming, stored.storages, legacyRequest);
    var storages := incoming.storages;
    var edited := seq(|storages|, i requires 0 <= i < |storages| => Edited(storages[i], reidentified[i]));
    assert edited == EditAll(h, stored.storages, legacyRequest, matched.storages);
    var resolved := ResolveRepeats(edited);
    incoming.storages := Entries(resolved);
    error := MissingSecret(incoming.storages);
    if error.None? {
      AppendPreserved(incoming, stored.storages);
    }
  }

  /** Check a request against the stored setting and turn it into the setting to store. */
  method PrepareUpdate(h: Digest, incoming: InstanceStorageSetting?, existing: InstanceStorageSetting?)
    returns (error: Option<UpdateError>)
    requires incoming != null ==> incoming != existing
    modifies incoming, existing
    ensures incoming == null ==> error == Some(SettingRequired)
    ensures incoming != null ==>
      match Prepared(h, old(incoming.Contents()), if existing == null then None else Some(old(existing.Contents())))
      case Accepted(s) => error.None? && incoming.Contents() == s
      case Rejected(e) => error == Some(e)
    ensures incoming != null && existing != null ==> existing.Contents() == Normalized(h, old(existing.Contents()))
  {
    if incoming == null {
      return Some(SettingRequired);
    }
    if existing != null {
      existing.Normalize(h);
      NormalForm(h, old(existing.Contents()));
    }
    var stored := if existing == null then None else Some(existing.Contents());
    match Adopted(incoming.Contents(), stored) {
      case Rejected(e) => return Some(e);
      case Accepted(adopted) => incoming.storages := adopted.storages;
    }
    var legacyRequest := |incoming.storages| == 0;
    if !legacyRequest {
      error := ValidateRequest(incoming.Contents());
      if error.Some? {
        return;
      }
    }
    NormalForm(h, incoming.Contents());
    incoming.Normalize(h);
    if existing == null {
      return None;
    }
    error := Merge(h, legacyRequest, incoming, existing.Contents());
    if error.None? {
      incoming.Normalize(h);
    }
  }
}
