/** The authentication guard: no accepted change locks regular users out. */
module AuthGuard {
  import opened Outcomes

  /** The GENERAL setting, as far as signing in goes. */
  datatype General = General(disallowPasswordAuth: bool)

  /** The stored row of the GENERAL setting. */
  datatype StoredGeneral = Missing | Undecodable | Decoded(general: General)

  datatype Provider = Provider(id: int, uid: string)

  /** What is stored. */
  datatype AuthState = AuthState(general: StoredGeneral, providers: seq<Provider>)

  /** What the deployment file adds: it can manage GENERAL and add providers. */
  datatype Deployment = Deployment(general: Option<General>, providers: seq<Provider>)

  datatype Mutation = UpsertGeneral(general: General) | DeleteProvider(id: int)

  datatype AuthError = DecodeFailed | UnsafeConfiguration | Retryable | DriverFailed | Cancelled | RetriesExhausted

  // ----- Safety -----

  predicate Unsafe(general: Option<General>, uids: set<string>) {
    general.Some? && general.value.disallowPasswordAuth && uids == {}
  }

  function StoredSetting(s: StoredGeneral): Option<General> {
    match s
    case Decoded(g) => Some(g)
    case _ => None
  }

  function Uids(providers: seq<Provider>): set<string> {
    set p | p in providers :: p.uid
  }

  function WithoutProvider(providers: seq<Provider>, id: int): seq<Provider> {
    if providers == [] then []
    else
      var rest, last := WithoutProvider(providers[..|providers| - 1], id), providers[|providers| - 1];
      if last.id == id then rest else rest + [last]
  }

  function Applied(s: AuthState, m: Mutation): AuthState {
    match m
    case UpsertGeneral(g) => s.(general := Decoded(g))
    case DeleteProvider(id) => s.(providers := WithoutProvider(s.providers, id))
  }

  /** Whether regular users are locked out now. */
  predicate EffectiveUnsafe(d: Deployment, s: AuthState) {
    Unsafe(if d.general.Some? then d.general else StoredSetting(s.general), Uids(s.providers) + Uids(d.providers))
  }

  /** Whether regular users would be locked out without the deployment file. */
  predicate FallbackUnsafe(s: AuthState) {
    Unsafe(StoredSetting(s.general), Uids(s.providers))
  }

  // ----- Validation and application -----

  method CollectUids(providers: seq<Provider>, deleted: Option<int>, base: set<string>) returns (uids: set<string>)
    ensures uids == base + Uids(if deleted.Some? then WithoutProvider(providers, deleted.value) else providers)
  {
    uids := base;
    for i := 0 to |providers|
      invariant uids == base + Uids(if deleted.Some? then WithoutProvider(providers[..i], deleted.value) else providers[..i])
    {
      var p := providers[i];
      assert providers[..i + 1] == providers[..i] + [p];
      if deleted.Some? {
        UidsAppended(WithoutProvider(providers[..i], deleted.value), p);
      }
      UidsAppended(providers[..i], p);
      if deleted.Some? && p.id == deleted.value {
        continue;
      }
      uids := uids + {p.uid};
    }
    assert providers[..|providers|] == providers;
  }

  lemma UidsAppended(providers: seq<Provider>, p: Provider)
    ensures Uids(providers + [p]) == Uids(providers) + {p.uid}
  {
    assert p in providers + [p];
    assert forall q :: q in providers ==> q in providers + [p];
  }

  /** The verdict on a mutation: a deployment-managed GENERAL setting only guards the stored fallback
      against a proposal; otherwise the effective configuration is guarded. */
  function Verdict(d: Deployment, s: AuthState, m: Mutation): (error: Option<AuthError>)
    ensures error in {None, Some(DecodeFailed), Some(UnsafeConfiguration)}
  {
    if s.general.Undecodable? then Some(DecodeFailed)
    else if m.UpsertGeneral? && d.general.Some? then
      if FallbackUnsafe(Applied(s, m)) && !FallbackUnsafe(s) then Some(UnsafeConfiguration) else None
    else if EffectiveUnsafe(d, Applied(s, m)) && !EffectiveUnsafe(d, s) then Some(UnsafeConfiguration)
    else None
  }

  /** The check as it runs: sets of provider uids are built and compared with the settings. */
  method ValidateMutation(d: Deployment, s: AuthState, proposed: Option<General>, deleted: Option<int>)
    returns (error: Option<AuthError>)
    requires proposed.Some? <==> deleted.None?
    ensures error == Verdict(d, s, if proposed.Some? then UpsertGeneral(proposed.value) else DeleteProvider(deleted.value))
  {
    if s.general.Undecodable? {
      return Some(DecodeFailed);
    }
    var storedGeneral := StoredSetting(s.general);
    var storedUids := CollectUids(s.providers, None, {});
    var effectiveUids := CollectUids(s.providers, deleted, {});
    effectiveUids := CollectUids(d.providers, None, effectiveUids);
    if proposed.Some? && d.general.Some? {
      if Unsafe(proposed, storedUids) && !Unsafe(storedGeneral, storedUids) {
        return Some(UnsafeConfiguration);
      }
      return None;
    }
    var oldGeneral := if d.general.Some? then d.general else storedGeneral;
    var newGeneral := if proposed.Some? then proposed else oldGeneral;
    var oldEffectiveUids := CollectUids(d.providers, None, storedUids);
    if Unsafe(newGeneral, effectiveUids) && !Unsafe(oldGeneral, oldEffectiveUids) {
      return Some(UnsafeConfiguration);
    }
    return None;
  }

  /** What befalls one attempt besides validation. */
  datatype Fault = Runs | FailsRetryably | Fails

  const MAX_ATTEMPTS := 3

  class AuthStore {
    const deployment: Deployment
    var state: AuthState

    constructor (deployment: Deployment, state: AuthState)
      ensures this.deployment == deployment && this.state == state
    {
      this.deployment, this.state := deployment, state;
    }

    /** One transaction: validate and apply together, or change nothing. */
    method Attempt(m: Mutation, fault: Fault) returns (error: Option<AuthError>)
      modifies this
      ensures error.None? ==> Verdict(deployment, old(state), m).None? && state == Applied(old(state), m)
      ensures error.Some? ==> state == old(state)
      ensures error == Some(Retryable) <==> fault == FailsRetryably
      ensures fault == Runs ==> error == Verdict(deployment, old(state), m)
      ensures fault == Fails ==> error == Some(DriverFailed)
    {
      if fault == FailsRetryably {
        return Some(Retryable);
      }
      if fault == Fails {
        return Some(DriverFailed);
      }
      match m {
        case UpsertGeneral(g) => error := ValidateMutation(deployment, state, Some(g), None);
        case DeleteProvider(id) => error := ValidateMutation(deployment, state, None, Some(id));
      }
      if error.None? {
        state := Applied(state, m);
      }
    }

    /** Up to three attempts: a mutation is applied at most once, and only if it is accepted. */
    method Apply(m: Mutation, faults: nat -> Fault, cancelled: nat -> bool) returns (error: Option<AuthError>)
      modifies this
      ensures error.None? ==> Verdict(deployment, old(state), m).None? && state == Applied(old(state), m)
      ensures error.Some? ==> state == old(state)
      ensures (forall i :: 0 <= i < 3 ==> faults(i) == FailsRetryably && !cancelled(i)) <==>
        error == Some(RetriesExhausted)
    {
      for attempt := 0 to MAX_ATTEMPTS
        invariant state == old(state)
        invariant forall i :: 0 <= i < attempt ==> faults(i) == FailsRetryably && !cancelled(i)
      {
        error := Attempt(m, faults(attempt));
        if error != Some(Retryable) {
          return;
        }
        if cancelled(attempt) {
          return Some(Cancelled);
        }
      }
      return Some(RetriesExhausted);
    }
  }

  // ----- Runs -----

  function After(d: Deployment, s: AuthState, ms: seq<Mutation>): AuthState
    decreases |ms|
  {
    if ms == [] then s
    else After(d, if Verdict(d, s, ms[0]).None? then Applied(s, ms[0]) else s, ms[1..])
  }

  /** A run of one mutation applies it if it is accepted, and runs compose. */
  lemma {:induction false} RunsCompose(d: Deployment, s: AuthState, m: Mutation, before: seq<Mutation>, later: seq<Mutation>)
    ensures After(d, s, [m]) == if Verdict(d, s, m).None? then Applied(s, m) else s
    ensures After(d, s, before + later) == After(d, After(d, s, before), later)
    decreases |before|
  {
    if before == [] {
      assert before + later == later;
    } else {
      var next := if Verdict(d, s, before[0]).None? then Applied(s, before[0]) else s;
      assert (before + later)[0] == before[0] && (before + later)[1..] == before[1..] + later;
      RunsCompose(d, next, m, before[1..], later);
    }
  }

  lemma AcceptedKeepsSafe(d: Deployment, s: AuthState, m: Mutation)
    requires Verdict(d, s, m).None? && !EffectiveUnsafe(d, s)
    ensures !EffectiveUnsafe(d, Applied(s, m))
  {}

  /** With a fixed deployment file no run of mutations takes a safe configuration to an unsafe one. */
  lemma {:induction false} RunKeepsSafe(d: Deployment, s: AuthState, ms: seq<Mutation>)
    requires !EffectiveUnsafe(d, s)
    ensures !EffectiveUnsafe(d, After(d, s, ms))
    decreases |ms|
  {
    if ms != [] {
      var next := if Verdict(d, s, ms[0]).None? then Applied(s, ms[0]) else s;
      if Verdict(d, s, ms[0]).None? {
        AcceptedKeepsSafe(d, s, ms[0]);
      }
      RunKeepsSafe(d, next, ms[1..]);
    }
  }

  /** Proposals alone never make the stored fallback unsafe under a managed GENERAL setting. */
  lemma {:induction false} ProposalsKeepFallback(d: Deployment, s: AuthState, ms: seq<Mutation>)
    requires d.general.Some? && !FallbackUnsafe(s) && forall i :: 0 <= i < |ms| ==> ms[i].UpsertGeneral?
    ensures !FallbackUnsafe(After(d, s, ms))
    decreases |ms|
  {
    if ms != [] {
      var next := if Verdict(d, s, ms[0]).None? then Applied(s, ms[0]) else s;
      ProposalsKeepFallback(d, next, ms[1..]);
    }
  }

  lemma {:induction false} WithoutProviderExact(providers: seq<Provider>, id: int, p: Provider)
    ensures p in WithoutProvider(providers, id) <==> p in providers && p.id != id
    decreases |providers|
  {
    if providers != [] {
      var init, last := providers[..|providers| - 1], providers[|providers| - 1];
      assert providers == init + [last];
      WithoutProviderExact(init, id, p);
    }
  }

  /** Regular users can sign in: with a password unless the setting forbids it, or through a provider. */
  predicate CanSignIn(general: Option<General>, stored: seq<Provider>, deployed: seq<Provider>) {
    general == None || general == Some(General(false)) || stored != [] || deployed != []
  }

  lemma SafeIff(general: Option<General>, stored: seq<Provider>, deployed: seq<Provider>)
    ensures Unsafe(general, Uids(stored) + Uids(deployed)) <==> !CanSignIn(general, stored, deployed)
    ensures Unsafe(general, Uids(stored)) <==> !CanSignIn(general, stored, [])
  {
    NoUids(stored);
    NoUids(deployed);
    if general.Some? {
      assert general.value == General(general.value.disallowPasswordAuth);
    }
  }

  /** A proposed setting is accepted exactly when users can still sign in with it, or could not before;
      a managed setting is not looked at, and neither are the deployment's providers then. */
  lemma ProposalAcceptedIff(d: Deployment, s: AuthState, g: General)
    requires !s.general.Undecodable?
    ensures var deployed := if d.general.Some? then [] else d.providers;
      Verdict(d, s, UpsertGeneral(g)).None?
      <==> CanSignIn(Some(g), s.providers, deployed) || !CanSignIn(StoredSetting(s.general), s.providers, deployed)
  {
    SafeIff(Some(g), s.providers, d.providers);
    SafeIff(StoredSetting(s.general), s.providers, d.providers);
  }

  /** A deletion is accepted exactly when the setting in force does not forbid passwords, another
      provider stays, or there was no provider at all. */
  lemma DeletionAcceptedIff(d: Deployment, s: AuthState, id: int)
    requires !s.general.Undecodable?
    ensures var general := if d.general.Some? then d.general else StoredSetting(s.general);
      Verdict(d, s, DeleteProvider(id)).None?
      <==>
      || (general.Some? ==> !general.value.disallowPasswordAuth)
      || d.providers != [] || (exists p :: p in s.providers && p.id != id) || s.providers == []
  {
    var general := if d.general.Some? then d.general else StoredSetting(s.general);
    var left := WithoutProvider(s.providers, id);
    forall p | p in s.providers + left ensures p in left <==> p in s.providers && p.id != id {
      WithoutProviderExact(s.providers, id, p);
    }
    SafeIff(general, left, d.providers);
    SafeIff(general, s.providers, d.providers);
    if left != [] {
      assert left[0] in s.providers + left;
    }
  }

  /** Under a managed GENERAL setting deletions are judged by that setting, not by the stored one:
      a deletion takes the fallback from safe to unsafe exactly when the stored setting forbids passwords
      and it removes the last stored provider, while the effective configuration stays safe. */
  lemma DeletionExposesFallbackIff(d: Deployment, s: AuthState, id: int)
    requires d.general.Some? && !s.general.Undecodable? && !FallbackUnsafe(s)
    ensures var m := DeleteProvider(id);
      (Verdict(d, s, m).None? && FallbackUnsafe(Applied(s, m)))
      <==>
      && StoredSetting(s.general) == Some(General(true))
      && (exists p :: p in s.providers) && (forall p :: p in s.providers ==> p.id == id)
      && (d.general.value.disallowPasswordAuth ==> d.providers != [])
  {
    var left := WithoutProvider(s.providers, id);
    forall p | p in s.providers + left ensures p in left <==> p in s.providers && p.id != id {
      WithoutProviderExact(s.providers, id, p);
    }
    NoUids(left);
    NoUids(s.providers);
    NoUids(d.providers);
  }

  lemma NoUids(providers: seq<Provider>)
    ensures Uids(providers) == {} <==> providers == []
  {
    if providers != [] {
      assert providers[0].uid in Uids(providers);
    }
  }
}
