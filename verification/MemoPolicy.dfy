/** The memo write policy: who may write, move and share a memo, and what every run of writes keeps. */
module MemoPolicy {
  import opened Outcomes

  datatype Visibility = Public | Protected | Private | SpaceAudience | OtherVisibility(text: string)

  datatype RowStatus = Normal | Archived | OtherStatus(text: string)

  datatype Policy = Policy(actor: int, lifecycleOnly: bool, creatingShare: bool)

  /** An update of a memo; `otherFields` tells whether it touches anything but space and visibility. */
  datatype Update = Update(spaceId: Option<int>, clearSpace: bool, visibility: Option<Visibility>,
                           rowStatus: Option<RowStatus>, otherFields: bool)

  /** The database state that a write is judged by. */
  datatype Snapshot = Snapshot(creator: int, rowStatus: RowStatus, spaceId: Option<int>, visibility: Visibility,
                               sourceSpaceExists: bool, sourceMemberActive: bool, targetSpaceExists: bool,
                               targetMemberActive: bool, hasActiveShare: bool)

  datatype PolicyError =
    | InvalidPolicy | InvalidRequest | PermissionDenied | MutationConflict | MembershipRequired | SpaceNotWritable
    | ShareConflict

  predicate ValidVisibility(v: Visibility) {
    !v.OtherVisibility?
  }

  predicate LifecycleUpdate(u: Option<Update>) {
    && u.Some?
    && (u.value.clearSpace || u.value.spaceId.Some?) && !(u.value.clearSpace && u.value.spaceId.Some?)
    && u.value.rowStatus.None? && !u.value.otherFields
  }

  function ResultSpace(s: Option<int>, u: Option<Update>): Option<int> {
    if u.None? then s
    else if u.value.spaceId.Some? then u.value.spaceId
    else if u.value.clearSpace then None
    else s
  }

  function ResultVisibility(v: Visibility, u: Option<Update>): Visibility {
    if u.Some? && u.value.visibility.Some? then u.value.visibility.value else v
  }

  function ValidatePolicy(p: Policy): Option<PolicyError> {
    if p.actor <= 0 || (p.lifecycleOnly && p.creatingShare) then Some(InvalidPolicy) else None
  }

  /** The checks of a write, in their order. */
  function ValidateWrite(p: Policy, u: Option<Update>, s: Snapshot): Option<PolicyError> {
    var space := ResultSpace(s.spaceId, u);
    var visibility := ResultVisibility(s.visibility, u);
    var moved := space != s.spaceId;
    if ValidatePolicy(p).Some? then ValidatePolicy(p)
    else if s.creator != p.actor then Some(PermissionDenied)
    else if s.rowStatus.OtherStatus? then Some(MutationConflict)
    else if p.creatingShare && s.rowStatus != Normal then Some(MutationConflict)
    else if !ValidVisibility(s.visibility) then Some(MutationConflict)
    else if p.lifecycleOnly && !LifecycleUpdate(u) then Some(MembershipRequired)
    else if s.spaceId.Some? && !s.sourceSpaceExists then Some(SpaceNotWritable)
    else if s.spaceId.Some? && !p.lifecycleOnly && !s.sourceMemberActive then Some(MembershipRequired)
    else if u.Some? && u.value.spaceId.Some? && !s.targetSpaceExists then Some(SpaceNotWritable)
    else if u.Some? && u.value.spaceId.Some? && !s.targetMemberActive then Some(MembershipRequired)
    else if !ValidVisibility(visibility) then Some(MutationConflict)
    else if moved && s.visibility == SpaceAudience && (u.None? || u.value.visibility.None?) then Some(MutationConflict)
    else if p.lifecycleOnly && !moved then Some(MembershipRequired)
    else if visibility == SpaceAudience && space.None? then Some(SpaceNotWritable)
    else if p.creatingShare && visibility == SpaceAudience then Some(ShareConflict)
    else if u.Some? && u.value.visibility == Some(SpaceAudience) && s.hasActiveShare then Some(ShareConflict)
    else None
  }

  /** A refusal names what is wrong. */
  lemma RefusalNamesCause(p: Policy, u: Option<Update>, s: Snapshot)
    ensures var space, visibility := ResultSpace(s.spaceId, u), ResultVisibility(s.visibility, u);
      var target := u.Some? && u.value.spaceId.Some?;
      match ValidateWrite(p, u, s)
      case None => p.actor == s.creator
      case Some(InvalidPolicy) => p.actor <= 0 || (p.lifecycleOnly && p.creatingShare)
      case Some(PermissionDenied) => p.actor != s.creator
      case Some(MembershipRequired) =>
        || (p.lifecycleOnly && (!LifecycleUpdate(u) || space == s.spaceId))
        || (s.spaceId.Some? && !s.sourceMemberActive) || (target && !s.targetMemberActive)
      case Some(SpaceNotWritable) =>
        || (s.spaceId.Some? && !s.sourceSpaceExists) || (target && !s.targetSpaceExists)
        || (visibility == SpaceAudience && space == None)
      case Some(MutationConflict) =>
        || s.rowStatus.OtherStatus? || (p.creatingShare && s.rowStatus != Normal)
        || !ValidVisibility(s.visibility) || !ValidVisibility(visibility)
        || (space != s.spaceId && s.visibility == SpaceAudience && (u.None? || u.value.visibility.None?))
      case Some(ShareConflict) =>
        visibility == SpaceAudience && (p.creatingShare || (u.Some? && u.value.visibility.Some? && s.hasActiveShare))
      case Some(_) => false
  {}

  // ----- A memo over time -----

  datatype Memo = Memo(creator: int, rowStatus: RowStatus, spaceId: Option<int>, visibility: Visibility, shared: bool)

  /** The memberships that a transaction finds. */
  datatype Memberships = Memberships(sourceSpaceExists: bool, sourceMemberActive: bool, targetSpaceExists: bool,
                                     targetMemberActive: bool)

  datatype Action =
    | WriteMemo(policy: Policy, update: Update, memberships: Memberships)
    | ShareMemo(policy: Policy, memberships: Memberships)
    | SharesEnd

  /** The snapshot a transaction takes; shares are looked up only for a move to the space audience. */
  function TakeSnapshot(m: Memo, u: Option<Update>, ms: Memberships): Snapshot {
    Snapshot(m.creator, m.rowStatus, m.spaceId, m.visibility, ms.sourceSpaceExists, ms.sourceMemberActive,
             ms.targetSpaceExists, ms.targetMemberActive,
             m.shared && u.Some? && u.value.visibility == Some(SpaceAudience))
  }

  /** What the update call refuses before the transaction. */
  predicate RequestRefused(u: Update) {
    || (u.visibility.Some? && !ValidVisibility(u.visibility.value))
    || (u.clearSpace && u.visibility == Some(SpaceAudience))
  }

  function Written(m: Memo, u: Update): Memo {
    Memo(m.creator, if u.rowStatus.Some? then u.rowStatus.value else m.rowStatus, ResultSpace(m.spaceId, Some(u)),
         ResultVisibility(m.visibility, Some(u)), m.shared)
  }

  /** One action: a write or a share takes effect only if its policy and the snapshot allow it. */
  function Step(m: Memo, a: Action): Memo {
    match a
    case WriteMemo(policy, u, ms) =>
      if RequestRefused(u) || ValidateWrite(policy, Some(u), TakeSnapshot(m, Some(u), ms)).Some? then m
      else Written(m, u)
    case ShareMemo(policy, ms) =>
      if ValidateWrite(policy.(creatingShare := true), None, TakeSnapshot(m, None, ms)).Some? then m
      else m.(shared := true)
    case SharesEnd => m.(shared := false)
  }

  function Run(m: Memo, actions: seq<Action>): Memo
    decreases |actions|
  {
    if actions == [] then m else Run(Step(m, actions[0]), actions[1..])
  }

  /** A run of one action takes that step, and runs compose. */
  lemma {:induction false} RunsCompose(m: Memo, a: Action, before: seq<Action>, later: seq<Action>)
    ensures Run(m, [a]) == Step(m, a)
    ensures Run(m, before + later) == Run(Run(m, before), later)
    decreases |before|
  {
    hide Step;
    if before == [] {
      assert before + later == later;
    } else {
      assert (before + later)[0] == before[0] && (before + later)[1..] == before[1..] + later;
      RunsCompose(Step(m, before[0]), a, before[1..], later);
    }
  }

  /** A memo for a space audience belongs to a space and is not shared by link. */
  predicate AudienceSound(m: Memo) {
    && ValidVisibility(m.visibility)
    && (m.visibility == SpaceAudience ==> m.spaceId.Some? && !m.shared)
  }

  /** What creation accepts. */
  function ValidateCreate(uidValid: bool, spaceId: Option<int>, visibility: Visibility): Option<PolicyError> {
    if !uidValid || !ValidVisibility(visibility) then Some(InvalidRequest)
    else if visibility == SpaceAudience && spaceId.None? then Some(InvalidRequest)
    else None
  }

  lemma CreatedSound(creator: int, uidValid: bool, spaceId: Option<int>, visibility: Visibility)
    ensures ValidateCreate(uidValid, spaceId, visibility).None?
      <==> uidValid && AudienceSound(Memo(creator, Normal, spaceId, visibility, false))
  {}

  lemma StepKeepsAudience(m: Memo, a: Action)
    requires AudienceSound(m)
    ensures AudienceSound(Step(m, a))
  {}

  /** No run of writes, moves and shares leaves a memo with a space audience but no space,
      or with a space audience and an active link. */
  lemma {:induction false} RunKeepsAudience(m: Memo, actions: seq<Action>)
    requires AudienceSound(m)
    ensures AudienceSound(Run(m, actions))
    decreases |actions|
  {
    if actions != [] {
      StepKeepsAudience(m, actions[0]);
      RunKeepsAudience(Step(m, actions[0]), actions[1..]);
    }
  }

  /** Only the author changes a memo, and only while its space exists; someone who is no longer
      a member of it can only move it away, with nothing else changed. */
  lemma WriteNeedsAuthor(m: Memo, policy: Policy, u: Update, ms: Memberships)
    requires Step(m, WriteMemo(policy, u, ms)) != m
    ensures policy.actor == m.creator > 0
    ensures m.spaceId.Some? ==> ms.sourceSpaceExists
    ensures m.spaceId.Some? && !ms.sourceMemberActive ==>
      policy.lifecycleOnly && LifecycleUpdate(Some(u)) && Step(m, WriteMemo(policy, u, ms)).spaceId != m.spaceId
    ensures u.spaceId.Some? ==> ms.targetSpaceExists && ms.targetMemberActive
  {}

  /** Leaving or changing the space of a memo with a space audience names its new audience. */
  lemma MoveNamesAudience(m: Memo, policy: Policy, u: Update, ms: Memberships)
    requires m.visibility == SpaceAudience && Step(m, WriteMemo(policy, u, ms)).spaceId != m.spaceId
    ensures u.visibility.Some? && Step(m, WriteMemo(policy, u, ms)).visibility == u.visibility.value
  {}

  // ----- What no run can do -----

  /** From its creation on, no run takes a memo out of the audience rules. */
  lemma CreatedRunIsSound(creator: int, uidValid: bool, spaceId: Option<int>, visibility: Visibility, actions: seq<Action>)
    requires ValidateCreate(uidValid, spaceId, visibility).None?
    ensures AudienceSound(Run(Memo(creator, Normal, spaceId, visibility, false), actions))
  {
    CreatedSound(creator, uidValid, spaceId, visibility);
    RunKeepsAudience(Memo(creator, Normal, spaceId, visibility, false), actions);
  }

  predicate ActsAs(a: Action, user: int) {
    match a
    case WriteMemo(policy, _, _) => policy.actor == user
    case ShareMemo(policy, _) => policy.actor == user
    case SharesEnd => false
  }

  /** Nothing of the memo has changed but that its shares may have ended. */
  predicate Untouched(before: Memo, after: Memo) {
    after == before || after == before.(shared := false)
  }

  /** No run in which the author does nothing changes the memo or adds a share. */
  lemma {:induction false} OthersChangeNothing(m: Memo, actions: seq<Action>)
    requires forall i :: 0 <= i < |actions| ==> !ActsAs(actions[i], m.creator)
    ensures Untouched(m, Run(m, actions))
    decreases |actions|
  {
    if actions != [] {
      assert Untouched(m, Step(m, actions[0]));
      OthersChangeNothing(Step(m, actions[0]), actions[1..]);
    }
  }

  /** The action finds its actor without a membership, in the memo's space and in the target. */
  predicate WithoutMembership(a: Action) {
    match a
    case WriteMemo(_, _, ms) => !ms.sourceMemberActive && !ms.targetMemberActive
    case ShareMemo(_, ms) => !ms.sourceMemberActive
    case SharesEnd => true
  }

  lemma StepWithoutMembership(m: Memo, a: Action)
    requires WithoutMembership(a)
    ensures Step(m, a).spaceId.Some? ==> m.spaceId.Some? && Untouched(m, Step(m, a))
  {}

  /** Without memberships a run leaves a memo of a space as it is, unless it takes it out of every space. */
  lemma {:induction false} ExMembersOnlyLeave(m: Memo, actions: seq<Action>)
    requires forall i :: 0 <= i < |actions| ==> WithoutMembership(actions[i])
    ensures Run(m, actions).spaceId.Some? ==> m.spaceId.Some? && Untouched(m, Run(m, actions))
    decreases |actions|
  {
    if actions != [] {
      StepWithoutMembership(m, actions[0]);
      ExMembersOnlyLeave(Step(m, actions[0]), actions[1..]);
    }
  }

  predicate NamesAudience(a: Action) {
    a.WriteMemo? && a.update.visibility.Some?
  }

  lemma StepKeepsSpace(m: Memo, a: Action)
    requires m.visibility == SpaceAudience && !NamesAudience(a)
    ensures Step(m, a).visibility == SpaceAudience && Step(m, a).spaceId == m.spaceId
  {}

  /** A memo for the audience of its space stays in it, and stays for that audience, until a write
      names another audience. */
  lemma {:induction false} AudienceStaysUntilNamed(m: Memo, actions: seq<Action>)
    requires m.visibility == SpaceAudience && forall i :: 0 <= i < |actions| ==> !NamesAudience(actions[i])
    ensures Run(m, actions).visibility == SpaceAudience && Run(m, actions).spaceId == m.spaceId
    decreases |actions|
  {
    if actions != [] {
      StepKeepsSpace(m, actions[0]);
      AudienceStaysUntilNamed(Step(m, actions[0]), actions[1..]);
    }
  }

  // ----- When an action takes effect -----

  /** What a write leaves behind: each part it names, and nothing else. */
  predicate WrittenBy(m: Memo, u: Update, after: Memo) {
    && after.creator == m.creator && after.shared == m.shared
    && (u.rowStatus.Some? ==> after.rowStatus == u.rowStatus.value)
    && (u.rowStatus.None? ==> after.rowStatus == m.rowStatus)
    && (u.visibility.Some? ==> after.visibility == u.visibility.value)
    && (u.visibility.None? ==> after.visibility == m.visibility)
    && (u.spaceId.Some? ==> after.spaceId == u.spaceId)
    && (u.spaceId.None? && u.clearSpace ==> after.spaceId == None)
    && (u.spaceId.None? && !u.clearSpace ==> after.spaceId == m.spaceId)
  }

  /** An author without a membership asks for a move or a withdrawal and for nothing else but an audience. */
  predicate PureMove(u: Update) {
    u.clearSpace == u.spaceId.None? && u.rowStatus.None? && !u.otherFields
  }

  /** The author's own write of a memo in an ordinary state, from a space they may write in. */
  predicate AuthorMayAct(m: Memo, policy: Policy, ms: Memberships) {
    && policy.actor == m.creator && policy.actor > 0
    && m.rowStatus in {Normal, Archived}
    && m.visibility in {Public, Protected, Private, SpaceAudience}
    && (m.spaceId.Some? ==> ms.sourceSpaceExists && (ms.sourceMemberActive || policy.lifecycleOnly))
  }

  /** The conditions of a write, with the memo it would leave behind. */
  predicate MayWrite(m: Memo, policy: Policy, u: Update, ms: Memberships, after: Memo) {
    && AuthorMayAct(m, policy, ms)
    && after.visibility in {Public, Protected, Private, SpaceAudience}
    && (policy.lifecycleOnly ==> !policy.creatingShare && PureMove(u) && after.spaceId != m.spaceId)
    && (policy.creatingShare ==> m.rowStatus == Normal && after.visibility != SpaceAudience)
    && (u.spaceId.Some? ==> ms.targetSpaceExists && ms.targetMemberActive)
    && (m.visibility == SpaceAudience && after.spaceId != m.spaceId ==> u.visibility.Some?)
    && (after.visibility == SpaceAudience ==> after.spaceId.Some?)
    && (u.visibility == Some(SpaceAudience) ==> !m.shared && !u.clearSpace)
  }

  /** A write takes effect if and only if its author may make it, and then does exactly what it names. */
  lemma WriteEffect(m: Memo, policy: Policy, u: Update, ms: Memberships, after: Memo)
    requires WrittenBy(m, u, after)
    ensures Step(m, WriteMemo(policy, u, ms)) == if MayWrite(m, policy, u, ms, after) then after else m
  {
    hide ValidateWrite, ValidVisibility, MayWrite, LifecycleUpdate;
    WriteAllowed(m, policy, u, ms, after);
    VisibilityKinds(m.visibility);
    VisibilityKinds(after.visibility);
    if MayWrite(m, policy, u, ms, after) {
      NamedVisibility(m, policy, u, ms, after);
    }
    assert after == Written(m, u);
  }

  /** The checks of the transaction pass exactly when these conditions hold together. */
  lemma ChecksPass(p: Policy, u: Option<Update>, s: Snapshot, space: Option<int>, visibility: Visibility)
    requires space == ResultSpace(s.spaceId, u) && visibility == ResultVisibility(s.visibility, u)
    ensures ValidateWrite(p, u, s).None? <==>
      && p.actor > 0 && !(p.lifecycleOnly && p.creatingShare) && s.creator == p.actor
      && !s.rowStatus.OtherStatus? && (p.creatingShare ==> s.rowStatus == Normal)
      && ValidVisibility(s.visibility) && ValidVisibility(visibility)
      && (p.lifecycleOnly ==> LifecycleUpdate(u) && space != s.spaceId)
      && (s.spaceId.Some? ==> s.sourceSpaceExists && (p.lifecycleOnly || s.sourceMemberActive))
      && (u.Some? && u.value.spaceId.Some? ==> s.targetSpaceExists && s.targetMemberActive)
      && (space != s.spaceId && s.visibility == SpaceAudience ==> u.Some? && u.value.visibility.Some?)
      && (visibility == SpaceAudience ==> space.Some? && !p.creatingShare)
      && (u.Some? && u.value.visibility == Some(SpaceAudience) ==> !s.hasActiveShare)
  {
    hide ValidVisibility, LifecycleUpdate, ResultSpace, ResultVisibility;
  }

  lemma WriteAllowed(m: Memo, policy: Policy, u: Update, ms: Memberships, after: Memo)
    requires WrittenBy(m, u, after)
    ensures ValidateWrite(policy, Some(u), TakeSnapshot(m, Some(u), ms)).None? && !RequestRefused(u) <==>
            MayWrite(m, policy, u, ms, after) && !RequestRefused(u)
  {
    hide ValidateWrite, ValidVisibility, LifecycleUpdate;
    VisibilityKinds(m.visibility);
    VisibilityKinds(after.visibility);
    MoveKinds(u);
    ChecksPass(policy, Some(u), TakeSnapshot(m, Some(u), ms), after.spaceId, after.visibility);
  }

  lemma MoveKinds(u: Update)
    ensures LifecycleUpdate(Some(u)) <==> PureMove(u)
  {}

  lemma NamedVisibility(m: Memo, policy: Policy, u: Update, ms: Memberships, after: Memo)
    requires WrittenBy(m, u, after) && MayWrite(m, policy, u, ms, after)
    ensures !RequestRefused(u)
  {
    VisibilityKinds(after.visibility);
  }

  lemma VisibilityKinds(v: Visibility)
    ensures ValidVisibility(v) <==> v in {Public, Protected, Private, SpaceAudience}
  {}

  /** A share is added if and only if its author may act as a member, and the memo is in use and not
      for the audience of its space. */
  lemma ShareEffect(m: Memo, policy: Policy, ms: Memberships)
    ensures Step(m, ShareMemo(policy, ms)) ==
      if AuthorMayAct(m, policy, ms) && !policy.lifecycleOnly && m.rowStatus == Normal && m.visibility != SpaceAudience
      then m.(shared := true) else m
  {
    VisibilityKinds(m.visibility);
  }

  /** A share that ends is gone, and nothing else. */
  lemma EndEffect(m: Memo)
    ensures WrittenBy(m.(shared := false), Update(None, false, None, None, false), Step(m, SharesEnd))
  {}
}
