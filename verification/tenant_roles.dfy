/**
 Role changes and removals of tenant members: transactions that interleave
 statement by statement, under the tenant's membership lock.
 */
module TenantRoles {
  import opened Wrappers

  datatype Role = Owner | Admin | Member

  /** A local account's status; only whether it is active matters here. */
  datatype Identity = Identity(active: bool, version: nat)

  datatype Wish = SetRole(role: Role) | Remove

  /** `authRole` is the actor's role when the request started; `version` is that of a local session. */
  datatype Request = Request(actor: string, authRole: Role, version: Option<nat>, target: string, wish: Wish)

  datatype Outcome =
    | Forbidden | OnlyOwnerCanAssign | CannotActOnSelf                               // before the transaction
    | Missing | NotAManager | CannotTouchOwner | OnlyOwnerCanTouchAdmin | AccountNotActive
    | Done

  datatype Phase =
    | Waiting
    | Locked
    | TargetRead(role: Role, local: Option<bool>)
    | ActorRead(role: Role, local: Option<bool>, actorRole: Option<Role>)
    | Finished(outcome: Outcome)
    | Aborted

  datatype Txn = Txn(request: Request, phase: Phase)

  datatype State = State(members: map<string, Role>, identities: map<string, Identity>, lock: Option<nat>, txns: seq<Txn>)

  // ----- the rules ------------------------------------------------------------------

  predicate IsManager(role: Option<Role>) { role == Some(Owner) || role == Some(Admin) }

  function MayAssignRole(actorRole: Option<Role>, role: Role): Option<Outcome> {
    if !IsManager(actorRole) then Some(NotAManager)
    else if role != Member && actorRole != Some(Owner) then Some(OnlyOwnerCanAssign)
    else None
  }

  predicate OwnerRoleRefused(role: Role, local: Option<bool>) { role == Owner && local == Some(false) }

  /** What the route answers before it opens a transaction. */
  function EarlyRefusal(r: Request): Option<Outcome> {
    if r.authRole == Member then Some(Forbidden)
    else if r.wish.SetRole? && r.wish.role != Member && r.authRole != Owner then Some(OnlyOwnerCanAssign)
    else if r.target == r.actor then Some(CannotActOnSelf)
    else None
  }

  /** The decision inside the transaction, on what it read. */
  function Decide(wish: Wish, target: Role, local: Option<bool>, actorRole: Option<Role>): Outcome {
    match wish
    case SetRole(role) =>
      var refusal := MayAssignRole(actorRole, role);
      if refusal.Some? then refusal.value
      else if target == Owner && role != Owner then CannotTouchOwner
      else if target == Admin && actorRole != Some(Owner) then OnlyOwnerCanTouchAdmin
      else if target != Owner && OwnerRoleRefused(role, local) then AccountNotActive
      else Done
    case Remove =>
      if !IsManager(actorRole) then NotAManager
      else if target == Owner then CannotTouchOwner
      else if target == Admin && actorRole != Some(Owner) then OnlyOwnerCanTouchAdmin
      else Done
  }

  function RoleOf(s: State, user: string): Option<Role> {
    if user in s.members then Some(s.members[user]) else None
  }

  function LocalStatus(s: State, user: string): Option<bool> {
    if user in s.identities then Some(s.identities[user].active) else None
  }

  /** No role for a local session whose account moved past it. */
  function CurrentRole(s: State, user: string, version: Option<nat>): Option<Role> {
    if version.Some? && (user !in s.identities || s.identities[user].version != version.value) then None else RoleOf(s, user)
  }

  // ----- the machine -------------------------------------------------------------------

  datatype Action =
    | Arrive(request: Request)
    | TakeLock(i: nat)
    | ReadTarget(i: nat)
    | ReadActor(i: nat)
    | Commit(i: nat)
    | Abort(i: nat)
    | Join(user: string, role: Role)                    // a first login adds a member, without the lock
    | ChangeAccount(user: string, identity: Identity)   // a factor or password change, or a disabled account

  predicate Running(p: Phase) { p.Locked? || p.TargetRead? || p.ActorRead? }

  /** The account's row is locked by a transaction that read it. */
  ghost predicate AccountLocked(s: State, user: string) {
    exists i :: 0 <= i < |s.txns| && Holds(s.txns[i], user)
  }

  predicate Holds(t: Txn, user: string) {
    || ((t.phase.TargetRead? || t.phase.ActorRead?) && t.request.target == user)
    || (t.phase.ActorRead? && t.request.actor == user && t.request.version.Some?)
  }

  /** What is possible when nobody waits for the membership lock. */
  ghost predicate Possible(s: State, a: Action) {
    match a
    case Arrive(request) => EarlyRefusal(request).None?
    case TakeLock(i) => i < |s.txns| && s.txns[i].phase.Waiting?
    case ReadTarget(i) => i < |s.txns| && s.txns[i].phase.Locked?
    case ReadActor(i) => i < |s.txns| && s.txns[i].phase.TargetRead?
    case Commit(i) => i < |s.txns| && s.txns[i].phase.ActorRead?
    case Abort(i) => i < |s.txns| && Running(s.txns[i].phase)
    case Join(user, _) => user !in s.members
    case ChangeAccount(user, _) => !AccountLocked(s, user)
  }

  ghost predicate Enabled(s: State, a: Action) {
    Possible(s, a) && (a.TakeLock? ==> s.lock.None?)
  }

  function Enter(s: State, i: nat, phase: Phase): State
    requires i < |s.txns|
  {
    s.(txns := s.txns[i := s.txns[i].(phase := phase)], lock := if Running(phase) then Some(i) else None)
  }

  function Write(members: map<string, Role>, target: string, wish: Wish): map<string, Role> {
    if wish.SetRole? then members[target := wish.role] else members - {target}
  }

  ghost function Step(s: State, a: Action): State
    requires Possible(s, a)
  {
    match a
    case Arrive(request) => s.(txns := s.txns + [Txn(request, Waiting)])
    case TakeLock(i) => Enter(s, i, Locked)
    case ReadTarget(i) =>
      var target := s.txns[i].request.target;
      if target in s.members then Enter(s, i, TargetRead(s.members[target], LocalStatus(s, target)))
      else Enter(s, i, Finished(Missing))
    case ReadActor(i) =>
      var t := s.txns[i];
      Enter(s, i, ActorRead(t.phase.role, t.phase.local, CurrentRole(s, t.request.actor, t.request.version)))
    case Commit(i) =>
      var t := s.txns[i];
      var outcome := Decide(t.request.wish, t.phase.role, t.phase.local, t.phase.actorRole);
      var after := Enter(s, i, Finished(outcome));
      if outcome.Done? then after.(members := Write(s.members, t.request.target, t.request.wish)) else after
    case Abort(i) => Enter(s, i, Aborted)
    case Join(user, role) => s.(members := s.members[user := role])
    case ChangeAccount(user, identity) => s.(identities := s.identities[user := identity])
  }

  // ----- what the lock keeps ------------------------------------------------------------------

  /** What a running transaction read is still so. */
  ghost predicate ReadsHold(s: State, t: Txn) {
    match t.phase
    case TargetRead(role, local) => RoleOf(s, t.request.target) == Some(role) && LocalStatus(s, t.request.target) == local
    case ActorRead(role, local, actorRole) =>
      && RoleOf(s, t.request.target) == Some(role) && LocalStatus(s, t.request.target) == local
      && (actorRole.Some? ==> CurrentRole(s, t.request.actor, t.request.version) == actorRole)
    case _ => true
  }

  /** The transaction that runs is the one that holds the lock. */
  ghost predicate LockOk(s: State) {
    && (s.lock.Some? ==> s.lock.value < |s.txns|)
    && (forall i :: 0 <= i < |s.txns| ==> (Running(s.txns[i].phase) <==> s.lock == Some(i)))
  }

  predicate AdmittedTxn(t: Txn) { EarlyRefusal(t.request).None? }

  ghost predicate Inv(s: State) {
    && LockOk(s)
    && (forall i :: 0 <= i < |s.txns| ==> AdmittedTxn(s.txns[i]))
    && (forall i :: 0 <= i < |s.txns| ==> ReadsHold(s, s.txns[i]))
  }

  lemma LockStep(s: State, a: Action)
    requires Inv(s) && Enabled(s, a)
    ensures LockOk(Step(s, a))
  {
  }

  lemma AdmittedStep(s: State, a: Action, k: nat)
    requires Inv(s) && Enabled(s, a) && k < |Step(s, a).txns|
    ensures AdmittedTxn(Step(s, a).txns[k])
  {
    assert k < |s.txns| ==> AdmittedTxn(s.txns[k]) && Step(s, a).txns[k].request == s.txns[k].request;
  }

  lemma ReadsStep(s: State, a: Action, k: nat)
    requires Inv(s) && Enabled(s, a) && k < |Step(s, a).txns|
    ensures ReadsHold(Step(s, a), Step(s, a).txns[k])
  {
    if a.ChangeAccount? && Running(s.txns[k].phase) { assert !Holds(s.txns[k], a.user); }
  }

  lemma InvStep(s: State, a: Action)
    requires Inv(s) && Enabled(s, a)
    ensures Inv(Step(s, a))
  {
    LockStep(s, a);
    var t := Step(s, a);
    forall k | 0 <= k < |t.txns| ensures AdmittedTxn(t.txns[k]) && ReadsHold(t, t.txns[k]) {
      AdmittedStep(s, a, k);
      ReadsStep(s, a, k);
    }
  }

  // ----- who changes what -----------------------------------------------------------------------

  ghost function Owners(s: State): set<string> { set u | u in s.members && s.members[u] == Owner }

  /** The roles after the step differ for this user. */
  ghost predicate RoleChanged(s: State, a: Action, user: string)
    requires Possible(s, a)
  {
    RoleOf(s, user) != RoleOf(Step(s, a), user)
  }

  /**
   A step that changes an existing member's role, or removes the member, is the
   commit of one request about that member by another user, who is a manager with
   a current session at that very moment; by an owner when the old or the new role
   is above member; never away from owner; and to owner only for an account that
   is active, if it is a local one.
   */
  ghost predicate StepIsAuthorised(s: State, a: Action)
    requires Possible(s, a)
  {
    forall user :: user in s.members && RoleChanged(s, a, user) ==>
      a.Commit? && ChangeIsAuthorised(s, s.txns[a.i].request, user, RoleOf(Step(s, a), user))
  }

  /** A local session has the version of its account. */
  predicate SessionIsCurrent(s: State, r: Request) {
    r.version.Some? ==> r.actor in s.identities && s.identities[r.actor].version == r.version.value
  }

  ghost predicate ChangeIsAuthorised(s: State, r: Request, user: string, after: Option<Role>)
    requires user in s.members
  {
    && r.target == user != r.actor
    && r.actor in s.members && s.members[r.actor] != Member && SessionIsCurrent(s, r)
    && (s.members[user] != Member || (after.Some? && after.value != Member) ==> s.members[r.actor] == Owner)
    && s.members[user] != Owner
    && (after == Some(Owner) ==> user !in s.identities || s.identities[user].active)
    && after == (if r.wish.SetRole? then Some(r.wish.role) else None)
  }

  lemma StepAuthorised(s: State, a: Action)
    requires Inv(s) && Enabled(s, a)
    ensures StepIsAuthorised(s, a) && Owners(s) <= Owners(Step(s, a))
  {
    if a.Commit? {
      var t := s.txns[a.i];
      assert ReadsHold(s, t) && AdmittedTxn(t);
    }
  }

  ghost predicate ValidRun(s: State, run: seq<Action>)
    decreases |run|
  {
    run == [] || (Enabled(s, run[0]) && ValidRun(Step(s, run[0]), run[1..]))
  }

  ghost function After(s: State, run: seq<Action>): State
    requires ValidRun(s, run)
    decreases |run|
  {
    if run == [] then s else After(Step(s, run[0]), run[1..])
  }

  ghost predicate EveryStepAuthorised(s: State, run: seq<Action>)
    requires ValidRun(s, run)
    decreases |run|
  {
    run == [] || (StepIsAuthorised(s, run[0]) && EveryStepAuthorised(Step(s, run[0]), run[1..]))
  }

  /** In every interleaving: owners stay owners, and every change is authorised when it commits. */
  lemma {:induction false} OwnersStayAndChangesAreAuthorised(s: State, run: seq<Action>)
    requires Inv(s) && ValidRun(s, run)
    ensures Inv(After(s, run)) && Owners(s) <= Owners(After(s, run)) && EveryStepAuthorised(s, run)
    decreases |run|
  {
    if run != [] {
      InvStep(s, run[0]);
      StepAuthorised(s, run[0]);
      OwnersStayAndChangesAreAuthorised(Step(s, run[0]), run[1..]);
    }
  }

  // ----- a request is carried out -----------------------------------------------------------------

  /** The whole table: owners may do anything but touch an owner or promote an inactive account; admins may keep or remove members. */
  predicate Permitted(actor: Option<Role>, target: Role, wish: Wish, inactive: bool) {
    match actor
    case Some(Owner) => if target == Owner then wish == SetRole(Owner) else !(wish == SetRole(Owner) && inactive)
    case Some(Admin) => target == Member && (wish == SetRole(Member) || wish == Remove)
    case _ => false
  }

  /** What each refusal says is so. */
  ghost predicate RefusalIsTrue(outcome: Outcome, actor: Option<Role>, target: Role, wish: Wish, inactive: bool) {
    match outcome
    case NotAManager => actor == None || actor == Some(Member)
    case OnlyOwnerCanAssign => actor == Some(Admin) && wish.SetRole? && wish.role != Member
    case CannotTouchOwner => target == Owner && wish != SetRole(Owner)
    case OnlyOwnerCanTouchAdmin => target == Admin && actor == Some(Admin)
    case AccountNotActive => target != Owner && wish == SetRole(Owner) && inactive
    case Done => true
    case _ => false
  }

  lemma DecideExactly(wish: Wish, target: Role, local: Option<bool>, actor: Option<Role>)
    ensures Decide(wish, target, local, actor).Done? <==> Permitted(actor, target, wish, local == Some(false))
    ensures RefusalIsTrue(Decide(wish, target, local, actor), actor, target, wish, local == Some(false))
  {}

  /** The members after a permitted wish. */
  ghost predicate CarriedOut(before: map<string, Role>, after: map<string, Role>, target: string, wish: Wish) {
    && (forall u :: u != target ==> (u in after <==> u in before) && (u in before ==> after[u] == before[u]))
    && (if wish.SetRole? then target in after && after[target] == wish.role else target !in after)
  }

  /** A commit does what was asked if the table permits it to the role that was read, and nothing else otherwise. */
  lemma CommitExactly(s: State, i: nat)
    requires Inv(s) && Enabled(s, Commit(i))
    ensures
      var (t, r) := (Step(s, Commit(i)), s.txns[i].request);
      && r.target in s.members && t.lock == None
      && t.txns[i].request == r && t.txns[i].phase.Finished?
      && var inactive := r.target in s.identities && !s.identities[r.target].active;
         var (outcome, actor) := (t.txns[i].phase.outcome, s.txns[i].phase.actorRole);
         if Permitted(actor, s.members[r.target], r.wish, inactive)
         then outcome.Done? && CarriedOut(s.members, t.members, r.target, r.wish)
         else !outcome.Done? && t.members == s.members && RefusalIsTrue(outcome, actor, s.members[r.target], r.wish, inactive)
  {
    var t := s.txns[i];
    assert ReadsHold(s, t);
    DecideExactly(t.request.wish, t.phase.role, t.phase.local, t.phase.actorRole);
  }

  /** The actor's role for this request, as the tables say it now. */
  function ActorNow(s: State, r: Request): Option<Role> {
    if r.actor in s.members && SessionIsCurrent(s, r) then Some(s.members[r.actor]) else None
  }

  /** A waiting request that gets the lock has read both roles after three steps, or is answered that there is no such member after two. */
  lemma UndisturbedReads(s: State, i: nat)
    requires Inv(s) && i < |s.txns| && s.txns[i].phase.Waiting? && s.lock.None?
    ensures
      var r := s.txns[i].request;
      var s2 := (assert Enabled(s, TakeLock(i)); Step(Step(s, TakeLock(i)), ReadTarget(i)));
      && s2.members == s.members && s2.identities == s.identities && |s2.txns| == |s.txns| && s2.txns[i].request == r
      && (r.target !in s.members ==> s2.txns[i].phase == Finished(Missing) && s2.lock == None)
      && (r.target in s.members ==>
            && s2.txns[i].phase.TargetRead?
            && var s3 := Step(s2, ReadActor(i));
               s3.members == s.members && s3.identities == s.identities && s3.txns[i].request == r
               && s3.txns[i].phase.ActorRead? && s3.txns[i].phase.actorRole == ActorNow(s, r))
  {}

  /**
   A waiting request whose transaction is not disturbed takes the lock, reads and
   commits: it is carried out if and only if the table permits it to the role that
   its actor has with a current session, and otherwise changes nothing.
   */
  lemma UndisturbedRequest(s: State, i: nat) returns (t: State)
    requires Inv(s) && i < |s.txns| && s.txns[i].phase.Waiting? && s.lock.None?
    requires s.txns[i].request.target in s.members
    ensures ValidRun(s, [TakeLock(i), ReadTarget(i), ReadActor(i), Commit(i)])
    ensures t == After(s, [TakeLock(i), ReadTarget(i), ReadActor(i), Commit(i)]) && i < |t.txns|
    ensures
      var r := s.txns[i].request;
      var inactive := r.target in s.identities && !s.identities[r.target].active;
      if Permitted(ActorNow(s, r), s.members[r.target], r.wish, inactive)
      then t.txns[i].phase == Finished(Done) && CarriedOut(s.members, t.members, r.target, r.wish)
      else t.txns[i].phase.Finished? && !t.txns[i].phase.outcome.Done? && t.members == s.members
  {
    UndisturbedReads(s, i);
    var s1 := Step(s, TakeLock(i));
    InvStep(s, TakeLock(i));
    var s2 := Step(s1, ReadTarget(i));
    InvStep(s1, ReadTarget(i));
    var s3 := Step(s2, ReadActor(i));
    InvStep(s2, ReadActor(i));
    CommitExactly(s3, i);
    t := Step(s3, Commit(i));
    OneStepRun(s3, Commit(i));
    ConsRun(s2, ReadActor(i), [Commit(i)]);
    ConsRun(s1, ReadTarget(i), [ReadActor(i), Commit(i)]);
    ConsRun(s, TakeLock(i), [ReadTarget(i), ReadActor(i), Commit(i)]);
  }

  lemma ConsRun(s: State, a: Action, rest: seq<Action>)
    requires Enabled(s, a) && ValidRun(Step(s, a), rest)
    ensures ValidRun(s, [a] + rest) && After(s, [a] + rest) == After(Step(s, a), rest)
  {
    assert ([a] + rest)[1..] == rest;
  }

  lemma OneStepRun(s: State, a: Action)
    requires Enabled(s, a)
    ensures ValidRun(s, [a]) && After(s, [a]) == Step(s, a)
  {
    assert [a][1..] == [];
  }

  /** What the route lets through to its transaction. */
  lemma AdmittedExactly(r: Request)
    ensures EarlyRefusal(r).None? <==>
      r.authRole != Member && r.target != r.actor && (r.authRole == Admin && r.wish.SetRole? ==> r.wish.role == Member)
    ensures match EarlyRefusal(r)
            case Some(Forbidden) => r.authRole == Member
            case Some(OnlyOwnerCanAssign) => r.authRole == Admin && r.wish.SetRole? && r.wish.role != Member
            case Some(CannotActOnSelf) => r.target == r.actor
            case Some(_) => false
            case None => true
  {}

  // ----- the lock is needed -----------------------------------------------------------------------

  /** An admin's request to remove a member, and the owner's request to demote that admin. */
  function Removal(admin: string, member: string): Request { Request(admin, Admin, None, member, Remove) }

  function Demotion(owner: string, admin: string): Request { Request(owner, Owner, None, admin, SetRole(Member)) }

  function Team(owner: string, admin: string, member: string, adminRole: Role): map<string, Role> {
    map[owner := Owner, admin := adminRole, member := Member]
  }

  function Arrived(owner: string, admin: string, member: string): State {
    State(Team(owner, admin, member, Admin), map[], None, [Txn(Removal(admin, member), Waiting), Txn(Demotion(owner, admin), Waiting)])
  }

  /** The admin's transaction has read both roles. */
  function Checked(owner: string, admin: string, member: string): State {
    State(Team(owner, admin, member, Admin), map[], Some(0),
          [Txn(Removal(admin, member), ActorRead(Member, None, Some(Admin))), Txn(Demotion(owner, admin), Waiting)])
  }

  /** The owner's transaction then ran to its end. */
  function Demoted(owner: string, admin: string, member: string): State {
    State(Team(owner, admin, member, Member), map[], None,
          [Txn(Removal(admin, member), ActorRead(Member, None, Some(Admin))), Txn(Demotion(owner, admin), Finished(Done))])
  }

  /** A run of what is possible when nobody waits for the lock. */
  ghost predicate LaxRun(s: State, run: seq<Action>, t: State)
    decreases |run|
  {
    if run == [] then s == t else Possible(s, run[0]) && LaxRun(Step(s, run[0]), run[1..], t)
  }

  lemma LaxCons(s: State, a: Action, s1: State, rest: seq<Action>, t: State)
    requires Possible(s, a) && Step(s, a) == s1 && LaxRun(s1, rest, t)
    ensures LaxRun(s, [a] + rest, t)
  {
    assert ([a] + rest)[1..] == rest;
  }

  lemma LaxOne(s: State, a: Action, t: State)
    requires Possible(s, a) && Step(s, a) == t
    ensures LaxRun(s, [a], t)
  {
    LaxCons(s, a, t, [], t);
    assert [a] + [] == [a];
  }

  lemma {:induction false} LaxConcat(s: State, one: seq<Action>, t: State, two: seq<Action>, u: State)
    requires LaxRun(s, one, t) && LaxRun(t, two, u)
    ensures LaxRun(s, one + two, u)
    decreases |one|
  {
    if one == [] {
      assert one + two == two;
    } else {
      assert (one + two)[1..] == one[1..] + two;
      LaxConcat(Step(s, one[0]), one[1..], t, two, u);
    }
  }

  lemma AdminChecks(owner: string, admin: string, member: string)
    requires owner != admin && admin != member && member != owner
    ensures LaxRun(Arrived(owner, admin, member), [TakeLock(0), ReadTarget(0), ReadActor(0)], Checked(owner, admin, member))
  {
    var s0 := Arrived(owner, admin, member);
    var s1 := Step(s0, TakeLock(0));
    var s2 := Step(s1, ReadTarget(0));
    LaxOne(s2, ReadActor(0), Checked(owner, admin, member));
    LaxCons(s1, ReadTarget(0), s2, [ReadActor(0)], Checked(owner, admin, member));
    LaxCons(s0, TakeLock(0), s1, [ReadTarget(0), ReadActor(0)], Checked(owner, admin, member));
    assert [TakeLock(0)] + [ReadTarget(0), ReadActor(0)] == [TakeLock(0), ReadTarget(0), ReadActor(0)];
    assert [ReadTarget(0)] + [ReadActor(0)] == [ReadTarget(0), ReadActor(0)];
  }

  lemma CheckedIsLegal(owner: string, admin: string, member: string)
    requires owner != admin && admin != member && member != owner
    ensures Inv(Checked(owner, admin, member))
  {
    var s := Checked(owner, admin, member);
    assert ReadsHold(s, s.txns[0]) && ReadsHold(s, s.txns[1]);
  }

  lemma OwnerDemotes(owner: string, admin: string, member: string)
    requires owner != admin && admin != member && member != owner
    ensures LaxRun(Checked(owner, admin, member), [TakeLock(1), ReadTarget(1), ReadActor(1), Commit(1)], Demoted(owner, admin, member))
  {
    var s0, end := Checked(owner, admin, member), Demoted(owner, admin, member);
    var s1 := Step(s0, TakeLock(1));
    var s2 := Step(s1, ReadTarget(1));
    var s3 := Step(s2, ReadActor(1));
    assert Team(owner, admin, member, Admin)[admin := Member] == Team(owner, admin, member, Member);
    LaxOne(s3, Commit(1), end);
    LaxCons(s2, ReadActor(1), s3, [Commit(1)], end);
    LaxCons(s1, ReadTarget(1), s2, [ReadActor(1), Commit(1)], end);
    LaxCons(s0, TakeLock(1), s1, [ReadTarget(1), ReadActor(1), Commit(1)], end);
    assert [ReadActor(1)] + [Commit(1)] == [ReadActor(1), Commit(1)];
    assert [ReadTarget(1)] + [ReadActor(1), Commit(1)] == [ReadTarget(1), ReadActor(1), Commit(1)];
    assert [TakeLock(1)] + [ReadTarget(1), ReadActor(1), Commit(1)] == [TakeLock(1), ReadTarget(1), ReadActor(1), Commit(1)];
  }

  /** The admin, demoted to member after the check, commits the removal. */
  lemma MemberRemoves(owner: string, admin: string, member: string) returns (after: State)
    requires owner != admin && admin != member && member != owner
    ensures LaxRun(Demoted(owner, admin, member), [Commit(0)], after)
    ensures CurrentRole(Demoted(owner, admin, member), admin, None) == Some(Member)
    ensures member in Demoted(owner, admin, member).members && member !in after.members
  {
    after := Step(Demoted(owner, admin, member), Commit(0));
    LaxOne(Demoted(owner, admin, member), Commit(0), after);
  }

  /**
   The lock is what forbids it: from the arrival of both requests, were nobody made
   to wait, a run leads through the admin's check and the committed demotion to a
   removal by a plain member. With the lock the demotion has to wait at that point.
   */
  lemma WithoutTheLockADemotedAdminFinishes(owner: string, admin: string, member: string)
    returns (before: seq<Action>, after: State)
    requires owner != admin && admin != member && member != owner
    ensures Inv(Arrived(owner, admin, member)) && Inv(Checked(owner, admin, member))
    ensures Possible(Checked(owner, admin, member), TakeLock(1)) && !Enabled(Checked(owner, admin, member), TakeLock(1))
    ensures LaxRun(Arrived(owner, admin, member), before, Demoted(owner, admin, member))
    ensures LaxRun(Arrived(owner, admin, member), before + [Commit(0)], after)
    ensures CurrentRole(Demoted(owner, admin, member), admin, None) == Some(Member)
    ensures member in Demoted(owner, admin, member).members && member !in after.members
  {
    AdminChecks(owner, admin, member);
    CheckedIsLegal(owner, admin, member);
    OwnerDemotes(owner, admin, member);
    var check, demote := [TakeLock(0), ReadTarget(0), ReadActor(0)], [TakeLock(1), ReadTarget(1), ReadActor(1), Commit(1)];
    before := check + demote;
    LaxConcat(Arrived(owner, admin, member), check, Checked(owner, admin, member), demote, Demoted(owner, admin, member));
    after := MemberRemoves(owner, admin, member);
    LaxConcat(Arrived(owner, admin, member), before, Demoted(owner, admin, member), [Commit(0)], after);
  }
}
