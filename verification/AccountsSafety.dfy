/** What every step and every run of the account tables keeps true. */
module AccountsSafety {
  import opened Text
  import opened Container
  import opened Accounts

  // ---- Referential integrity ------------------------------------------------------------------------

  lemma StepKeepsNames(env: Env, t: Tables, op: Op)
    requires UniqueNames(t) && Fresh(env, t, op)
    ensures UniqueNames(Step(env, t, op).0)
  {
    hide Strip, StartsWith, Effective, IsLastAdmin, GroupNameTaken, Principal, TokensOf, RoleName, UsableToken, Touched;
  }

  lemma StepKeepsHashes(env: Env, t: Tables, op: Op)
    requires UniqueHashes(t) && Fresh(env, t, op)
    ensures UniqueHashes(Step(env, t, op).0)
  {
    hide Strip, StartsWith, Effective, IsLastAdmin, GroupNameTaken, Principal, TokensOf, RoleName;
  }

  lemma StepKeepsReferences(env: Env, t: Tables, op: Op)
    requires Referential(t) && Fresh(env, t, op)
    ensures Referential(Step(env, t, op).0)
  {
    hide Strip, StartsWith, Effective, IsLastAdmin, GroupNameTaken, Principal, TokensOf, RoleName;
  }

  lemma StepKeepsPositiveIds(env: Env, t: Tables, op: Op)
    requires PositiveIds(t) && Fresh(env, t, op)
    ensures PositiveIds(Step(env, t, op).0)
  {
    hide Strip, StartsWith, Effective, IsLastAdmin, GroupNameTaken, Principal, TokensOf, RoleName, UsableToken, Touched;
  }

  /** MAIN: every step keeps names and digests unique and every membership and token attached to an
      existing user and group, also when the database hands out an id again. */
  lemma StepKeepsValid(env: Env, t: Tables, op: Op)
    requires Valid(t) && Fresh(env, t, op)
    ensures Valid(Step(env, t, op).0)
  {
    hide Step, Fresh, UniqueNames, UniqueHashes, Referential, PositiveIds;
    StepKeepsNames(env, t, op);
    StepKeepsHashes(env, t, op);
    StepKeepsReferences(env, t, op);
    StepKeepsPositiveIds(env, t, op);
  }

  lemma {:induction false} RunKeepsValid(env: Env, t: Tables, ops: seq<Op>, t1: Tables)
    requires Valid(t) && RunsTo(env, t, ops, t1)
    ensures Valid(t1)
    decreases |ops|
  {
    hide Step, Valid, Fresh;
    if ops != [] {
      StepKeepsValid(env, t, ops[0]);
      RunKeepsValid(env, Step(env, t, ops[0]).0, ops[1..], t1);
    }
  }

  /** MAIN: in any reachable state a freshly created local account is a guest without tokens, whatever
      account had its id before. */
  lemma FreshAccountIsGuest(env: Env, start: Tables, ops: seq<Op>, t: Tables, op: Op)
    requires Valid(start) && RunsTo(env, start, ops, t)
    requires op.CreateUser? && Fresh(env, t, op) && Step(env, t, op).1 == Done
    ensures var t1 := Step(env, t, op).0;
      op.id in t1.users && Effective(t1, op.id) == Guest && TokensOf(t1, op.id) == {} && t1.users[op.id].active
  {
    hide Strip, NormalizeRole;
    RunKeepsValid(env, start, ops, t);
    var t1 := Step(env, t, op).0;
    assert Referential(t);
    assert t1.links == t.links && t1.tokens == t.tokens;
    assert forall l | l in t1.links :: l.0 != op.id;
    assert forall p | p in t1.tokens :: t1.tokens[p].userId != op.id;
    assert GroupRoles(t1, op.id) == {} && TokensOf(t1, op.id) == {};
    assert NormalizeRole("guest") == Guest by { RoleNameNormalizes(Guest); }
  }

  // ---- Effective roles across a step ---------------------------------------------------------------

  /** The effective role depends only on the stored role and the roles of the groups joined. */
  lemma EffectiveSame(t: Tables, t1: Tables, id: int)
    requires id in t.users && id in t1.users
    requires NormalizeRole(t1.users[id].role) == NormalizeRole(t.users[id].role)
    requires GroupRoles(t1, id) == GroupRoles(t, id)
    ensures Effective(t1, id) == Effective(t, id)
  {
    hide NormalizeRole, GroupRoles, Highest;
  }

  /** Admin through the account itself or through a group. */
  predicate AdminBy(t: Tables, id: int, g: int) { (id, g) in t.links && g in t.groups && NormalizeRole(t.groups[g].role) == Admin }

  lemma EffectiveAdminIff(t: Tables, id: int)
    requires id in t.users
    ensures Effective(t, id) == Admin <==> NormalizeRole(t.users[id].role) == Admin || exists g :: AdminBy(t, id, g)
  {
    hide NormalizeRole;
    var roles := {NormalizeRole(t.users[id].role)} + set r | r in GroupRoles(t, id) :: NormalizeRole(r);
    assert Effective(t, id) == Admin <==> Admin in roles;
    if Admin in roles && NormalizeRole(t.users[id].role) != Admin {
      var r :| r in GroupRoles(t, id) && NormalizeRole(r) == Admin;
      var l :| l in t.links && l.0 == id && l.1 in t.groups && t.groups[l.1].role == r;
      assert AdminBy(t, id, l.1);
    }
    if g :| AdminBy(t, id, g) {
      assert (id, g) in t.links;
      assert t.groups[g].role in GroupRoles(t, id);
    }
  }

  // ---- The last active administrator ------------------------------------------------------------------

  /** Steps that may lower somebody's role: leaving or deleting a group that grants more than guest, giving a
      group a lower role, an OIDC sign-in with a lower role. */
  ghost predicate MayLower(t: Tables, op: Op) {
    match op
    case UpdateGroup(id, _, _, role) => id in t.groups && Rank(role) < Rank(NormalizeRole(t.groups[id].role))
    case DeleteGroup(id) => id in t.groups && NormalizeRole(t.groups[id].role) != Guest
    case RemoveMember(g, user) => g in t.groups && (user, g) in t.links && NormalizeRole(t.groups[g].role) != Guest
    case LoginOidc(_, username, _, role, _) =>
      var found := FindUser(t, username);
      found.Some? && Rank(role) < Rank(NormalizeRole(t.users[found.value].role))
    case _ => false
  }

  /** Somebody stays an active administrator if their account is kept, stays active and keeps a reason. */
  lemma StaysAdmin(t: Tables, t1: Tables, id: int)
    requires id in ActiveAdmins(t) && id in t1.users && t1.users[id].active
    requires NormalizeRole(t.users[id].role) == Admin ==> NormalizeRole(t1.users[id].role) == Admin
    requires forall g | AdminBy(t, id, g) :: AdminBy(t1, id, g)
    ensures id in ActiveAdmins(t1)
  {
    hide NormalizeRole, Effective, AdminBy;
    EffectiveAdminIff(t, id);
    EffectiveAdminIff(t1, id);
  }

  /** Only deleting and deactivating can stop an active administrator, and then it is not the last one. */
  lemma AdminSurvives(env: Env, t: Tables, op: Op, id: int)
    requires Valid(t) && Fresh(env, t, op) && !MayLower(t, op) && id in ActiveAdmins(t)
    requires op.DeleteUser? || op.SetStatus? ==> op.id != id
    ensures id in ActiveAdmins(Step(env, t, op).0)
  {
    hide Strip, StartsWith, IsLastAdmin, GroupNameTaken, NormalizeRole, Effective, RoleName, Principal, Expired, Touched, HasPassword;
    if op.UpdateGroup? { RoleNameNormalizes(op.role); }
    if op.LoginOidc? { RoleNameNormalizes(op.role); }
    StaysAdmin(t, Step(env, t, op).0, id);
  }

  /** MAIN: at least one active administrator survives every step that lowers nobody's role. */
  lemma StepKeepsAnAdmin(env: Env, t: Tables, op: Op)
    requires Valid(t) && Fresh(env, t, op) && !MayLower(t, op) && ActiveAdmins(t) != {}
    ensures ActiveAdmins(Step(env, t, op).0) != {}
  {
    hide Step, Effective, MayLower, Fresh, Valid;
    var id :| id in ActiveAdmins(t);
    if (op.DeleteUser? || op.SetStatus?) && ActiveAdmins(t) == {op.id} {
      LastAdminGuard(env, t, op);
    } else if (op.DeleteUser? || op.SetStatus?) && id == op.id {
      var other :| other in ActiveAdmins(t) && other != op.id;
      AdminSurvives(env, t, op, other);
    } else {
      AdminSurvives(env, t, op, id);
    }
  }

  /** The last active administrator is neither deleted nor deactivated. */
  lemma LastAdminGuard(env: Env, t: Tables, op: Op)
    requires (op.DeleteUser? || op.SetStatus?) && ActiveAdmins(t) == {op.id}
    ensures op.id in ActiveAdmins(Step(env, t, op).0)
    ensures op.DeleteUser? || !op.active ==> Step(env, t, op) == (t, Refused(Clash))
  {
    hide Effective;
    assert IsLastAdmin(t, op.id);
    if op.SetStatus? && op.active {
      var t1 := Step(env, t, op).0;
      assert GroupRoles(t1, op.id) == GroupRoles(t, op.id);
      EffectiveSame(t, t1, op.id);
    }
  }

  /** A run in which no step lowers a role. */
  ghost predicate NothingLowered(env: Env, t: Tables, ops: seq<Op>)
    decreases |ops|
  {
    ops == [] || (!MayLower(t, ops[0]) && NothingLowered(env, Step(env, t, ops[0]).0, ops[1..]))
  }

  /** MAIN: over every such run an active administrator remains. */
  lemma {:induction false} RunKeepsAnAdmin(env: Env, t: Tables, ops: seq<Op>, t1: Tables)
    requires Valid(t) && RunsTo(env, t, ops, t1) && NothingLowered(env, t, ops) && ActiveAdmins(t) != {}
    ensures ActiveAdmins(t1) != {}
    decreases |ops|
  {
    hide Step, Valid, Fresh, ActiveAdmins, MayLower;
    if ops != [] {
      StepKeepsValid(env, t, ops[0]);
      StepKeepsAnAdmin(env, t, ops[0]);
      RunKeepsAnAdmin(env, Step(env, t, ops[0]).0, ops[1..], t1);
    }
  }

  /** MAIN: when the caller is an active administrator other than the target, the last-admin refusal
      cannot fire: deletion and deactivation go through. */
  lemma CallerIsNotRefused(env: Env, t: Tables, op: Op, caller: int)
    requires Valid(t) && (op.DeleteUser? || op.SetStatus?) && op.id in t.users
    requires caller in ActiveAdmins(t) && caller != op.id && t.users[caller].username == op.caller
    ensures !IsLastAdmin(t, op.id) && Step(env, t, op).1 == Done
  {
    hide Effective;
    if op.id in ActiveAdmins(t) {
      assert {caller, op.id} <= ActiveAdmins(t);
      var rest := ActiveAdmins(t) - {caller, op.id};
      assert ActiveAdmins(t) == rest + {caller, op.id};
      assert |ActiveAdmins(t)| == |rest| + |{caller, op.id}|;
    }
  }

  // ---- The administrator guard of the routes --------------------------------------------------------------

  /** require_admin lets a request through: its credential resolves to a principal with the admin role. */
  ghost predicate PassesAdminGuard(env: Env, t: Tables, request: Op) {
    var answer := Step(env, t, request).1;
    request.Authenticate? && answer.Resolved? && RoleGrants(answer.principal.role, Admin)
  }

  /** Whoever passes the guard is an active administrator at that moment. */
  lemma GuardMeansActiveAdmin(env: Env, t: Tables, request: Op) returns (caller: int)
    requires PassesAdminGuard(env, t, request)
    ensures var (t1, answer) := Step(env, t, request);
      caller in ActiveAdmins(t1) && t1.users[caller].username == answer.principal.username
  {
    hide Step, Principal, Effective;
    ResolvedIsAuthentic(env, t, request);
    var (t1, answer) := Step(env, t, request);
    var id :| id in t1.users && t1.users[id].active && answer.principal == Principal(t1, id);
    caller := id;
    PrincipalName(t1, id);
    PrincipalRole(t1, id);
  }

  lemma PrincipalRole(t: Tables, id: int)
    requires id in t.users
    ensures Principal(t, id).role == Effective(t, id)
  {}

  /** MAIN: behind the guard, deleting or deactivating an existing account is refused exactly when it is the
      caller's own; the last-administrator refusal is never the reason. */
  lemma GuardedStepRefusedIff(env: Env, t: Tables, request: Op, op: Op)
    requires Valid(t) && PassesAdminGuard(env, t, request)
    requires op.DeleteUser? || op.SetStatus?
    requires var (t1, answer) := Step(env, t, request); op.caller == answer.principal.username && op.id in t1.users
    ensures var t1 := Step(env, t, request).0;
      Step(env, t1, op).1 ==
        if (op.DeleteUser? || !op.active) && t1.users[op.id].username == op.caller then Refused(Clash) else Done
  {
    hide Step, Valid, ActiveAdmins, PassesAdminGuard;
    var t1 := Step(env, t, request).0;
    assert Valid(t1) by { StepKeepsValid(env, t, request) by { AuthenticatesFresh(env, t, request); } }
    var caller := GuardMeansActiveAdmin(env, t, request);
    assert UniqueNames(t1) by { ValidNames(t1); }
    assert caller in t1.users by { ActiveAdminExists(t1, caller); }
    if caller == op.id {
      OwnAccountRefused(env, t1, op);
    } else {
      CallerIsNotRefused(env, t1, op, caller);
    }
  }

  lemma AuthenticatesFresh(env: Env, t: Tables, request: Op)
    requires PassesAdminGuard(env, t, request)
    ensures Fresh(env, t, request)
  {}

  lemma ActiveAdminExists(t: Tables, id: int)
    requires id in ActiveAdmins(t)
    ensures id in t.users
  {}

  lemma OwnAccountRefused(env: Env, t: Tables, op: Op)
    requires (op.DeleteUser? || op.SetStatus?) && op.id in t.users && t.users[op.id].username == op.caller
    ensures Step(env, t, op).1 == if op.DeleteUser? || !op.active then Refused(Clash) else Done
  {
    hide IsLastAdmin;
  }

  // ---- Steps that lower roles: exactly when an administrator remains -------------------------------------

  /** An active user who is an administrator without the help of group g. */
  ghost predicate AdminWithout(t: Tables, id: int, g: int) {
    id in t.users && t.users[id].active &&
    (NormalizeRole(t.users[id].role) == Admin || exists h :: h != g && AdminBy(t, id, h))
  }

  lemma DeleteGroupKeepsAnAdminIff(t: Tables, g: int)
    requires g in t.groups
    ensures ActiveAdmins(DeleteGroupStep(t, g).0) != {} <==> exists id :: AdminWithout(t, id, g)
  {
    hide NormalizeRole, Effective;
    var t1 := DeleteGroupStep(t, g).0;
    forall id | id in t.users ensures id in ActiveAdmins(t1) <==> AdminWithout(t, id, g) {
      EffectiveAdminIff(t1, id);
      forall h ensures AdminBy(t1, id, h) <==> h != g && AdminBy(t, id, h) {}
    }
    if id :| AdminWithout(t, id, g) { assert id in ActiveAdmins(t1); }
    if id :| id in ActiveAdmins(t1) { assert AdminWithout(t, id, g); }
  }

  lemma RemoveMemberKeepsAnAdminIff(t: Tables, g: int, user: int)
    requires g in t.groups
    ensures ActiveAdmins(RemoveMemberStep(t, g, user).0) != {} <==> (ActiveAdmins(t) - {user} != {} || AdminWithout(t, user, g))
  {
    hide NormalizeRole, Effective;
    var t1 := RemoveMemberStep(t, g, user).0;
    forall id | id in t.users ensures id in ActiveAdmins(t1) <==> if id == user then AdminWithout(t, id, g) else id in ActiveAdmins(t) {
      EffectiveAdminIff(t, id);
      EffectiveAdminIff(t1, id);
      forall h ensures AdminBy(t1, id, h) <==> !(id == user && h == g) && AdminBy(t, id, h) {}
    }
    if AdminWithout(t, user, g) { assert user in ActiveAdmins(t1); }
    if id :| id in ActiveAdmins(t) - {user} { assert id in ActiveAdmins(t1); }
    if id :| id in ActiveAdmins(t1) && !AdminWithout(t, user, g) { assert id in ActiveAdmins(t) - {user}; }
  }

  lemma UpdateGroupKeepsAnAdminIff(t: Tables, g: int, name: string, description: string, role: Role)
    requires UpdateGroupStep(t, g, name, description, role).1 == Done
    ensures ActiveAdmins(UpdateGroupStep(t, g, name, description, role).0) != {} <==>
      (exists id :: AdminWithout(t, id, g)) || (role == Admin && exists id :: id in t.users && t.users[id].active && (id, g) in t.links)
  {
    hide NormalizeRole, Effective, GroupNameTaken, RoleName;
    var t1 := UpdateGroupStep(t, g, name, description, role).0;
    RoleNameNormalizes(role);
    forall id | id in t.users
      ensures id in ActiveAdmins(t1) <==> AdminWithout(t, id, g) || (role == Admin && t.users[id].active && (id, g) in t.links) {
      EffectiveAdminIff(t1, id);
      forall h ensures AdminBy(t1, id, h) <==> if h == g then role == Admin && (id, g) in t.links else AdminBy(t, id, h) {
        assert t1.groups[g].role == RoleName(role);
      }
      assert AdminBy(t1, id, g) <==> role == Admin && (id, g) in t.links;
      if AdminWithout(t, id, g) && NormalizeRole(t.users[id].role) != Admin {
        var h :| h != g && AdminBy(t, id, h);
        assert AdminBy(t1, id, h);
      }
    }
    if id :| AdminWithout(t, id, g) { assert id in ActiveAdmins(t1); }
    if id :| id in t.users && t.users[id].active && (id, g) in t.links && role == Admin { assert id in ActiveAdmins(t1); }
    if id :| id in ActiveAdmins(t1) && !AdminWithout(t, id, g) { assert (id, g) in t.links; }
  }

  lemma LoginOidcKeepsAnAdminIff(t: Tables, op: Op, id: int)
    requires Valid(t) && op.LoginOidc? && FindUser(t, op.username) == Some(id)
    requires LoginOidcStep(t, op.id, op.username, op.displayName, op.role, op.now).1.Resolved?
    ensures ActiveAdmins(LoginOidcStep(t, op.id, op.username, op.displayName, op.role, op.now).0) != {} <==>
      (ActiveAdmins(t) - {id} != {} || op.role == Admin || exists g :: AdminBy(t, id, g))
  {
    hide NormalizeRole, Effective, RoleName, UniqueNames, UniqueHashes, Referential;
    var t1 := LoginOidcStep(t, op.id, op.username, op.displayName, op.role, op.now).0;
    RoleNameNormalizes(op.role);
    forall u | u in t.users
      ensures u in ActiveAdmins(t1) <==> if u == id then op.role == Admin || (exists g :: AdminBy(t, id, g)) else u in ActiveAdmins(t) {
      EffectiveAdminIff(t, u);
      EffectiveAdminIff(t1, u);
      forall h ensures AdminBy(t1, u, h) <==> AdminBy(t, u, h) {}
    }
    if u :| u in ActiveAdmins(t) - {id} { assert u in ActiveAdmins(t1); }
    if op.role == Admin || exists g :: AdminBy(t, id, g) { assert id in ActiveAdmins(t1); }
    if u :| u in ActiveAdmins(t1) && u != id { assert u in ActiveAdmins(t) - {id}; }
  }

  /** What has to hold when a step that may lower roles comes. */
  ghost predicate LeavesAnAdmin(env: Env, t: Tables, op: Op) {
    match op
    case UpdateGroup(id, _, _, role) => Step(env, t, op).1 == Done ==>
      (exists u :: AdminWithout(t, u, id)) || (role == Admin && exists u :: u in t.users && t.users[u].active && (u, id) in t.links)
    case DeleteGroup(id) => id in t.groups ==> exists u :: AdminWithout(t, u, id)
    case RemoveMember(g, user) => g in t.groups ==> ActiveAdmins(t) - {user} != {} || AdminWithout(t, user, g)
    case LoginOidc(_, username, _, role, _) =>
      var found := FindUser(t, username);
      found.Some? && Step(env, t, op).1.Resolved? ==>
        ActiveAdmins(t) - {found.value} != {} || role == Admin || exists g :: AdminBy(t, found.value, g)
    case _ => true
  }

  lemma RefusedChangesNothing(env: Env, t: Tables, op: Op)
    requires (op.UpdateGroup? || op.DeleteGroup? || op.RemoveMember?) && Step(env, t, op).1 != Done
    ensures Step(env, t, op).0 == t
  {}

  lemma GroupStepAdminIff(env: Env, t: Tables, op: Op)
    requires (op.UpdateGroup? || op.DeleteGroup? || op.RemoveMember?) && ActiveAdmins(t) != {}
    ensures ActiveAdmins(Step(env, t, op).0) != {} <==> LeavesAnAdmin(env, t, op)
  {
    hide ActiveAdmins, AdminWithout, GroupNameTaken, RoleName;
    match op {
      case UpdateGroup(id, name, description, role) =>
        if Step(env, t, op).1 == Done { UpdateGroupKeepsAnAdminIff(t, id, name, description, role); } else { RefusedChangesNothing(env, t, op); }
      case DeleteGroup(id) =>
        if id in t.groups { DeleteGroupKeepsAnAdminIff(t, id); } else { RefusedChangesNothing(env, t, op); }
      case RemoveMember(g, user) =>
        if g in t.groups { RemoveMemberKeepsAnAdminIff(t, g, user); } else { RefusedChangesNothing(env, t, op); }
    }
  }

  lemma SignInAdminIff(env: Env, t: Tables, op: Op)
    requires Valid(t) && Fresh(env, t, op) && op.LoginOidc? && ActiveAdmins(t) != {}
    ensures ActiveAdmins(Step(env, t, op).0) != {} <==> LeavesAnAdmin(env, t, op)
  {
    hide ActiveAdmins, Valid, Principal, AdminBy, RoleName, NormalizeRole;
    var found := FindUser(t, op.username);
    if found.None? {
      StepKeepsAnAdmin(env, t, op);
    } else if Step(env, t, op).1.Resolved? {
      LoginOidcKeepsAnAdminIff(t, op, found.value);
    }
  }

  /** MAIN: exactly when an active administrator remains after a step. */
  lemma StepAdminIff(env: Env, t: Tables, op: Op)
    requires Valid(t) && Fresh(env, t, op) && ActiveAdmins(t) != {}
    ensures ActiveAdmins(Step(env, t, op).0) != {} <==> LeavesAnAdmin(env, t, op)
  {
    hide Step, Valid, Fresh, ActiveAdmins;
    if op.UpdateGroup? || op.DeleteGroup? || op.RemoveMember? {
      GroupStepAdminIff(env, t, op);
    } else if op.LoginOidc? {
      SignInAdminIff(env, t, op);
    } else {
      StepKeepsAnAdmin(env, t, op);
    }
  }

  /** There was an active administrator after every step of the run. */
  ghost predicate AdminThroughout(env: Env, t: Tables, ops: seq<Op>)
    decreases |ops|
  {
    ActiveAdmins(t) != {} && (ops != [] ==> AdminThroughout(env, Step(env, t, ops[0]).0, ops[1..]))
  }

  /** Every step of the run left one when it came. */
  ghost predicate LeftThroughout(env: Env, t: Tables, ops: seq<Op>)
    decreases |ops|
  {
    ops != [] ==> LeavesAnAdmin(env, t, ops[0]) && LeftThroughout(env, Step(env, t, ops[0]).0, ops[1..])
  }

  /** MAIN: over every run whatsoever, an active administrator remains at every point of it if and only if every
      leaving, group change, group deletion and OIDC sign-in left one when it came; no other step matters. */
  lemma {:induction false} RunAdminIff(env: Env, t: Tables, ops: seq<Op>, t1: Tables)
    requires Valid(t) && RunsTo(env, t, ops, t1) && ActiveAdmins(t) != {}
    ensures AdminThroughout(env, t, ops) <==> LeftThroughout(env, t, ops)
    decreases |ops|
  {
    hide Step, Valid, Fresh, ActiveAdmins, LeavesAnAdmin;
    if ops != [] {
      var next := Step(env, t, ops[0]).0;
      StepAdminIff(env, t, ops[0]);
      StepKeepsValid(env, t, ops[0]);
      if ActiveAdmins(next) != {} {
        RunAdminIff(env, next, ops[1..], t1);
      } else {
        assert !AdminThroughout(env, next, ops[1..]);
      }
    }
  }

  // ---- States whose only administrator is lost ---------------------------------------------------------------

  const EMPTY := Tables(map[], map[], {}, map[])

  /** One local account, an administrator through the one group it belongs to. */
  const GROUP_ADMIN := Tables(map[1 := User("a", "", "guest", Local, Some("h"), true, None)], map[7 := Group("g", "", "admin")], {(1, 7)}, map[])

  /** One provider account, an administrator by its own role. */
  const SIGNED_IN := Tables(map[1 := User("b", "B", "admin", Oidc, None, true, Some(0))], map[], {}, map[])

  lemma GroupAdminIsReached(env: Env)
    ensures RunsTo(env, EMPTY, [CreateUser(1, "a", "", "h"), CreateGroup(7, "g", "", Admin), AddMembers(7, [1])], GROUP_ADMIN)
  {
    hide FindUser, GroupNameTaken;
    var ops := [CreateUser(1, "a", "", "h"), CreateGroup(7, "g", "", Admin), AddMembers(7, [1])];
    StripTrimmed("a");
    StripTrimmed("");
    var t1 := EMPTY.(users := map[1 := User("a", "", "guest", Local, Some("h"), true, None)]);
    var t2 := t1.(groups := map[7 := Group("g", "", "admin")]);
    assert FindUser(EMPTY, "a") == None;
    assert Step(env, EMPTY, ops[0]).0 == t1;
    assert Step(env, t1, ops[1]).0 == t2 by { assert !GroupNameTaken(t1, "g", 7) by { NoGroups(t1); } }
    assert Step(env, t2, ops[2]).0 == GROUP_ADMIN by { OneMember(t2); }
    assert ops[1..] == [ops[1], ops[2]] && ops[1..][1..] == [ops[2]] && ops[1..][1..][1..] == [];
    assert RunsTo(env, t2, [ops[2]], GROUP_ADMIN) by { LastOp(env, t2, ops[2]); }
    hide Step;
  }

  lemma LastOp(env: Env, t: Tables, op: Op)
    requires Fresh(env, t, op)
    ensures RunsTo(env, t, [op], Step(env, t, op).0)
  {
    hide Step;
    assert [op][1..] == [];
  }

  lemma NoGroups(t: Tables)
    requires t.groups == map[]
    ensures forall name, id :: !GroupNameTaken(t, name, id)
  {}

  lemma OneMember(t: Tables)
    requires 7 in t.groups && 1 in t.users && t.links == {}
    ensures AddMembersStep(t, 7, [1]) == (t.(links := {(1, 7)}), Done)
  {
    var one := [1];
    var added := set k | 0 <= k < |one| :: (one[k], 7);
    assert (one[0], 7) in added;
    assert added == {(1, 7)};
    assert t.links + added == {(1, 7)};
  }

  lemma SignedInIsReached(env: Env)
    ensures RunsTo(env, EMPTY, [LoginOidc(1, "b", "B", Admin, 0)], SIGNED_IN)
  {
    hide Principal;
    LastOp(env, EMPTY, LoginOidc(1, "b", "B", Admin, 0));
  }

  /** For instance the only administrator is lost by leaving the one group that grants the role, by deleting that
      group, by making it a guest group, ... */
  lemma OnlyAdminGroup()
    ensures ActiveAdmins(GROUP_ADMIN) == {1}
    ensures ActiveAdmins(RemoveMemberStep(GROUP_ADMIN, 7, 1).0) == {} && ActiveAdmins(DeleteGroupStep(GROUP_ADMIN, 7).0) == {}
    ensures UpdateGroupStep(GROUP_ADMIN, 7, "g", "", Guest).1 == Done && ActiveAdmins(UpdateGroupStep(GROUP_ADMIN, 7, "g", "", Guest).0) == {}
  {
    hide Effective, RoleName;
    var t := GROUP_ADMIN;
    EffectiveAdminIff(t, 1);
    assert AdminBy(t, 1, 7);
    assert forall u :: !AdminWithout(t, u, 7);
    RemoveMemberKeepsAnAdminIff(t, 7, 1);
    DeleteGroupKeepsAnAdminIff(t, 7);
    assert UpdateGroupStep(t, 7, "g", "", Guest).1 == Done;
    UpdateGroupKeepsAnAdminIff(t, 7, "g", "", Guest);
    hide ActiveAdmins;
  }

  /** ... and by signing in again with a lower role. */
  lemma SignsInLower(env: Env)
    ensures Valid(SIGNED_IN) && ActiveAdmins(SIGNED_IN) == {1}
    ensures ActiveAdmins(Step(env, SIGNED_IN, LoginOidc(2, "b", "B", Guest, 1)).0) == {}
  {
    hide Effective, RoleName, Principal;
    var t, op := SIGNED_IN, LoginOidc(2, "b", "B", Guest, 1);
    EffectiveAdminIff(t, 1);
    assert FindUser(t, "b") == Some(1);
    LoginOidcKeepsAnAdminIff(t, op, 1);
    assert forall g :: !AdminBy(t, 1, g);
  }

  // ---- Authentication -----------------------------------------------------------------------------------------

  /** The principal stands for an active account and carries its current effective role. */
  ghost predicate Authentic(t: Tables, p: SessionUser) {
    exists id :: id in t.users && t.users[id].active && p == Principal(t, id)
  }

  /** MAIN: whoever a cookie, a token, a local login or an OIDC sign-in resolves to is an account that is
      active at that step, with its current effective role. */
  lemma ResolvedIsAuthentic(env: Env, t: Tables, op: Op)
    requires Step(env, t, op).1.Resolved?
    ensures Authentic(Step(env, t, op).0, Step(env, t, op).1.principal)
  {
    hide Strip, StartsWith, Principal, IsLastAdmin, GroupNameTaken, Touched, Expired;
    var t1 := Step(env, t, op).0;
    match op {
      case LoginLocal(username, _, _) =>
        var id := FindUser(t, username).value;
        assert id in t1.users && t1.users[id].active;
      case LoginOidc(newId, username, _, _, _) =>
        var id := if FindUser(t, username).Some? then FindUser(t, username).value else newId;
        assert id in t1.users && t1.users[id].active;
      case Authenticate(cookie, bearer, now) =>
        if cookie.Some? {
          assert t1.users[FindUser(t, cookie.value).value].active;
        } else {
          var p := UsableToken(env, t, bearer.value, now).value;
          assert t1.users[t.tokens[p].userId].active;
        }
      case _ =>
    }
  }

  /** MAIN: no step changes the provider of an account, nor the stored role of a local one, nor a username. */
  lemma ProviderAndLocalRoleFixed(env: Env, t: Tables, op: Op, id: int)
    requires Valid(t) && Fresh(env, t, op) && id in t.users && id in Step(env, t, op).0.users
    ensures var u, u1 := t.users[id], Step(env, t, op).0.users[id];
      u1.provider == u.provider && u1.username == u.username && (u.provider == Local ==> u1.role == u.role)
  {
    hide Strip, StartsWith, IsLastAdmin, GroupNameTaken, Principal, Effective, Touched, Expired, UniqueNames, UniqueHashes, Referential;
  }

  /** Nobody reactivates or deletes the account. */
  predicate LeavesAlone(op: Op, id: int) { !(op.SetStatus? && op.id == id && op.active) && !(op.DeleteUser? && op.id == id) }

  lemma StaysInactive(env: Env, t: Tables, op: Op, id: int)
    requires Valid(t) && Fresh(env, t, op) && LeavesAlone(op, id)
    requires id in t.users && !t.users[id].active
    ensures var t1 := Step(env, t, op).0;
      id in t1.users && !t1.users[id].active && t1.users[id].username == t.users[id].username
  {
    hide Strip, StartsWith, IsLastAdmin, GroupNameTaken, Principal, Effective, Touched, Expired, UniqueNames, UniqueHashes, Referential;
  }

  /** MAIN: between a deactivation and a reactivation (or deletion) no step resolves to the account,
      whichever credential is presented. */
  lemma {:induction false} InactiveNeverResolves(env: Env, t: Tables, ops: seq<Op>, t1: Tables, last: Op, id: int)
    requires Valid(t) && RunsTo(env, t, ops, t1) && Fresh(env, t1, last)
    requires id in t.users && !t.users[id].active
    requires (forall op | op in ops :: LeavesAlone(op, id)) && LeavesAlone(last, id)
    ensures var answer := Step(env, t1, last).1;
      answer.Resolved? ==> answer.principal.username != t.users[id].username
    decreases |ops|
  {
    hide Step, Valid, Fresh, LeavesAlone, Principal;
    if ops == [] {
      StaysInactive(env, t, last, id);
      StepKeepsValid(env, t, last);
      var (t2, answer) := Step(env, t, last);
      if answer.Resolved? {
        ResolvedIsAuthentic(env, t, last);
        var other :| other in t2.users && t2.users[other].active && answer.principal == Principal(t2, other);
        PrincipalName(t2, other);
        assert UniqueNames(t2) by { ValidNames(t2); }
      }
    } else {
      assert ops[0] in ops;
      StaysInactive(env, t, ops[0], id);
      StepKeepsValid(env, t, ops[0]);
      InactiveNeverResolves(env, Step(env, t, ops[0]).0, ops[1..], t1, last, id);
    }
  }

  lemma PrincipalName(t: Tables, id: int)
    requires id in t.users
    ensures Principal(t, id).username == t.users[id].username
  {}

  lemma ValidNames(t: Tables)
    requires Valid(t)
    ensures UniqueNames(t)
  {}

  // ---- Tokens ------------------------------------------------------------------------------------------------------

  ghost predicate TokensCapped(env: Env, t: Tables) { forall user :: |TokensOf(t, user)| <= env.maxTokens }

  /** Only issuing a token gives anybody a token. */
  lemma OthersIssueNothing(env: Env, t: Tables, op: Op, user: int)
    requires !op.CreateToken?
    ensures TokensOf(Step(env, t, op).0, user) <= TokensOf(t, user)
  {
    hide Strip, StartsWith, IsLastAdmin, GroupNameTaken, Principal, Effective, Expired, HasPassword, RoleName;
  }

  lemma IssuingStaysCapped(env: Env, t: Tables, op: Op, user: int)
    requires TokensCapped(env, t) && op.CreateToken? && Fresh(env, t, op)
    ensures |TokensOf(Step(env, t, op).0, user)| <= env.maxTokens
  {
    hide Strip, StartsWith;
    assert |TokensOf(t, user)| <= env.maxTokens;
    var t1 := Step(env, t, op).0;
    if t1 != t && user == FindUser(t, op.username).value {
      assert TokensOf(t1, user) == TokensOf(t, user) + {op.id};
    } else {
      assert TokensOf(t1, user) == TokensOf(t, user);
    }
  }

  /** MAIN: no step, hence no run, lets an account own more tokens than the limit. */
  lemma StepKeepsTokensCapped(env: Env, t: Tables, op: Op)
    requires TokensCapped(env, t) && Fresh(env, t, op)
    ensures TokensCapped(env, Step(env, t, op).0)
  {
    hide Step, TokensOf, Fresh;
    var t1 := Step(env, t, op).0;
    forall user ensures |TokensOf(t1, user)| <= env.maxTokens {
      if op.CreateToken? {
        IssuingStaysCapped(env, t, op, user);
      } else {
        assert |TokensOf(t, user)| <= env.maxTokens;
        OthersIssueNothing(env, t, op, user);
        SubsetSize(TokensOf(t1, user), TokensOf(t, user));
      }
    }
  }

  /** MAIN: an issued token resolves to its owner exactly while tokens are enabled, the owner is active and
      the token has not expired. */
  lemma IssuedTokenResolvesIff(env: Env, t: Tables, op: Op, now: int)
    requires Valid(t) && op.CreateToken? && Step(env, t, op).1 == Done
    requires op.id !in t.tokens && forall p | p in t.tokens :: t.tokens[p].hash != env.digest(op.raw)
    requires StartsWith(op.raw, TOKEN_PREFIX) && |op.raw| > |TOKEN_PREFIX| && Trimmed(op.raw)
    ensures var t1 := Step(env, t, op).0;
      var owner := FindUser(t, op.username).value;
      var answer := Step(env, t1, Authenticate(None, Some(op.raw), now)).1;
      if env.patsEnabled && t1.users[owner].active && (op.lifetime == 0 || now < op.now + op.lifetime)
      then answer == Resolved(Principal(t1, owner)) else answer == Anonymous
  {
    hide StartsWith, Strip, Effective, Highest;
    StripTrimmed(op.raw);
    var t1 := Step(env, t, op).0;
    StepKeepsValid(env, t, op);
    assert t1.tokens[op.id].hash == env.digest(op.raw);
    assert FindToken(t1, env.digest(op.raw)) == Some(op.id);
    assert op.raw[|TOKEN_PREFIX|..] != "";
    var t2 := t1.(tokens := t1.tokens[op.id := Touched(t1.tokens[op.id], now)]);
    var owner := FindUser(t, op.username).value;
    assert GroupRoles(t2, owner) == GroupRoles(t1, owner);
    PrincipalSame(t1, t2, owner);
    hide Principal;
  }

  lemma PrincipalSame(t: Tables, t1: Tables, id: int)
    requires id in t.users && t1.users == t.users && t1.groups == t.groups && t1.links == t.links
    ensures Principal(t1, id) == Principal(t, id)
  {
    assert GroupRoles(t1, id) == GroupRoles(t, id);
  }

  /** A revoked token resolves to nobody. */
  lemma RevokedTokenIsDead(env: Env, t: Tables, op: Op, raw: string, now: int)
    requires Valid(t) && op.RevokeToken? && Step(env, t, op).1 == Done && env.digest(Strip(raw)) == t.tokens[op.id].hash
    ensures Step(env, Step(env, t, op).0, Authenticate(None, Some(raw), now)).1 == Anonymous
  {
    hide StartsWith, Strip, Principal;
    var t1 := Step(env, t, op).0;
    forall p | p in t1.tokens ensures t1.tokens[p].hash != env.digest(Strip(raw)) { assert p in t.tokens && p != op.id; }
  }
}
