/** What the group operations do to memberships and to the roles they grant. */
module Memberships {
  import opened Text
  import opened Container
  import opened Accounts
  import opened AccountsSafety

  /** Only these three names stand for roles; every other text, the legacy `user` among them, is a guest. */
  lemma RoleOfName(value: string)
    ensures NormalizeRole(value) == Admin <==> value == "admin"
    ensures NormalizeRole(value) == MailboxManager <==> value == "mailbox_manager"
  {}

  /** Each role implies those before it: guest, mailbox manager, admin. */
  lemma RoleGrantsIff(role: Role, required: Role)
    ensures RoleGrants(role, required) <==> role == required || role == Admin || required == Guest
  {}

  /** The account itself, or a group it belongs to, grants the role. */
  ghost predicate Grants(t: Tables, id: int, r: Role)
    requires id in t.users
  {
    NormalizeRole(t.users[id].role) == r || exists g :: (id, g) in t.links && g in t.groups && NormalizeRole(t.groups[g].role) == r
  }

  /** The roles an account has, its own included. */
  function RolesOf(t: Tables, id: int): set<Role>
    requires id in t.users
  {
    {NormalizeRole(t.users[id].role)} + set s | s in GroupRoles(t, id) :: NormalizeRole(s)
  }

  lemma GrantsIsMember(t: Tables, id: int, r: Role)
    requires id in t.users
    ensures Grants(t, id, r) <==> r in RolesOf(t, id)
  {
    hide NormalizeRole;
    if g :| (id, g) in t.links && g in t.groups && NormalizeRole(t.groups[g].role) == r {
      assert t.groups[g].role in GroupRoles(t, id);
    }
    if r in RolesOf(t, id) && r != NormalizeRole(t.users[id].role) {
      var s :| s in GroupRoles(t, id) && NormalizeRole(s) == r;
      var l :| l in t.links && l.0 == id && l.1 in t.groups && t.groups[l.1].role == s;
      var h := l.1;
      assert l == (id, h);
      assert (id, h) in t.links && h in t.groups && NormalizeRole(t.groups[h].role) == r;
      assert Grants(t, id, r);
    }
  }

  /** MAIN: the effective role is granted, and no higher one is: admin over mailbox manager over guest. */
  lemma EffectiveIsHighest(t: Tables, id: int)
    requires id in t.users
    ensures Grants(t, id, Effective(t, id))
    ensures Effective(t, id) == Admin <==> Grants(t, id, Admin)
    ensures Effective(t, id) == MailboxManager <==> Grants(t, id, MailboxManager) && !Grants(t, id, Admin)
  {
    hide NormalizeRole, GroupRoles, Grants;
    GrantsIsMember(t, id, Admin);
    GrantsIsMember(t, id, MailboxManager);
    GrantsIsMember(t, id, Guest);
    var own := NormalizeRole(t.users[id].role);
    var roles := RolesOf(t, id);
    assert own in roles;
    assert Effective(t, id) == Highest(roles);
    assert Admin !in roles && MailboxManager !in roles ==> own == Guest;
  }

  /** Two states grant an account the same roles. */
  ghost predicate SameRoles(t: Tables, t1: Tables, id: int) { id in t.users && id in t1.users && Effective(t1, id) == Effective(t, id) }

  lemma SameGrants(t: Tables, t1: Tables, id: int)
    requires id in t.users && id in t1.users && forall r :: Grants(t1, id, r) <==> Grants(t, id, r)
    ensures SameRoles(t, t1, id)
  {
    hide Grants, Effective;
    EffectiveIsHighest(t, id);
    EffectiveIsHighest(t1, id);
  }

  function Higher(a: Role, b: Role): Role { if a == Admin || b == Guest then a else if b == Admin then b else MailboxManager }

  /** MAIN: adding users to a group is accepted if and only if the group and all of them exist; then exactly these
      memberships are added, and the role of exactly these users is raised to that of the group where it is higher. */
  lemma AddedMembers(env: Env, t: Tables, g: int, users: seq<int>)
    ensures var (t1, answer) := Step(env, t, AddMembers(g, users));
      (answer == Done <==> g in t.groups && forall u | u in users :: u in t.users) &&
      (answer != Done ==> answer == Refused(Missing) && t1 == t) &&
      (answer == Done ==>
        t1.(links := t.links) == t && (forall l :: l in t1.links <==> l in t.links || (l.0 in users && l.1 == g)) &&
        forall id | id in t.users ::
          Effective(t1, id) == if id in users then Higher(Effective(t, id), NormalizeRole(t.groups[g].role)) else Effective(t, id))
  {
    hide NormalizeRole, Effective, Grants;
    var (t1, answer) := Step(env, t, AddMembers(g, users));
    if forall u | u in users :: u in t.users { assert forall k | 0 <= k < |users| :: users[k] in users; }
    if answer == Done {
      assert forall l :: l in t1.links <==> l in t.links || (l.0 in users && l.1 == g);
      forall id | id in t.users
        ensures Effective(t1, id) == if id in users then Higher(Effective(t, id), NormalizeRole(t.groups[g].role)) else Effective(t, id) {
        forall r ensures Grants(t1, id, r) <==> Grants(t, id, r) || (id in users && r == NormalizeRole(t.groups[g].role)) { GrantsAdded(t, t1, g, users, id, r); }
        EffectiveIsHighest(t, id);
        EffectiveIsHighest(t1, id);
      }
    }
  }

  lemma GrantsAdded(t: Tables, t1: Tables, g: int, users: seq<int>, id: int, r: Role)
    requires id in t.users && g in t.groups && t1.(links := t.links) == t
    requires forall l :: l in t1.links <==> l in t.links || (l.0 in users && l.1 == g)
    ensures Grants(t1, id, r) <==> Grants(t, id, r) || (id in users && r == NormalizeRole(t.groups[g].role))
  {
    hide NormalizeRole;
    if id in users { assert (id, g) in t1.links; }
  }

  /** MAIN: removing a membership is accepted if and only if the group exists; exactly that membership goes, and
      nobody else's role changes. */
  lemma RemovedMember(env: Env, t: Tables, g: int, user: int)
    ensures var (t1, answer) := Step(env, t, RemoveMember(g, user));
      answer == (if g in t.groups then Done else Refused(Missing)) && t1.(links := t.links) == t &&
      (forall l :: l in t1.links <==> l in t.links && !(answer == Done && l == (user, g))) &&
      forall id | id in t.users && id != user :: SameRoles(t, t1, id)
  {
    hide NormalizeRole, SameRoles;
    var t1 := Step(env, t, RemoveMember(g, user)).0;
    forall id | id in t.users && id != user ensures SameRoles(t, t1, id) { SameGrants(t, t1, id); }
  }

  /** MAIN: a group is created unless its name is taken; it has no members, so nobody's role changes. */
  lemma CreatedGroup(env: Env, t: Tables, op: Op)
    requires Valid(t) && op.CreateGroup? && op.id !in t.groups
    ensures var (t1, answer) := Step(env, t, op);
      answer == (if exists g :: g in t.groups && t.groups[g].name == op.name then Refused(UniqueViolation) else Done) &&
      t1 == (if answer == Done then t.(groups := t.groups[op.id := Group(op.name, op.description, RoleName(op.role))]) else t) &&
      forall id | id in t.users :: SameRoles(t, t1, id)
  {
    hide NormalizeRole, SameRoles, RoleName;
    var t1 := Step(env, t, op).0;
    forall id | id in t.users ensures SameRoles(t, t1, id) { SameGrants(t, t1, id); }
  }

  /** MAIN: a group is changed unless it is missing or another one has the name; the roles of those outside it stay. */
  lemma UpdatedGroup(env: Env, t: Tables, g: int, name: string, description: string, role: Role)
    ensures var (t1, answer) := Step(env, t, UpdateGroup(g, name, description, role));
      answer == (if g !in t.groups then Refused(Missing)
                 else if exists h :: h != g && h in t.groups && t.groups[h].name == name then Refused(UniqueViolation) else Done) &&
      t1 == (if answer == Done then t.(groups := t.groups[g := Group(name, description, RoleName(role))]) else t) &&
      (forall id | id in t.users && (id, g) !in t.links :: SameRoles(t, t1, id)) &&
      (answer == Done ==> forall id | id in t.users && (id, g) in t.links :: Grants(t1, id, role))
  {
    hide NormalizeRole, SameRoles, RoleName;
    RoleNameNormalizes(role);
    var t1 := Step(env, t, UpdateGroup(g, name, description, role)).0;
    forall id | id in t.users && (id, g) !in t.links ensures SameRoles(t, t1, id) { SameGrants(t, t1, id); }
  }

  /** MAIN: a deleted group goes with its memberships and nothing else; the roles of those outside it stay. */
  lemma DeletedGroup(env: Env, t: Tables, g: int)
    ensures var (t1, answer) := Step(env, t, DeleteGroup(g));
      answer == (if g in t.groups then Done else Refused(Missing)) &&
      t1.users == t.users && t1.tokens == t.tokens && t1.groups == t.groups - {g} &&
      (forall l :: l in t1.links <==> l in t.links && !(answer == Done && l.1 == g)) &&
      forall id | id in t.users && (id, g) !in t.links :: SameRoles(t, t1, id)
  {
    hide NormalizeRole, SameRoles;
    var t1 := Step(env, t, DeleteGroup(g)).0;
    forall id | id in t.users && (id, g) !in t.links ensures SameRoles(t, t1, id) { SameGrants(t, t1, id); }
  }

  // ---- Group names -------------------------------------------------------------------------------------

  predicate UniqueGroupNames(t: Tables) {
    forall a, b | a in t.groups && b in t.groups && t.groups[a].name == t.groups[b].name :: a == b
  }

  lemma StepKeepsGroupNames(env: Env, t: Tables, op: Op)
    requires UniqueGroupNames(t)
    ensures UniqueGroupNames(Step(env, t, op).0)
  {
    hide Strip, StartsWith, Effective, IsLastAdmin, Principal, TokensOf, RoleName, UsableToken, Touched;
  }

  /** MAIN: over every run no two groups ever have the same name. */
  lemma {:induction false} RunKeepsGroupNames(env: Env, t: Tables, ops: seq<Op>, t1: Tables)
    requires UniqueGroupNames(t) && RunsTo(env, t, ops, t1)
    ensures UniqueGroupNames(t1)
    decreases |ops|
  {
    hide Step, UniqueGroupNames, Fresh;
    if ops != [] {
      StepKeepsGroupNames(env, t, ops[0]);
      RunKeepsGroupNames(env, Step(env, t, ops[0]).0, ops[1..], t1);
    }
  }
}
