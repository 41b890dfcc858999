/** The service methods of user_service, group_service, pat_service, depends and the routers, as updates of
    the database tables in place, each proved to be one step of the Accounts state machine. */
module AccountsDb {
  import opened Text
  import opened Container
  import opened Accounts

  /** The roles on the rows of one user. */
  function Roles(granted: map<int, seq<string>>, id: int): seq<string> { if id in granted then granted[id] else [] }

  lemma HighestOf(t: Tables, id: int, roles: seq<string>)
    requires id in t.users && (set r | r in roles) == GroupRoles(t, id)
    ensures HighestRole([t.users[id].role] + roles) == Effective(t, id)
  {
    hide NormalizeRole, Highest, GroupRoles, HighestRole;
    var all := [t.users[id].role] + roles;
    HighestRoleIsHighest(all);
    forall r ensures r in all <==> r == t.users[id].role || r in GroupRoles(t, id) {
      assert r in roles <==> r in set r | r in roles;
    }
    assert (set r | r in all :: NormalizeRole(r)) ==
      {NormalizeRole(t.users[id].role)} + set r | r in GroupRoles(t, id) :: NormalizeRole(r);
  }

  /** The roles user `id` has from the rows read so far. */
  function RowRoles(groups: map<int, Group>, rows: set<(int, int)>, id: int): set<string> {
    set l | l in rows && l.0 == id && l.1 in groups :: groups[l.1].role
  }

  function AddRow(granted: map<int, seq<string>>, id: int, role: string): map<int, seq<string>> {
    granted[id := Roles(granted, id) + [role]]
  }

  lemma OneMoreRow(groups: map<int, Group>, granted: map<int, seq<string>>, rows: set<(int, int)>, l: (int, int), id: int)
    requires l.1 in groups && (set r | r in Roles(granted, id)) == RowRoles(groups, rows, id)
    ensures (set r | r in Roles(AddRow(granted, l.0, groups[l.1].role), id)) == RowRoles(groups, rows + {l}, id)
  {
    var now := AddRow(granted, l.0, groups[l.1].role);
    if id == l.0 {
      assert (set r | r in Roles(now, id)) == (set r | r in Roles(granted, id)) + {groups[l.1].role};
      assert RowRoles(groups, rows + {l}, id) == RowRoles(groups, rows, id) + {groups[l.1].role};
    } else {
      assert RowRoles(groups, rows + {l}, id) == RowRoles(groups, rows, id);
    }
  }

  class Database {
    var users: map<int, User>
    var groups: map<int, Group>
    var links: set<(int, int)>
    var tokens: map<int, Token>

    ghost function View(): Tables
      reads this
    {
      Tables(users, groups, links, tokens)
    }

    constructor ()
      ensures View() == Tables(map[], map[], {}, map[]) && Valid(View())
    {
      users, groups, links, tokens := map[], map[], {}, map[];
    }

    // ---- Queries -----------------------------------------------------------------------------------

    method GetByUsername(username: string) returns (found: Option<int>)
      requires UniqueNames(View())
      ensures found == FindUser(View(), username)
    {
      found := None;
      if exists id :: id in users && users[id].username == username {
        var id :| id in users && users[id].username == username;
        found := Some(id);
      }
    }

    method GetByTokenHash(hash: string) returns (found: Option<int>)
      requires UniqueHashes(View())
      ensures found == FindToken(View(), hash)
    {
      found := None;
      if exists p :: p in tokens && tokens[p].hash == hash {
        var p :| p in tokens && tokens[p].hash == hash;
        found := Some(p);
      }
    }

    /** Every account once. */
    method ListUsers() returns (ids: seq<int>)
      ensures forall id :: id in ids <==> id in users
      ensures forall i, j | 0 <= i < j < |ids| :: ids[i] != ids[j]
    {
      ids := [];
      var rest: set<int> := users.Keys;
      while rest != {}
        invariant forall id :: id in users <==> id in ids || id in rest
        invariant forall id | id in ids :: id !in rest
        invariant forall i, j | 0 <= i < j < |ids| :: ids[i] != ids[j]
        decreases |rest|
      {
        ghost var some := SomeMember(rest);
        var id :| id in rest;
        rest, ids := rest - {id}, ids + [id];
      }
    }

    /** Per requested user, the roles of its groups: one row per membership joined with its group, in
        whatever order the database returns them. */
    method GetGrantedRoles(ids: seq<int>) returns (granted: map<int, seq<string>>)
      ensures forall id | id in granted :: id in ids
      ensures forall id | id in ids :: (set r | r in Roles(granted, id)) == GroupRoles(View(), id)
    {
      granted := map[];
      if ids == [] { return; }
      var rows := set l | l in links && l.1 in groups && l.0 in ids;
      ghost var joined, done: set<(int, int)> := rows, {};
      while rows != {}
        invariant rows + done == joined
        invariant forall id | id in granted :: id in ids
        invariant forall id | id in ids :: (set r | r in Roles(granted, id)) == RowRoles(groups, done, id)
        decreases |rows|
      {
        hide Roles, RowRoles;
        var l :| l in rows;
        forall id | id in ids
          ensures (set r | r in Roles(AddRow(granted, l.0, groups[l.1].role), id)) == RowRoles(groups, done + {l}, id) {
          OneMoreRow(groups, granted, done, l, id);
        }
        rows, done := rows - {l}, done + {l};
        granted := AddRow(granted, l.0, groups[l.1].role);
      }
      forall id | id in ids ensures RowRoles(groups, done, id) == GroupRoles(View(), id) {}
    }

    /** The effective role of one account; an id of 0 would be taken for a missing one. */
    method ResolveRole(id: int) returns (role: Role)
      requires id in users && PositiveIds(View())
      ensures role == Effective(View(), id)
    {
      hide Effective, HighestRole, GroupRoles;
      var granted := GetGrantedRoles(if id != 0 then [id] else []);
      HighestOf(View(), id, Roles(granted, id));
      role := HighestRole([users[id].role] + Roles(granted, if id != 0 then id else 0));
    }

    /** Many accounts from one query: the same roles as one account at a time. */
    method ResolveMany(ids: seq<int>) returns (roles: seq<Role>)
      requires PositiveIds(View()) && forall id | id in ids :: id in users
      ensures |roles| == |ids| && forall k | 0 <= k < |ids| :: roles[k] == Effective(View(), ids[k])
    {
      hide Effective, HighestRole, GroupRoles;
      var asked := KnownIds(ids);
      var granted := GetGrantedRoles(asked);
      roles := [];
      for k := 0 to |ids|
        invariant |roles| == k && forall j | 0 <= j < k :: roles[j] == Effective(View(), ids[j])
      {
        assert ids[k] in asked;
        HighestOf(View(), ids[k], Roles(granted, ids[k]));
        roles := roles + [HighestRole([users[ids[k]].role] + Roles(granted, if ids[k] != 0 then ids[k] else 0))];
      }
    }

    static function KnownIds(ids: seq<int>): (r: seq<int>)
      ensures forall id :: id in r <==> id in ids && id != 0
    {
      if ids == [] then [] else if ids[0] != 0 then [ids[0]] + KnownIds(ids[1..]) else KnownIds(ids[1..])
    }

    method CountActiveAdmins() returns (count: nat)
      requires PositiveIds(View())
      ensures count == |ActiveAdmins(View())|
    {
      hide Effective;
      var ids := ListUsers();
      var roles := ResolveMany(ids);
      count := 0;
      ghost var seen: set<int> := {};
      for k := 0 to |ids|
        invariant count == |seen| && seen <= ActiveAdmins(View())
        invariant forall u | u in seen :: u in ids[..k]
        invariant forall j | 0 <= j < k && ids[j] in ActiveAdmins(View()) :: ids[j] in seen
      {
        if roles[k] == Admin && users[ids[k]].active {
          count, seen := count + 1, seen + {ids[k]};
        }
      }
      assert seen == ActiveAdmins(View());
    }

    /** Counts the active administrators of the whole table. */
    method CheckLastAdmin(id: int) returns (last: bool)
      requires id in users && PositiveIds(View())
      ensures last == IsLastAdmin(View(), id)
    {
      hide Effective;
      if !users[id].active { return false; }
      var role := ResolveRole(id);
      if role != Admin { return false; }
      var activeAdmins := CountActiveAdmins();
      last := activeAdmins <= 1;
    }

    method ToSessionUser(id: int) returns (principal: SessionUser)
      requires id in users && PositiveIds(View())
      ensures principal == Principal(View(), id)
    {
      hide Effective;
      var u := users[id];
      var role := ResolveRole(id);
      principal := SessionUser(u.username, if u.displayName != "" then u.displayName else u.username, role, u.provider);
    }

    // ---- Accounts ------------------------------------------------------------------------------------

    method CreateLocalUser(id: int, username: string, displayName: string, hash: string) returns (answer: Answer)
      requires Valid(View()) && id > 0 && id !in users
      modifies this`users
      ensures (View(), answer) ==
        CreateUserStep(old(View()), id, username, displayName, hash, FindUser(old(View()), Strip(username)).Some?)
    {
      hide Strip;
      var name := Strip(username);
      if name == "" { return Refused(Invalid); }
      var found := GetByUsername(name);
      if found.Some? { return Refused(Clash); }
      users := users[id := User(name, Strip(displayName), "guest", Local, Some(hash), true, None)];
      answer := Done;
    }

    method RemoveUserMemberships(id: int)
      modifies this`links
      ensures links == set l | l in old(links) && l.0 != id
    {
      links := set l | l in links && l.0 != id;
    }

    method DeleteTokensOf(id: int)
      modifies this`tokens
      ensures tokens == map p | p in old(tokens) && old(tokens)[p].userId != id :: old(tokens)[p]
    {
      tokens := map p | p in tokens && tokens[p].userId != id :: tokens[p];
    }

    method DeleteUser(caller: string, id: int) returns (answer: Answer)
      requires Valid(View())
      modifies this
      ensures (View(), answer) == DeleteUserStep(old(View()), caller, id)
    {
      hide IsLastAdmin;
      if id !in users { return Refused(Missing); }
      if users[id].username == caller { return Refused(Clash); }
      var last := CheckLastAdmin(id);
      if last { return Refused(Clash); }
      RemoveUserMemberships(id);
      DeleteTokensOf(id);
      users := users - {id};
      answer := Done;
    }

    method SetUserStatus(caller: string, id: int, active: bool) returns (answer: Answer)
      requires Valid(View())
      modifies this`users
      ensures (View(), answer) == SetStatusStep(old(View()), caller, id, active)
    {
      hide IsLastAdmin;
      if id !in users { return Refused(Missing); }
      if !active && users[id].username == caller { return Refused(Clash); }
      if !active {
        var last := CheckLastAdmin(id);
        if last { return Refused(Clash); }
      }
      users := users[id := users[id].(active := active)];
      answer := Done;
    }

    method SetPassword(id: int, hash: string)
      requires id in users
      modifies this`users
      ensures users == old(users)[id := old(users)[id].(passwordHash := Some(hash))]
    {
      users := users[id := users[id].(passwordHash := Some(hash))];
    }

    method ResetPassword(id: int, hash: string) returns (answer: Answer)
      modifies this`users
      ensures (View(), answer) == ResetPasswordStep(old(View()), id, hash)
    {
      if id !in users { return Refused(Missing); }
      if users[id].provider != Local { return Refused(Clash); }
      SetPassword(id, hash);
      answer := Done;
    }

    method ChangeOwnPassword(env: Env, username: string, current: string, new_: string, hash: string) returns (answer: Answer)
      requires Valid(View())
      modifies this`users
      ensures (View(), answer) == ChangeOwnPasswordStep(env, old(View()), username, current, new_, hash)
    {
      var found := GetByUsername(username);
      if found.None? { return Refused(Missing); }
      var u := users[found.value];
      if !HasPassword(u) { return Refused(Clash); }
      if !env.verify(current, u.passwordHash.value) { return Refused(Invalid); }
      if current == new_ { return Refused(Invalid); }
      SetPassword(found.value, hash);
      answer := Done;
    }

    // ---- Groups -----------------------------------------------------------------------------------------

    method CreateGroup(id: int, name: string, description: string, role: Role) returns (answer: Answer)
      requires id !in groups
      modifies this`groups
      ensures (View(), answer) == CreateGroupStep(old(View()), id, name, description, role)
    {
      if exists g :: g in groups && g != id && groups[g].name == name { return Refused(UniqueViolation); }
      groups := groups[id := Group(name, description, RoleName(role))];
      answer := Done;
    }

    method UpdateGroup(id: int, name: string, description: string, role: Role) returns (answer: Answer)
      modifies this`groups
      ensures (View(), answer) == UpdateGroupStep(old(View()), id, name, description, role)
    {
      if id !in groups { return Refused(Missing); }
      if exists g :: g in groups && g != id && groups[g].name == name { return Refused(UniqueViolation); }
      groups := groups[id := Group(name, description, RoleName(role))];
      answer := Done;
    }

    method DeleteGroup(id: int) returns (answer: Answer)
      modifies this`groups, this`links
      ensures (View(), answer) == DeleteGroupStep(old(View()), id)
    {
      if id !in groups { return Refused(Missing); }
      links := set l | l in links && l.1 != id;
      groups := groups - {id};
      answer := Done;
    }

    /** All users are looked up before the first membership is written. */
    method AddUsersToGroup(group: int, ids: seq<int>) returns (answer: Answer)
      modifies this`links
      ensures (View(), answer) == AddMembersStep(old(View()), group, ids)
    {
      if group !in groups { return Refused(Missing); }
      for k := 0 to |ids|
        invariant forall j | 0 <= j < k :: ids[j] in users
        invariant links == old(links)
      {
        if ids[k] !in users { return Refused(Missing); }
      }
      for k := 0 to |ids|
        invariant links == old(links) + set j | 0 <= j < k :: (ids[j], group)
      {
        links := links + {(ids[k], group)};
      }
      answer := Done;
    }

    method RemoveUserFromGroup(group: int, user: int) returns (answer: Answer)
      modifies this`links
      ensures (View(), answer) == RemoveMemberStep(old(View()), group, user)
    {
      if group !in groups { return Refused(Missing); }
      links := links - {(user, group)};
      answer := Done;
    }

    // ---- Signing in -----------------------------------------------------------------------------------------

    method AuthenticateLocal(env: Env, username: string, password: string, now: int) returns (answer: Answer)
      requires Valid(View())
      modifies this`users
      ensures (View(), answer) == LoginLocalStep(env, old(View()), username, password, now)
    {
      hide Principal;
      var found := GetByUsername(username);
      if found.None? { return Anonymous; }
      var u := users[found.value];
      if !HasPassword(u) { return Anonymous; }
      if !env.verify(password, u.passwordHash.value) { return Anonymous; }
      if !u.active { return Anonymous; }
      users := users[found.value := u.(lastLogin := Some(now))];
      var principal := ToSessionUser(found.value);
      answer := Resolved(principal);
    }

    method UpsertOidcUser(id: int, username: string, displayName: string, role: Role, now: int) returns (answer: Answer)
      requires Valid(View()) && id > 0 && id !in users
      modifies this`users
      ensures (View(), answer) == LoginOidcStep(old(View()), id, username, displayName, role, now)
    {
      hide Principal, RoleName;
      var found := GetByUsername(username);
      if found.Some? && users[found.value].provider != Oidc { return Refused(Clash); }
      var target := id;
      var u := User(username, displayName, RoleName(role), Oidc, None, true, None);
      if found.Some? {
        target, u := found.value, users[found.value];
        if !u.active { return Refused(Forbidden); }
        u := u.(displayName := displayName, role := RoleName(role));
      }
      users := users[target := u.(lastLogin := Some(now))];
      var principal := ToSessionUser(target);
      answer := Resolved(principal);
    }

    // ---- Personal access tokens ----------------------------------------------------------------------------

    method CreateToken(env: Env, id: int, username: string, name: string, raw: string, now: int, lifetime: int) returns (answer: Answer)
      requires Valid(View()) && id !in tokens
      modifies this`tokens
      ensures (View(), answer) == CreateTokenStep(env, old(View()), id, username, name, raw, now, lifetime)
    {
      hide Strip;
      var found := GetByUsername(username);
      if found.None? { return Refused(Missing); }
      if Strip(name) == "" { return Refused(Invalid); }
      var owned := set p | p in tokens && tokens[p].userId == found.value;
      assert owned == TokensOf(View(), found.value);
      if |owned| >= env.maxTokens { return Refused(Clash); }
      var expires := if lifetime != 0 then Some(now + lifetime) else None;
      tokens := tokens[id := Token(found.value, Strip(name), env.digest(raw), expires, None)];
      answer := Done;
    }

    method RevokeToken(username: string, id: int) returns (answer: Answer)
      requires Valid(View())
      modifies this`tokens
      ensures (View(), answer) == RevokeTokenStep(old(View()), username, id)
    {
      var found := GetByUsername(username);
      if found.None? { return Refused(Missing); }
      if id !in tokens || tokens[id].userId != found.value { return Refused(Missing); }
      tokens := tokens - {id};
      answer := Done;
    }

    /** The owner of a presented token, touching its last use at most once a minute. */
    method AuthenticateToken(env: Env, raw: string, now: int) returns (user: Option<int>)
      requires Valid(View())
      modifies this`tokens
      ensures var p := UsableToken(env, old(View()), raw, now);
        if p.None? then user == None && tokens == old(tokens)
        else user == Some(old(tokens)[p.value].userId) && tokens == old(tokens)[p.value := Touched(old(tokens)[p.value], now)]
    {
      hide Strip;
      var candidate := Strip(raw);
      var bare := if StartsWith(candidate, TOKEN_PREFIX) then candidate[|TOKEN_PREFIX|..] else candidate;
      if bare == "" { return None; }
      var found := GetByTokenHash(env.digest(candidate));
      if found.None? { return None; }
      var token := tokens[found.value];
      if Expired(token, now) { return None; }
      if token.userId !in users { return None; }
      if token.lastUsed.None? || now - token.lastUsed.value >= REFRESH_SECONDS {
        tokens := tokens[found.value := token.(lastUsed := Some(now))];
      } else {
        assert tokens == tokens[found.value := token];
      }
      user := Some(token.userId);
    }

    /** `cookie` is the subject of the session cookie when that decodes. */
    method CurrentUser(env: Env, cookie: Option<string>, bearer: Option<string>, now: int) returns (answer: Answer)
      requires Valid(View())
      modifies this`tokens
      ensures (View(), answer) == AuthenticateStep(env, old(View()), cookie, bearer, now)
    {
      hide Principal, StartsWith, UsableToken, Touched;
      if cookie.Some? {
        var account := GetByUsername(cookie.value);
        if account.None? || !users[account.value].active { return Anonymous; }
        var principal := ToSessionUser(account.value);
        return Resolved(principal);
      }
      if !env.patsEnabled || bearer.None? { return Anonymous; }
      if !StartsWith(bearer.value, TOKEN_PREFIX) { return Anonymous; }
      var owner := AuthenticateToken(env, bearer.value, now);
      if owner.None? || !users[owner.value].active { return Anonymous; }
      var principal := ToSessionUser(owner.value);
      answer := Resolved(principal);
    }
  }
}
