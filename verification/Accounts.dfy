/** Users, groups, memberships and personal access tokens (auth.py, services/user_service.py,
    services/group_service.py, services/pat_service.py, depends.py and the guards of the routers) as
    tables and steps on them. */
module Accounts {
  import opened Text
  import opened Container

  // ---- Roles -----------------------------------------------------------------------------------

  datatype Role = Guest | MailboxManager | Admin

  function Rank(r: Role): nat { match r case Guest => 0 case MailboxManager => 1 case Admin => 2 }

  function RoleName(r: Role): string {
    match r case Guest => "guest" case MailboxManager => "mailbox_manager" case Admin => "admin"
  }

  /** A stored role string as a known role; the legacy `user` and anything unknown are guests. */
  function NormalizeRole(value: string): Role {
    var role := if value == "user" then "guest" else value;
    if role == "admin" then Admin else if role == "mailbox_manager" then MailboxManager else Guest
  }

  /** The most privileged of the roles; guest when there is none. */
  function HighestRole(roles: seq<string>): Role {
    if roles == [] then Guest
    else
      var rest, r := HighestRole(roles[1..]), NormalizeRole(roles[0]);
      if Rank(r) > Rank(rest) then r else rest
  }

  predicate RoleGrants(role: Role, required: Role) { Rank(role) >= Rank(required) }

  function Highest(roles: set<Role>): Role {
    if Admin in roles then Admin else if MailboxManager in roles then MailboxManager else Guest
  }

  /** The highest role depends only on which roles occur, not on their order or number. */
  lemma {:induction false} HighestRoleIsHighest(roles: seq<string>)
    ensures HighestRole(roles) == Highest(set r | r in roles :: NormalizeRole(r))
  {
    if roles != [] {
      hide NormalizeRole;
      HighestRoleIsHighest(roles[1..]);
      var rest, all := set r | r in roles[1..] :: NormalizeRole(r), set r | r in roles :: NormalizeRole(r);
      assert all == rest + {NormalizeRole(roles[0])};
    }
  }

  lemma RoleNameNormalizes(r: Role)
    ensures NormalizeRole(RoleName(r)) == r
  {}

  // ---- Tables ------------------------------------------------------------------------------------

  datatype Provider = Local | Oidc

  datatype User = User(username: string, displayName: string, role: string, provider: Provider,
                       passwordHash: Option<string>, active: bool, lastLogin: Option<int>)

  datatype Group = Group(name: string, description: string, role: string)

  datatype Token = Token(userId: int, name: string, hash: string, expiresAt: Option<int>, lastUsed: Option<int>)

  datatype Tables = Tables(users: map<int, User>, groups: map<int, Group>, links: set<(int, int)>, tokens: map<int, Token>)

  /** The principal a request acts as. */
  datatype SessionUser = SessionUser(username: string, displayName: string, role: Role, provider: Provider)

  /** Password verification and token digests, as given functions, and the two settings. */
  datatype Env = Env(verify: (string, string) -> bool, digest: string -> string, patsEnabled: bool, maxTokens: nat)

  predicate UniqueNames(t: Tables) {
    forall a, b | a in t.users && b in t.users && t.users[a].username == t.users[b].username :: a == b
  }

  predicate UniqueHashes(t: Tables) {
    forall a, b | a in t.tokens && b in t.tokens && t.tokens[a].hash == t.tokens[b].hash :: a == b
  }

  /** No membership or token refers to a missing user or group. */
  predicate Referential(t: Tables) {
    (forall l | l in t.links :: l.0 in t.users && l.1 in t.groups) &&
    (forall p | p in t.tokens :: t.tokens[p].userId in t.users)
  }

  predicate PositiveIds(t: Tables) { forall id | id in t.users :: id > 0 }

  predicate Valid(t: Tables) { UniqueNames(t) && UniqueHashes(t) && Referential(t) && PositiveIds(t) }

  ghost function FindUser(t: Tables, username: string): (r: Option<int>)
    ensures r.Some? ==> r.value in t.users && t.users[r.value].username == username
    ensures r.None? ==> forall id | id in t.users :: t.users[id].username != username
  {
    if id :| id in t.users && t.users[id].username == username then Some(id) else None
  }

  ghost function FindToken(t: Tables, hash: string): (r: Option<int>)
    ensures r.Some? ==> r.value in t.tokens && t.tokens[r.value].hash == hash
    ensures r.None? ==> forall p | p in t.tokens :: t.tokens[p].hash != hash
  {
    if p :| p in t.tokens && t.tokens[p].hash == hash then Some(p) else None
  }

  predicate GroupNameTaken(t: Tables, name: string, except: int) {
    exists g :: g in t.groups && g != except && t.groups[g].name == name
  }

  // ---- Effective roles ---------------------------------------------------------------------------

  function GroupRoles(t: Tables, id: int): set<string> {
    set l | l in t.links && l.0 == id && l.1 in t.groups :: t.groups[l.1].role
  }

  /** The account role raised by the roles of every group the user belongs to. */
  function Effective(t: Tables, id: int): Role
    requires id in t.users
  {
    Highest({NormalizeRole(t.users[id].role)} + set r | r in GroupRoles(t, id) :: NormalizeRole(r))
  }

  function ActiveAdmins(t: Tables): set<int> {
    set id | id in t.users && t.users[id].active && Effective(t, id) == Admin
  }

  predicate IsLastAdmin(t: Tables, id: int) { id in ActiveAdmins(t) && |ActiveAdmins(t)| <= 1 }

  function Principal(t: Tables, id: int): SessionUser
    requires id in t.users
  {
    var u := t.users[id];
    SessionUser(u.username, if u.displayName != "" then u.displayName else u.username, Effective(t, id), u.provider)
  }

  // ---- Steps ---------------------------------------------------------------------------------------

  datatype Op =
    | CreateUser(id: int, username: string, displayName: string, hash: string)
    | DeleteUser(caller: string, id: int)
    | SetStatus(caller: string, id: int, active: bool)
    | ResetPassword(id: int, hash: string)
    | ChangeOwnPassword(username: string, current: string, new_: string, hash: string)
    | CreateGroup(id: int, name: string, description: string, role: Role)
    | UpdateGroup(id: int, name: string, description: string, role: Role)
    | DeleteGroup(id: int)
    | AddMembers(group: int, users: seq<int>)
    | RemoveMember(group: int, user: int)
    | LoginLocal(username: string, password: string, now: int)
    | LoginOidc(id: int, username: string, displayName: string, role: Role, now: int)
    | CreateToken(id: int, username: string, name: string, raw: string, now: int, lifetime: int)
    | RevokeToken(username: string, id: int)
    | Authenticate(cookie: Option<string>, bearer: Option<string>, now: int)

  /** The application's exceptions; UniqueViolation is a unique column refusing a second equal value. */
  datatype Refusal = Invalid | Missing | Clash | Forbidden | UniqueViolation

  /** How a step is answered; `principal` is who it resolved to, if anyone. */
  datatype Answer = Done | Refused(reason: Refusal) | Resolved(principal: SessionUser) | Anonymous

  const TOKEN_PREFIX := "pat_"
  const REFRESH_SECONDS := 60

  function WithUser(t: Tables, id: int, u: User): Tables { t.(users := t.users[id := u]) }

  function CreateUserStep(t: Tables, id: int, username: string, displayName: string, hash: string, taken: bool): (Tables, Answer) {
    var name := Strip(username);
    if name == "" then (t, Refused(Invalid))
    else if taken then (t, Refused(Clash))
    else (WithUser(t, id, User(name, Strip(displayName), "guest", Local, Some(hash), true, None)), Done)
  }

  /** Memberships, tokens and the account go together. */
  function DeleteAccount(t: Tables, id: int): Tables {
    Tables(t.users - {id}, t.groups, set l | l in t.links && l.0 != id, map p | p in t.tokens && t.tokens[p].userId != id :: t.tokens[p])
  }

  function DeleteUserStep(t: Tables, caller: string, id: int): (Tables, Answer) {
    if id !in t.users then (t, Refused(Missing))
    else if t.users[id].username == caller then (t, Refused(Clash))
    else if IsLastAdmin(t, id) then (t, Refused(Clash))
    else (DeleteAccount(t, id), Done)
  }

  function SetStatusStep(t: Tables, caller: string, id: int, active: bool): (Tables, Answer) {
    if id !in t.users then (t, Refused(Missing))
    else if !active && t.users[id].username == caller then (t, Refused(Clash))
    else if !active && IsLastAdmin(t, id) then (t, Refused(Clash))
    else (WithUser(t, id, t.users[id].(active := active)), Done)
  }

  function ResetPasswordStep(t: Tables, id: int, hash: string): (Tables, Answer) {
    if id !in t.users then (t, Refused(Missing))
    else if t.users[id].provider != Local then (t, Refused(Clash))
    else (WithUser(t, id, t.users[id].(passwordHash := Some(hash))), Done)
  }

  predicate HasPassword(u: User) { u.provider == Local && u.passwordHash.Some? && u.passwordHash.value != "" }

  ghost function ChangeOwnPasswordStep(env: Env, t: Tables, username: string, current: string, new_: string, hash: string): (Tables, Answer) {
    match FindUser(t, username)
    case None => (t, Refused(Missing))
    case Some(id) =>
      var u := t.users[id];
      if !HasPassword(u) then (t, Refused(Clash))
      else if !env.verify(current, u.passwordHash.value) || current == new_ then (t, Refused(Invalid))
      else (WithUser(t, id, u.(passwordHash := Some(hash))), Done)
  }

  function CreateGroupStep(t: Tables, id: int, name: string, description: string, role: Role): (Tables, Answer) {
    if GroupNameTaken(t, name, id) then (t, Refused(UniqueViolation))
    else (t.(groups := t.groups[id := Group(name, description, RoleName(role))]), Done)
  }

  function UpdateGroupStep(t: Tables, id: int, name: string, description: string, role: Role): (Tables, Answer) {
    if id !in t.groups then (t, Refused(Missing))
    else if GroupNameTaken(t, name, id) then (t, Refused(UniqueViolation))
    else (t.(groups := t.groups[id := Group(name, description, RoleName(role))]), Done)
  }

  function DeleteGroupStep(t: Tables, id: int): (Tables, Answer) {
    if id !in t.groups then (t, Refused(Missing))
    else (t.(groups := t.groups - {id}, links := set l | l in t.links && l.1 != id), Done)
  }

  /** One or many users: nothing is added unless the group and every user exist. */
  function AddMembersStep(t: Tables, group: int, users: seq<int>): (Tables, Answer) {
    if group !in t.groups || exists k | 0 <= k < |users| :: users[k] !in t.users then (t, Refused(Missing))
    else (t.(links := t.links + set k | 0 <= k < |users| :: (users[k], group)), Done)
  }

  function RemoveMemberStep(t: Tables, group: int, user: int): (Tables, Answer) {
    if group !in t.groups then (t, Refused(Missing)) else (t.(links := t.links - {(user, group)}), Done)
  }

  ghost function LoginLocalStep(env: Env, t: Tables, username: string, password: string, now: int): (Tables, Answer) {
    match FindUser(t, username)
    case None => (t, Anonymous)
    case Some(id) =>
      var u := t.users[id];
      if !HasPassword(u) || !env.verify(password, u.passwordHash.value) || !u.active then (t, Anonymous)
      else
        var t1 := WithUser(t, id, u.(lastLogin := Some(now)));
        (t1, Resolved(Principal(t1, id)))
  }

  /** Create or refresh the account of a provider identity; a local account is never taken over. */
  ghost function LoginOidcStep(t: Tables, id: int, username: string, displayName: string, role: Role, now: int): (Tables, Answer) {
    match FindUser(t, username)
    case None =>
      var t1 := WithUser(t, id, User(username, displayName, RoleName(role), Oidc, None, true, Some(now)));
      (t1, Resolved(Principal(t1, id)))
    case Some(known) =>
      var u := t.users[known];
      if u.provider != Oidc then (t, Refused(Clash))
      else if !u.active then (t, Refused(Forbidden))
      else
        var t1 := WithUser(t, known, u.(displayName := displayName, role := RoleName(role), lastLogin := Some(now)));
        (t1, Resolved(Principal(t1, known)))
  }

  function TokensOf(t: Tables, user: int): set<int> { set p | p in t.tokens && t.tokens[p].userId == user }

  ghost function CreateTokenStep(env: Env, t: Tables, id: int, username: string, name: string, raw: string, now: int, lifetime: int): (Tables, Answer) {
    match FindUser(t, username)
    case None => (t, Refused(Missing))
    case Some(owner) =>
      if Strip(name) == "" then (t, Refused(Invalid))
      else if |TokensOf(t, owner)| >= env.maxTokens then (t, Refused(Clash))
      else
        var expires := if lifetime != 0 then Some(now + lifetime) else None;
        (t.(tokens := t.tokens[id := Token(owner, Strip(name), env.digest(raw), expires, None)]), Done)
  }

  ghost function RevokeTokenStep(t: Tables, username: string, id: int): (Tables, Answer) {
    match FindUser(t, username)
    case None => (t, Refused(Missing))
    case Some(owner) =>
      if id !in t.tokens || t.tokens[id].userId != owner then (t, Refused(Missing))
      else (t.(tokens := t.tokens - {id}), Done)
  }

  predicate Expired(token: Token, now: int) { token.expiresAt.Some? && token.expiresAt.value <= now }

  function Touched(token: Token, now: int): Token {
    if token.lastUsed.Some? && now - token.lastUsed.value < REFRESH_SECONDS then token else token.(lastUsed := Some(now))
  }

  /** The token a presented secret stands for, if it is usable. */
  ghost function UsableToken(env: Env, t: Tables, raw: string, now: int): (r: Option<int>)
    ensures r.Some? ==> r.value in t.tokens && t.tokens[r.value].userId in t.users
  {
    var candidate := Strip(raw);
    var bare := if StartsWith(candidate, TOKEN_PREFIX) then candidate[|TOKEN_PREFIX|..] else candidate;
    if bare == "" then None
    else
      match FindToken(t, env.digest(candidate))
      case None => None
      case Some(p) => if Expired(t.tokens[p], now) || t.tokens[p].userId !in t.users then None else Some(p)
  }

  /** The cookie wins when it decodes; otherwise a bearer credential that looks like a token. */
  ghost function AuthenticateStep(env: Env, t: Tables, cookie: Option<string>, bearer: Option<string>, now: int): (Tables, Answer) {
    if cookie.Some? then
      match FindUser(t, cookie.value)
      case None => (t, Anonymous)
      case Some(id) => if t.users[id].active then (t, Resolved(Principal(t, id))) else (t, Anonymous)
    else if !env.patsEnabled || bearer.None? || !StartsWith(bearer.value, TOKEN_PREFIX) then (t, Anonymous)
    else
      match UsableToken(env, t, bearer.value, now)
      case None => (t, Anonymous)
      case Some(p) =>
        var t1 := t.(tokens := t.tokens[p := Touched(t.tokens[p], now)]);
        var id := t.tokens[p].userId;
        (t1, if t.users[id].active then Resolved(Principal(t1, id)) else Anonymous)
  }

  ghost function Step(env: Env, t: Tables, op: Op): (Tables, Answer) {
    match op
    case CreateUser(id, username, displayName, hash) =>
      CreateUserStep(t, id, username, displayName, hash, FindUser(t, Strip(username)).Some?)
    case DeleteUser(caller, id) => DeleteUserStep(t, caller, id)
    case SetStatus(caller, id, active) => SetStatusStep(t, caller, id, active)
    case ResetPassword(id, hash) => ResetPasswordStep(t, id, hash)
    case ChangeOwnPassword(username, current, new_, hash) => ChangeOwnPasswordStep(env, t, username, current, new_, hash)
    case CreateGroup(id, name, description, role) => CreateGroupStep(t, id, name, description, role)
    case UpdateGroup(id, name, description, role) => UpdateGroupStep(t, id, name, description, role)
    case DeleteGroup(id) => DeleteGroupStep(t, id)
    case AddMembers(group, users) => AddMembersStep(t, group, users)
    case RemoveMember(group, user) => RemoveMemberStep(t, group, user)
    case LoginLocal(username, password, now) => LoginLocalStep(env, t, username, password, now)
    case LoginOidc(id, username, displayName, role, now) => LoginOidcStep(t, id, username, displayName, role, now)
    case CreateToken(id, username, name, raw, now, lifetime) => CreateTokenStep(env, t, id, username, name, raw, now, lifetime)
    case RevokeToken(username, id) => RevokeTokenStep(t, username, id)
    case Authenticate(cookie, bearer, now) => AuthenticateStep(env, t, cookie, bearer, now)
  }

  /** The database hands out ids that are not in use and refuses a digest that is. */
  predicate Fresh(env: Env, t: Tables, op: Op) {
    match op
    case CreateUser(id, _, _, _) => id > 0 && id !in t.users
    case LoginOidc(id, _, _, _, _) => id > 0 && id !in t.users
    case CreateGroup(id, _, _, _) => id !in t.groups
    case CreateToken(id, _, _, raw, _, _) => id !in t.tokens && forall p | p in t.tokens :: t.tokens[p].hash != env.digest(raw)
    case _ => true
  }

  /** The tables after a run, provided every step got fresh ids. */
  ghost predicate RunsTo(env: Env, t: Tables, ops: seq<Op>, t1: Tables)
    decreases |ops|
  {
    if ops == [] then t1 == t
    else Fresh(env, t, ops[0]) && RunsTo(env, Step(env, t, ops[0]).0, ops[1..], t1)
  }
}
