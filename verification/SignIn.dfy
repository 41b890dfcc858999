/** Who gets in: what each credential (password, session cookie, access token, provider identity) resolves to, and
    what the account operations change about it. */
module SignIn {
  import opened Text
  import opened Container
  import opened Accounts
  import opened AccountsSafety

  /** The principal of an account, in terms of its row. */
  function Session(t: Tables, id: int): SessionUser
    requires id in t.users
  {
    var u := t.users[id];
    SessionUser(u.username, if u.displayName == "" then u.username else u.displayName, Effective(t, id), u.provider)
  }

  lemma SessionIsPrincipal(t: Tables, id: int)
    requires id in t.users
    ensures Principal(t, id) == Session(t, id)
  {}

  /** A principal depends on names, role, provider and memberships only. */
  lemma SessionSame(t: Tables, t1: Tables, id: int)
    requires id in t.users && id in t1.users && t1.groups == t.groups && t1.links == t.links
    requires t1.users[id].(passwordHash := t.users[id].passwordHash, active := t.users[id].active, lastLogin := t.users[id].lastLogin) == t.users[id]
    ensures Session(t1, id) == Session(t, id)
  {
    hide NormalizeRole, Highest;
    assert GroupRoles(t1, id) == GroupRoles(t, id);
  }

  lemma FoundByName(t: Tables, id: int)
    requires UniqueNames(t) && id in t.users
    ensures FindUser(t, t.users[id].username) == Some(id)
  {}

  // ---- Passwords ----------------------------------------------------------------------------------------

  /** The account has this name, is local and active, and its stored hash verifies the password. */
  ghost predicate MaySignIn(env: Env, t: Tables, id: int, username: string, password: string) {
    id in t.users &&
    var u := t.users[id];
    u.username == username && u.provider == Local && u.active &&
    u.passwordHash.Some? && u.passwordHash.value != "" && env.verify(password, u.passwordHash.value)
  }

  /** The password lets somebody in under this name. */
  ghost predicate Opens(env: Env, t: Tables, username: string, password: string) {
    exists id :: MaySignIn(env, t, id, username, password)
  }

  /** MAIN: a local login resolves if and only if some active local account of that name has a stored hash that
      verifies the password; then to that account, of which only the last login moves. Every other login is
      anonymous and changes nothing. */
  lemma LoginResolvesIff(env: Env, t: Tables, username: string, password: string, now: int)
    requires Valid(t)
    ensures var (t1, answer) := Step(env, t, LoginLocal(username, password, now));
      (answer.Resolved? <==> exists id :: MaySignIn(env, t, id, username, password)) &&
      (!answer.Resolved? ==> answer == Anonymous && t1 == t) &&
      forall id | MaySignIn(env, t, id, username, password) ::
        answer == Resolved(Session(t, id)) && t1 == t.(users := t.users[id := t.users[id].(lastLogin := Some(now))])
  {
    hide Principal, Session;
    forall id | MaySignIn(env, t, id, username, password)
      ensures Step(env, t, LoginLocal(username, password, now)) ==
        (t.(users := t.users[id := t.users[id].(lastLogin := Some(now))]), Resolved(Session(t, id))) {
      FoundByName(t, id);
      var t1 := t.(users := t.users[id := t.users[id].(lastLogin := Some(now))]);
      SessionIsPrincipal(t1, id);
      SessionSame(t, t1, id);
    }
    var found := FindUser(t, username);
    if found.Some? && Step(env, t, LoginLocal(username, password, now)).1.Resolved? {
      assert MaySignIn(env, t, found.value, username, password);
    }
  }

  /** What an account lets in is decided by its own row. */
  lemma OpensByRow(env: Env, t: Tables, id: int, password: string)
    requires UniqueNames(t) && id in t.users
    ensures Opens(env, t, t.users[id].username, password) <==> MaySignIn(env, t, id, t.users[id].username, password)
  {
    FoundByName(t, id);
  }

  /** The account tables agree on everybody else. */
  ghost predicate OthersSame(t: Tables, t1: Tables, id: int) {
    forall other | other != id :: (other in t1.users <==> other in t.users) && (other in t.users ==> t1.users[other] == t.users[other])
  }

  /** A change of one account changes nothing about other names. */
  lemma OthersOpen(env: Env, t: Tables, t1: Tables, id: int, username: string, password: string)
    requires OthersSame(t, t1, id)
    requires (id in t.users ==> t.users[id].username != username) && (id in t1.users ==> t1.users[id].username != username)
    ensures Opens(env, t1, username, password) <==> Opens(env, t, username, password)
  {
    if id0 :| MaySignIn(env, t, id0, username, password) { assert MaySignIn(env, t1, id0, username, password); }
    if id0 :| MaySignIn(env, t1, id0, username, password) { assert MaySignIn(env, t, id0, username, password); }
  }

  /** MAIN: creating a local account is refused exactly for a blank or taken name; otherwise it adds one active
      guest, and a login under the stripped name resolves if and only if its hash verifies the password. */
  lemma CreatedSignsIn(env: Env, t: Tables, op: Op, username: string, password: string)
    requires Valid(t) && op.CreateUser? && op.id > 0 && op.id !in t.users
    ensures var (t1, answer) := Step(env, t, op);
      var name := Strip(op.username);
      answer == (if name == "" then Refused(Invalid)
                 else if exists id :: id in t.users && t.users[id].username == name then Refused(Clash) else Done) &&
      t1 == (if answer != Done then t
             else t.(users := t.users[op.id := User(name, Strip(op.displayName), "guest", Local, Some(op.hash), true, None)])) &&
      (answer == Done ==>
        (Opens(env, t1, name, password) <==> op.hash != "" && env.verify(password, op.hash)) &&
        (username != name ==> (Opens(env, t1, username, password) <==> Opens(env, t, username, password))))
  {
    hide Strip;
    var (t1, answer) := Step(env, t, op);
    if answer == Done {
      StepKeepsValid(env, t, op);
      OpensByRow(env, t1, op.id, password);
      if username != Strip(op.username) { OthersOpen(env, t, t1, op.id, username, password); }
    }
  }

  /** The account has this name and a password of its own. */
  predicate HasOwnPassword(t: Tables, id: int, username: string) {
    id in t.users && t.users[id].username == username && t.users[id].provider == Local &&
    t.users[id].passwordHash.Some? && t.users[id].passwordHash.value != ""
  }

  /** MAIN: changing one's own password is accepted if and only if the account is local and has a hash, this hash
      verifies the current password and the new one differs; nothing but that hash changes then, and from then on a
      login under that name resolves exactly by the new hash. */
  lemma PasswordChangedIff(env: Env, t: Tables, op: Op, id: int, username: string, password: string)
    requires Valid(t) && op.ChangeOwnPassword? && id in t.users && t.users[id].username == op.username
    ensures var (t1, answer) := Step(env, t, op);
      answer == (if !HasOwnPassword(t, id, op.username) then Refused(Clash)
                 else if env.verify(op.current, t.users[id].passwordHash.value) && op.current != op.new_ then Done else Refused(Invalid)) &&
      t1 == (if answer == Done then t.(users := t.users[id := t.users[id].(passwordHash := Some(op.hash))]) else t) &&
      (answer == Done ==>
        (Opens(env, t1, op.username, password) <==> t.users[id].active && op.hash != "" && env.verify(password, op.hash))) &&
      (username != op.username ==> (Opens(env, t1, username, password) <==> Opens(env, t, username, password)))
  {
    FoundByName(t, id);
    var (t1, answer) := Step(env, t, op);
    StepKeepsValid(env, t, op);
    OpensByRow(env, t1, id, password);
    if username != op.username { OthersOpen(env, t, t1, id, username, password); }
  }

  lemma UnknownCannotChange(env: Env, t: Tables, op: Op)
    requires op.ChangeOwnPassword? && forall id | id in t.users :: t.users[id].username != op.username
    ensures Step(env, t, op) == (t, Refused(Missing))
  {}

  /** An administrator's reset: the same for any local account, whatever its password was. */
  lemma PasswordResetIff(env: Env, t: Tables, op: Op, password: string)
    requires Valid(t) && op.ResetPassword?
    ensures var (t1, answer) := Step(env, t, op);
      answer == (if op.id !in t.users then Refused(Missing) else if t.users[op.id].provider == Local then Done else Refused(Clash)) &&
      t1 == (if answer == Done then t.(users := t.users[op.id := t.users[op.id].(passwordHash := Some(op.hash))]) else t) &&
      (answer == Done ==>
        (Opens(env, t1, t.users[op.id].username, password) <==> t.users[op.id].active && op.hash != "" && env.verify(password, op.hash)))
  {
    var (t1, answer) := Step(env, t, op);
    if answer == Done {
      StepKeepsValid(env, t, op);
      OpensByRow(env, t1, op.id, password);
    }
  }

  /** MAIN: a status change that goes through moves the flag of that account and nothing else; a deactivated account
      lets nobody in by password or cookie, and a reactivated one lets in whoever its hash verifies. */
  lemma StatusDecidesSignIn(env: Env, t: Tables, op: Op, password: string, now: int)
    requires Valid(t) && op.SetStatus? && Step(env, t, op).1 == Done
    ensures op.id in t.users && Step(env, t, op).0 == t.(users := t.users[op.id := t.users[op.id].(active := op.active)])
    ensures var t1 := Step(env, t, op).0;
      var u := t.users[op.id];
      (Opens(env, t1, u.username, password) <==>
        op.active && HasOwnPassword(t, op.id, u.username) && env.verify(password, u.passwordHash.value)) &&
      (Step(env, t1, Authenticate(Some(u.username), None, now)).1.Resolved? <==> op.active)
  {
    hide Effective, IsLastAdmin;
    var t1 := Step(env, t, op).0;
    StepKeepsValid(env, t, op);
    OpensByRow(env, t1, op.id, password);
    FoundByName(t1, op.id);
  }

  /** MAIN: a deletion that goes through removes the account, its memberships and its tokens, and nothing else; its
      name then gets nobody in by password or cookie. */
  lemma DeletedIsGone(env: Env, t: Tables, op: Op, password: string, now: int)
    requires Valid(t) && op.DeleteUser? && Step(env, t, op).1 == Done
    ensures var t1 := Step(env, t, op).0;
      op.id in t.users && t1.users == t.users - {op.id} && t1.groups == t.groups &&
      (forall l :: l in t1.links <==> l in t.links && l.0 != op.id) &&
      (forall p :: p in t1.tokens <==> p in t.tokens && t.tokens[p].userId != op.id) &&
      (forall p | p in t1.tokens :: t1.tokens[p] == t.tokens[p]) &&
      !Opens(env, t1, t.users[op.id].username, password) &&
      Step(env, t1, Authenticate(Some(t.users[op.id].username), None, now)) == (t1, Anonymous)
  {
    hide Effective, IsLastAdmin;
    FoundByName(t, op.id);
  }

  // ---- Passwords over runs --------------------------------------------------------------------------------

  /** The operation sets the password or the status of the account, or deletes it. */
  predicate ConcernsSignIn(op: Op, id: int, username: string) {
    match op
    case DeleteUser(_, target) => target == id
    case SetStatus(_, target, _) => target == id
    case ResetPassword(target, _) => target == id
    case ChangeOwnPassword(name, _, _, _) => name == username
    case _ => false
  }

  lemma SignInKept(env: Env, t: Tables, op: Op, id: int)
    requires Valid(t) && Fresh(env, t, op) && id in t.users && t.users[id].provider == Local && !ConcernsSignIn(op, id, t.users[id].username)
    ensures var t1 := Step(env, t, op).0;
      id in t1.users && t1.users[id].(lastLogin := None) == t.users[id].(lastLogin := None)
  {
    hide Strip, StartsWith, IsLastAdmin, GroupNameTaken, Principal, Effective, Touched, Expired, UniqueHashes, Referential;
  }

  /** MAIN: over every run, who can sign in to a local account is what it was, unless its password or status was
      changed or the account deleted. */
  lemma {:induction false} OnlyTheseDecideSignIn(env: Env, t: Tables, ops: seq<Op>, t1: Tables, id: int, password: string)
    requires Valid(t) && RunsTo(env, t, ops, t1) && id in t.users && t.users[id].provider == Local
    requires forall op | op in ops :: !ConcernsSignIn(op, id, t.users[id].username)
    ensures var username := t.users[id].username;
      Opens(env, t1, username, password) <==> Opens(env, t, username, password)
    decreases |ops|
  {
    hide Step, Fresh, ConcernsSignIn, Opens, MaySignIn;
    if ops != [] {
      assert ops[0] in ops;
      var next := Step(env, t, ops[0]).0;
      SignInKept(env, t, ops[0], id);
      StepKeepsValid(env, t, ops[0]);
      SameRowOpens(env, t, next, id, password);
      OnlyTheseDecideSignIn(env, next, ops[1..], t1, id, password);
    }
  }

  lemma SameRowOpens(env: Env, t: Tables, t1: Tables, id: int, password: string)
    requires Valid(t) && Valid(t1) && id in t.users && id in t1.users
    requires t1.users[id].(lastLogin := None) == t.users[id].(lastLogin := None)
    ensures t1.users[id].username == t.users[id].username && t1.users[id].provider == t.users[id].provider
    ensures Opens(env, t1, t.users[id].username, password) <==> Opens(env, t, t.users[id].username, password)
  {
    hide Opens;
    OpensByRow(env, t, id, password);
    OpensByRow(env, t1, id, password);
  }

  // ---- Cookies and tokens ----------------------------------------------------------------------------------

  /** MAIN: a session cookie resolves if and only if an active account has its name, to that account, whatever else
      the request carries; it changes nothing. */
  lemma CookieResolvesIff(env: Env, t: Tables, username: string, bearer: Option<string>, now: int)
    requires Valid(t)
    ensures var (t1, answer) := Step(env, t, Authenticate(Some(username), bearer, now));
      t1 == t && (answer.Resolved? || answer == Anonymous) &&
      (answer.Resolved? <==> exists id :: id in t.users && t.users[id].username == username && t.users[id].active) &&
      forall id | id in t.users && t.users[id].username == username && t.users[id].active :: answer == Resolved(Session(t, id))
  {
    hide Principal, Session;
    forall id | id in t.users && t.users[id].username == username ensures FindUser(t, username) == Some(id) && Principal(t, id) == Session(t, id) {
      FoundByName(t, id);
      SessionIsPrincipal(t, id);
    }
  }

  /** The stored token that a presented text stands for at this time. */
  predicate Matching(env: Env, t: Tables, p: int, raw: string, now: int) {
    p in t.tokens && t.tokens[p].hash == env.digest(Strip(raw)) && (t.tokens[p].expiresAt.Some? ==> now < t.tokens[p].expiresAt.value)
  }

  /** Its last use is the one recorded less than a minute ago, or now. */
  function Used(token: Token, now: int): Token {
    if token.lastUsed.Some? && now < token.lastUsed.value + 60 then token else token.(lastUsed := Some(now))
  }

  /** MAIN: without a cookie a request resolves if and only if tokens are enabled and it bears a text that opens with
      pat_, is more than that, and has the digest of an unexpired token of an active account; then to the owner.
      Only the last use of such a token changes. */
  lemma TokenResolvesIff(env: Env, t: Tables, bearer: Option<string>, now: int)
    requires Valid(t)
    ensures var (t1, answer) := Step(env, t, Authenticate(None, bearer, now));
      var presented := env.patsEnabled && bearer.Some? && StartsWith(bearer.value, "pat_") && Strip(bearer.value) != "pat_";
      (answer.Resolved? || answer == Anonymous) &&
      (answer.Resolved? <==> presented && exists p :: Matching(env, t, p, bearer.value, now) && t.users[t.tokens[p].userId].active) &&
      (!(presented && exists p :: Matching(env, t, p, bearer.value, now)) ==> t1 == t) &&
      (presented ==> forall p | Matching(env, t, p, bearer.value, now) ::
        t1 == t.(tokens := t.tokens[p := Used(t.tokens[p], now)]) &&
        (t.users[t.tokens[p].userId].active ==> answer == Resolved(Session(t, t.tokens[p].userId))))
  {
    hide Principal, Session, StartsWith, Strip;
    if bearer.Some? && StartsWith(bearer.value, "pat_") {
      var raw := bearer.value;
      PrefixKept(raw);
      forall p | Matching(env, t, p, raw, now) && Strip(raw) != "pat_"
        ensures UsableToken(env, t, raw, now) == Some(p) && Touched(t.tokens[p], now) == Used(t.tokens[p], now) {
        assert FindToken(t, env.digest(Strip(raw))) == Some(p);
      }
      var found := UsableToken(env, t, raw, now);
      if found.Some? {
        var p := found.value;
        assert Matching(env, t, p, raw, now);
        var t1 := t.(tokens := t.tokens[p := Touched(t.tokens[p], now)]);
        SessionSame(t, t1, t.tokens[p].userId);
        SessionIsPrincipal(t1, t.tokens[p].userId);
      }
    }
  }

  /** Stripping a text that opens with the prefix keeps the prefix. */
  lemma PrefixKept(raw: string)
    requires StartsWith(raw, "pat_")
    ensures StartsWith(Strip(raw), "pat_") && (Strip(raw)[4..] == "" <==> Strip(raw) == "pat_")
  {
    var s := Strip(raw);
    assert raw[0] == 'p' && raw[3] == '_';
    assert !IsSpace('p') && !IsSpace('_');
    hide IsSpace;
    assert FirstNonSpace(raw) == 0;
    assert LStrip(raw) == raw;
    assert EndNonSpace(raw) > 3;
    assert s[..4] == raw[..4];
  }

  /** MAIN: a token is issued exactly to an existing account, under a name that is not blank, below the limit; only
      that token is added, with the stripped name, the digest of its secret, and an end when it has a lifetime. */
  lemma TokenIssuedIff(env: Env, t: Tables, op: Op, owner: int)
    requires Valid(t) && op.CreateToken? && owner in t.users && t.users[owner].username == op.username
    ensures var (t1, answer) := Step(env, t, op);
      answer == (if Strip(op.name) == "" then Refused(Invalid)
                 else if |set p | p in t.tokens && t.tokens[p].userId == owner| < env.maxTokens then Done else Refused(Clash)) &&
      t1 == (if answer != Done then t
             else t.(tokens := t.tokens[op.id := Token(owner, Strip(op.name), env.digest(op.raw),
               if op.lifetime == 0 then None else Some(op.now + op.lifetime), None)]))
  {
    hide Strip;
    FoundByName(t, owner);
    assert TokensOf(t, owner) == set p | p in t.tokens && t.tokens[p].userId == owner;
  }

  /** Only the owner of a token revokes it, and only that token goes. */
  lemma TokenRevokedIff(env: Env, t: Tables, op: Op, owner: int)
    requires Valid(t) && op.RevokeToken? && owner in t.users && t.users[owner].username == op.username
    ensures Step(env, t, op) ==
      if op.id in t.tokens && t.tokens[op.id].userId == owner then (t.(tokens := t.tokens - {op.id}), Done) else (t, Refused(Missing))
  {
    FoundByName(t, owner);
  }

  // ---- Provider identities -----------------------------------------------------------------------------------

  /** MAIN: a provider sign-in never changes a local or a deactivated account; otherwise it creates the account of
      that name or refreshes its display name, role and last login, and resolves to it. */
  lemma ProviderSignsIn(env: Env, t: Tables, op: Op)
    requires Valid(t) && op.LoginOidc? && op.id !in t.users
    ensures var (t1, answer) := Step(env, t, op);
      (forall id | id in t.users && t.users[id].username == op.username ::
        var u := t.users[id];
        if u.provider == Local then t1 == t && answer == Refused(Clash)
        else if !u.active then t1 == t && answer == Refused(Forbidden)
        else t1 == t.(users := t.users[id := User(op.username, op.displayName, RoleName(op.role), Oidc, u.passwordHash, true, Some(op.now))]) &&
             answer == Resolved(Session(t1, id))) &&
      ((forall id | id in t.users :: t.users[id].username != op.username) ==>
        t1 == t.(users := t.users[op.id := User(op.username, op.displayName, RoleName(op.role), Oidc, None, true, Some(op.now))]) &&
        answer == Resolved(Session(t1, op.id)))
  {
    hide Principal, Session, RoleName;
    var (t1, answer) := Step(env, t, op);
    forall id | id in t.users && t.users[id].username == op.username ensures FindUser(t, op.username) == Some(id) { FoundByName(t, id); }
    forall id | id in t1.users ensures Principal(t1, id) == Session(t1, id) { SessionIsPrincipal(t1, id); }
  }
}
