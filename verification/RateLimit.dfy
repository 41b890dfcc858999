/** The two-tier admission of the rate-limiting middleware (backend/app/security.py): every
    throttled request is checked against the budget of its client address, and a login POST that
    passes is then checked against the stricter login budget. Both live in one limiter. */
module RateLimit {
  import opened Text
  import opened Limiter

  datatype Settings = Settings(maxRequests: pos, window: int, loginMax: pos, loginWindow: int, loginPath: string)

  /** A request, its client address ("" when unknown) and what the clock shows at each check. */
  datatype Request = Request(path: string, verb: string, ip: string, globalNow: real, loginNow: real)

  datatype Answer = Forward | TooMany(login: bool, retryAfter: int)

  predicate Throttled(req: Request) {
    StartsWith(req.path, "/api/") && req.path != "/api/health"
  }

  predicate IsLogin(cfg: Settings, req: Request) {
    req.verb == "POST" && req.path == cfg.loginPath
  }

  function Client(req: Request): string { if req.ip == "" then "unknown" else req.ip }

  function GlobalKey(ip: string): string { "ip:" + ip }

  function LoginKey(ip: string): string { "login:" + ip }

  function LimitOf(cfg: Settings): string -> Limit {
    key => if StartsWith(key, "login:") then Limit(cfg.loginMax, cfg.loginWindow) else Limit(cfg.maxRequests, cfg.window)
  }

  /** The two families of keys are disjoint and each has its own limit. */
  lemma KeyFamilies(cfg: Settings, a: string, b: string)
    ensures GlobalKey(a) != LoginKey(b)
    ensures GlobalKey(a) == GlobalKey(b) ==> a == b
    ensures LoginKey(a) == LoginKey(b) ==> a == b
    ensures LimitOf(cfg)(GlobalKey(a)) == Limit(cfg.maxRequests, cfg.window)
    ensures LimitOf(cfg)(LoginKey(a)) == Limit(cfg.loginMax, cfg.loginWindow)
  {
    assert GlobalKey(a)[0] == 'i' && LoginKey(b)[0] == 'l';
    assert GlobalKey(a)[3..] == a && GlobalKey(b)[3..] == b;
    assert LoginKey(a)[6..] == a && LoginKey(b)[6..] == b;
    assert LoginKey(a)[..6] == "login:";
  }

  function Dispatch(cfg: Settings, s: State, req: Request): (State, Answer) {
    if !Throttled(req) then (s, Forward)
    else
      var (s1, v1) := Check(s, GlobalKey(Client(req)), LimitOf(cfg)(GlobalKey(Client(req))), req.globalNow);
      if !v1.allowed then (s1, TooMany(false, v1.retryAfter))
      else if !IsLogin(cfg, req) then (s1, Forward)
      else
        var (s2, v2) := Check(s1, LoginKey(Client(req)), LimitOf(cfg)(LoginKey(Client(req))), req.loginNow);
        (s2, if v2.allowed then Forward else TooMany(true, v2.retryAfter))
  }

  class RateLimitMiddleware {
    const cfg: Settings
    const limiter: SlidingWindowLimiter

    constructor (cfg: Settings)
      ensures this.cfg == cfg && fresh(limiter) && limiter.View() == INIT
    {
      this.cfg := cfg;
      limiter := new SlidingWindowLimiter();
    }

    /** Answer one request: forward it to the application or refuse it with 429. */
    method Handle(req: Request) returns (answer: Answer)
      modifies limiter
      ensures (limiter.View(), answer) == Dispatch(cfg, old(limiter.View()), req)
    {
      if !StartsWith(req.path, "/api/") || req.path == "/api/health" {
        return Forward;
      }
      var ip := if req.ip == "" then "unknown" else req.ip;
      KeyFamilies(cfg, ip, ip);
      var login := false;
      var v := limiter.CheckHit("ip:" + ip, Limit(cfg.maxRequests, cfg.window), req.globalNow);
      if v.allowed && req.verb == "POST" && req.path == cfg.loginPath {
        login := true;
        v := limiter.CheckHit("login:" + ip, Limit(cfg.loginMax, cfg.loginWindow), req.loginNow);
      }
      answer := if v.allowed then Forward else TooMany(login, v.retryAfter);
    }
  }

  // ---- Runs of requests ------------------------------------------------------------------

  predicate InOrder(reqs: seq<Request>) {
    (forall i | 0 <= i < |reqs| :: reqs[i].globalNow <= reqs[i].loginNow) &&
    (forall i, j | 0 <= i < j < |reqs| :: reqs[i].loginNow <= reqs[j].globalNow)
  }

  function After(cfg: Settings, reqs: seq<Request>): State {
    if reqs == [] then INIT
    else Dispatch(cfg, After(cfg, reqs[..|reqs| - 1]), reqs[|reqs| - 1]).0
  }

  function AnswerAt(cfg: Settings, reqs: seq<Request>, i: nat): Answer
    requires i < |reqs|
  {
    Dispatch(cfg, After(cfg, reqs[..i]), reqs[i]).1
  }

  /** The limiter calls one request gives rise to, given how it is answered. */
  function CallsFor(cfg: Settings, req: Request, answer: Answer): seq<Call> {
    if !Throttled(req) then []
    else
      var first := Call(GlobalKey(Client(req)), req.globalNow);
      if !IsLogin(cfg, req) || (answer.TooMany? && !answer.login) then [first]
      else [first, Call(LoginKey(Client(req)), req.loginNow)]
  }

  function CallsOf(cfg: Settings, reqs: seq<Request>): seq<Call> {
    if reqs == [] then []
    else
      var n := |reqs| - 1;
      CallsOf(cfg, reqs[..n]) + CallsFor(cfg, reqs[n], AnswerAt(cfg, reqs, n))
  }

  /** Adding one call to a run. */
  lemma OneMoreCall(limits: string -> Limit, calls: seq<Call>, c: Call, key: string)
    ensures var more := calls + [c];
      var (s1, v) := Check(StateAfter(limits, calls), c.key, limits(c.key), c.now);
      StateAfter(limits, more) == s1 && VerdictAt(limits, more, |calls|) == v &&
      Admitted(limits, more, key) == Admitted(limits, calls, key) + (if c.key == key && v.allowed then [c.now] else [])
  {
    hide Check;
    assert (calls + [c])[..|calls|] == calls;
  }

  /** What a request adds to the admitted hits of each key: nothing when refused by the global budget,
      one global hit otherwise, and one login hit exactly when a login POST is forwarded. */
  function Spent(cfg: Settings, req: Request, answer: Answer, key: string): seq<real> {
    if !Throttled(req) || (answer.TooMany? && !answer.login) then []
    else if key == GlobalKey(Client(req)) then [req.globalNow]
    else if key == LoginKey(Client(req)) && IsLogin(cfg, req) && answer.Forward? then [req.loginNow]
    else []
  }

  lemma DispatchCalls(cfg: Settings, calls: seq<Call>, req: Request, key: string)
    ensures var limits := LimitOf(cfg);
      var (s1, answer) := Dispatch(cfg, StateAfter(limits, calls), req);
      var more := calls + CallsFor(cfg, req, answer);
      StateAfter(limits, more) == s1 &&
      Admitted(limits, more, key) == Admitted(limits, calls, key) + Spent(cfg, req, answer, key)
  {
    hide Check, StateAfter, Admitted, VerdictAt, GlobalKey, LoginKey, LimitOf;
    var limits := LimitOf(cfg);
    var answer := Dispatch(cfg, StateAfter(limits, calls), req).1;
    var c := Call(GlobalKey(Client(req)), req.globalNow);
    var d := Call(LoginKey(Client(req)), req.loginNow);
    KeyFamilies(cfg, Client(req), Client(req));
    OneMoreCall(limits, calls, c, key);
    OneMoreCall(limits, calls + [c], d, key);
    assert calls + [c, d] == calls + [c] + [d];
    assert calls + [] == calls;
  }

  lemma {:induction false} RunIsCalls(cfg: Settings, reqs: seq<Request>)
    ensures After(cfg, reqs) == StateAfter(LimitOf(cfg), CallsOf(cfg, reqs))
  {
    if reqs != [] {
      var n := |reqs| - 1;
      RunIsCalls(cfg, reqs[..n]);
      DispatchCalls(cfg, CallsOf(cfg, reqs[..n]), reqs[n], "");
    }
  }

  lemma {:induction false} CallsInOrder(cfg: Settings, reqs: seq<Request>)
    requires InOrder(reqs)
    ensures Chronological(CallsOf(cfg, reqs))
    ensures forall c | c in CallsOf(cfg, reqs) :: reqs != [] && c.now <= reqs[|reqs| - 1].loginNow
  {
    hide AnswerAt, After;
    if reqs != [] {
      var n := |reqs| - 1;
      CallsInOrder(cfg, reqs[..n]);
      var before := CallsOf(cfg, reqs[..n]);
      forall c | c in before ensures c.now <= reqs[n].globalNow {
        assert reqs[..n][n - 1] == reqs[n - 1];
      }
      var all := CallsOf(cfg, reqs);
      forall i, j | 0 <= i <= j < |all| ensures all[i].now <= all[j].now {
        if i < |before| <= j { assert before[i] in before; }
      }
    }
  }

  /** MAIN: exact accounting of what each request consumes, over every run. */
  lemma RequestSpends(cfg: Settings, reqs: seq<Request>, req: Request, key: string)
    ensures var limits := LimitOf(cfg);
      Admitted(limits, CallsOf(cfg, reqs + [req]), key)
      == Admitted(limits, CallsOf(cfg, reqs), key) + Spent(cfg, req, AnswerAt(cfg, reqs + [req], |reqs|), key)
  {
    hide Dispatch, StateAfter, Admitted, CallsFor, Spent, LimitOf;
    assert (reqs + [req])[..|reqs|] == reqs;
    RunIsCalls(cfg, reqs);
    DispatchCalls(cfg, CallsOf(cfg, reqs), req, key);
  }

  // ---- The rate bound on forwarded requests ---------------------------------------------------

  /** A request to the API (the health probe aside) from this client address, `unknown` when there is none. */
  predicate ApiRequest(req: Request, ip: string) {
    |req.path| >= 5 && req.path[..5] == "/api/" && req.path != "/api/health" && (if req.ip == "" then ip == "unknown" else ip == req.ip)
  }

  /** ... that posts to the login path. */
  predicate LoginPost(cfg: Settings, req: Request, ip: string) {
    ApiRequest(req, ip) && req.verb == "POST" && req.path == cfg.loginPath
  }

  /** When the API requests of a client were forwarded. */
  function ForwardedTimes(cfg: Settings, reqs: seq<Request>, ip: string): seq<real> {
    if reqs == [] then []
    else
      var n := |reqs| - 1;
      var before := ForwardedTimes(cfg, reqs[..n], ip);
      if ApiRequest(reqs[n], ip) && AnswerAt(cfg, reqs, n).Forward? then before + [reqs[n].globalNow] else before
  }

  /** When the login POSTs of a client were forwarded. */
  function ForwardedLogins(cfg: Settings, reqs: seq<Request>, ip: string): seq<real> {
    if reqs == [] then []
    else
      var n := |reqs| - 1;
      var before := ForwardedLogins(cfg, reqs[..n], ip);
      if LoginPost(cfg, reqs[n], ip) && AnswerAt(cfg, reqs, n).Forward? then before + [reqs[n].loginNow] else before
  }

  /** When the API requests of a client were not refused for the global budget: forwarded, or refused as logins. */
  function PassedTimes(cfg: Settings, reqs: seq<Request>, ip: string): seq<real> {
    if reqs == [] then []
    else
      var n := |reqs| - 1;
      var before := PassedTimes(cfg, reqs[..n], ip);
      if ApiRequest(reqs[n], ip) && (AnswerAt(cfg, reqs, n).TooMany? ==> AnswerAt(cfg, reqs, n).login)
      then before + [reqs[n].globalNow] else before
  }

  /** The tests of the middleware pick these requests. */
  lemma Selects(cfg: Settings, req: Request, ip: string)
    ensures ApiRequest(req, ip) <==> Throttled(req) && Client(req) == ip
    ensures LoginPost(cfg, req, ip) <==> Throttled(req) && Client(req) == ip && IsLogin(cfg, req)
  {}

  lemma {:induction false} CountInAppend(h: seq<real>, x: real, lo: real, hi: real)
    ensures CountIn(h + [x], lo, hi) == CountIn(h, lo, hi) + (if lo < x <= hi then 1 else 0)
  {
    if h != [] {
      assert (h + [x])[1..] == h[1..] + [x];
      CountInAppend(h[1..], x, lo, hi);
    }
  }

  lemma {:induction false} LoginsAreAdmitted(cfg: Settings, reqs: seq<Request>, ip: string)
    ensures ForwardedLogins(cfg, reqs, ip) == Admitted(LimitOf(cfg), CallsOf(cfg, reqs), LoginKey(ip))
  {
    hide Admitted, CallsOf, AnswerAt, LimitOf, LoginKey, GlobalKey;
    if reqs == [] {
      assert CallsOf(cfg, reqs) == [] by { EmptyCalls(cfg, LoginKey(ip)); }
      EmptyCalls(cfg, LoginKey(ip));
    } else {
      var n := |reqs| - 1;
      LoginsAreAdmitted(cfg, reqs[..n], ip);
      assert reqs[..n] + [reqs[n]] == reqs;
      RequestSpends(cfg, reqs[..n], reqs[n], LoginKey(ip));
      Selects(cfg, reqs[n], ip);
      KeyFamilies(cfg, ip, Client(reqs[n]));
      KeyFamilies(cfg, Client(reqs[n]), ip);
    }
  }

  lemma EmptyCalls(cfg: Settings, key: string)
    ensures CallsOf(cfg, []) == [] && Admitted(LimitOf(cfg), [], key) == []
  {}

  lemma {:induction false} PassedAreAdmitted(cfg: Settings, reqs: seq<Request>, ip: string)
    ensures PassedTimes(cfg, reqs, ip) == Admitted(LimitOf(cfg), CallsOf(cfg, reqs), GlobalKey(ip))
  {
    hide Admitted, CallsOf, AnswerAt, LimitOf, LoginKey, GlobalKey;
    if reqs == [] {
      EmptyCalls(cfg, GlobalKey(ip));
    } else {
      var n := |reqs| - 1;
      PassedAreAdmitted(cfg, reqs[..n], ip);
      assert reqs[..n] + [reqs[n]] == reqs;
      RequestSpends(cfg, reqs[..n], reqs[n], GlobalKey(ip));
      Selects(cfg, reqs[n], ip);
      KeyFamilies(cfg, ip, Client(reqs[n]));
    }
  }

  lemma {:induction false} ForwardedPassed(cfg: Settings, reqs: seq<Request>, ip: string, lo: real, hi: real)
    ensures CountIn(ForwardedTimes(cfg, reqs, ip), lo, hi) <= CountIn(PassedTimes(cfg, reqs, ip), lo, hi)
  {
    hide AnswerAt, CountIn, ApiRequest;
    if reqs != [] {
      var n := |reqs| - 1;
      ForwardedPassed(cfg, reqs[..n], ip, lo, hi);
      CountInAppend(PassedTimes(cfg, reqs[..n], ip), reqs[n].globalNow, lo, hi);
      CountInAppend(ForwardedTimes(cfg, reqs[..n], ip), reqs[n].globalNow, lo, hi);
    }
  }

  /** MAIN: over every run, no window of `window` seconds forwards more than `maxRequests` throttled
      requests of one client, and no login window forwards more than `loginMax` of its login POSTs. */
  lemma ForwardedRateBound(cfg: Settings, reqs: seq<Request>, ip: string, lo: real)
    requires InOrder(reqs)
    ensures CountIn(ForwardedTimes(cfg, reqs, ip), lo, lo + cfg.window as real) <= cfg.maxRequests
    ensures CountIn(ForwardedLogins(cfg, reqs, ip), lo, lo + cfg.loginWindow as real) <= cfg.loginMax
  {
    hide Admitted, CallsOf, ForwardedTimes, ForwardedLogins, CountIn, LimitOf, GlobalKey, LoginKey;
    CallsInOrder(cfg, reqs);
    KeyFamilies(cfg, ip, ip);
    RateBound(LimitOf(cfg), CallsOf(cfg, reqs), GlobalKey(ip), lo);
    RateBound(LimitOf(cfg), CallsOf(cfg, reqs), LoginKey(ip), lo);
    ForwardedPassed(cfg, reqs, ip, lo, lo + cfg.window as real);
    PassedAreAdmitted(cfg, reqs, ip);
    LoginsAreAdmitted(cfg, reqs, ip);
  }

  // ---- What a request is answered ------------------------------------------------------------------

  lemma OneCallAdmitted(cfg: Settings, calls: seq<Call>, c: Call)
    requires Chronological(calls + [c])
    ensures var limit := LimitOf(cfg)(c.key);
      var v := Check(StateAfter(LimitOf(cfg), calls), c.key, limit, c.now).1;
      var hits := Admitted(LimitOf(cfg), calls, c.key);
      (v.allowed <==> CountIn(hits, c.now - limit.window as real, c.now) < limit.max) &&
      (!v.allowed ==> Waits(hits, limit.window as real, c.now, v.retryAfter))
  {
    hide Check, StateAfter, Admitted, CountIn, Waits, LimitOf;
    var all := calls + [c];
    assert all[..|calls|] == calls;
    AdmittedIff(LimitOf(cfg), all, |calls|);
  }

  lemma OneMoreInOrder(calls: seq<Call>, c: Call)
    requires Chronological(calls) && forall d | d in calls :: d.now <= c.now
    ensures Chronological(calls + [c])
  {
    assert forall i | 0 <= i < |calls| :: calls[i] in calls;
  }

  lemma InOrderPrefix(reqs: seq<Request>, i: nat)
    requires InOrder(reqs) && i < |reqs|
    ensures InOrder(reqs[..i]) && forall k | 0 <= k < i :: reqs[k].loginNow <= reqs[i].globalNow
    ensures reqs[i].globalNow <= reqs[i].loginNow
  {}

  /** The calls before request i are not later than it. */
  lemma CallsBefore(cfg: Settings, reqs: seq<Request>, i: nat)
    requires InOrder(reqs) && i < |reqs|
    ensures Chronological(CallsOf(cfg, reqs[..i])) && forall d | d in CallsOf(cfg, reqs[..i]) :: d.now <= reqs[i].globalNow
  {
    hide CallsOf;
    InOrderPrefix(reqs, i);
    CallsInOrder(cfg, reqs[..i]);
    if i > 0 { assert reqs[..i][i - 1] == reqs[i - 1]; }
  }

  lemma GlobalCheckIff(cfg: Settings, reqs: seq<Request>, i: nat, ip: string)
    requires InOrder(reqs) && i < |reqs|
    ensures var limit := LimitOf(cfg)(GlobalKey(ip));
      var v, now := Check(After(cfg, reqs[..i]), GlobalKey(ip), limit, reqs[i].globalNow).1, reqs[i].globalNow;
      var times := PassedTimes(cfg, reqs[..i], ip);
      (v.allowed <==> CountIn(times, now - cfg.window as real, now) < cfg.maxRequests) &&
      (!v.allowed ==> Waits(times, cfg.window as real, now, v.retryAfter))
  {
    hide Check, StateAfter, Admitted, CountIn, Waits, LimitOf, GlobalKey, LoginKey, After, CallsOf, PassedTimes, InOrder;
    var calls, c := CallsOf(cfg, reqs[..i]), Call(GlobalKey(ip), reqs[i].globalNow);
    CallsBefore(cfg, reqs, i);
    OneMoreInOrder(calls, c);
    RunIsCalls(cfg, reqs[..i]);
    OneCallAdmitted(cfg, calls, c);
    PassedAreAdmitted(cfg, reqs[..i], ip);
    KeyFamilies(cfg, ip, ip);
  }

  /** The login check comes after an admitted global one of the same address. */
  lemma LoginCheckIff(cfg: Settings, reqs: seq<Request>, i: nat, ip: string, s1: State)
    requires InOrder(reqs) && i < |reqs|
    requires s1 == Check(After(cfg, reqs[..i]), GlobalKey(ip), LimitOf(cfg)(GlobalKey(ip)), reqs[i].globalNow).0
    ensures var limit := LimitOf(cfg)(LoginKey(ip));
      var v, now := Check(s1, LoginKey(ip), limit, reqs[i].loginNow).1, reqs[i].loginNow;
      var times := ForwardedLogins(cfg, reqs[..i], ip);
      (v.allowed <==> CountIn(times, now - cfg.loginWindow as real, now) < cfg.loginMax) &&
      (!v.allowed ==> Waits(times, cfg.loginWindow as real, now, v.retryAfter))
  {
    hide Check, StateAfter, Admitted, CountIn, Waits, LimitOf, GlobalKey, LoginKey, After, CallsOf, ForwardedLogins, InOrder;
    var calls, c, d := CallsOf(cfg, reqs[..i]), Call(GlobalKey(ip), reqs[i].globalNow), Call(LoginKey(ip), reqs[i].loginNow);
    CallsBefore(cfg, reqs, i);
    InOrderPrefix(reqs, i);
    OneMoreInOrder(calls, c);
    OneMoreInOrder(calls + [c], d);
    RunIsCalls(cfg, reqs[..i]);
    OneMoreCall(LimitOf(cfg), calls, c, LoginKey(ip));
    KeyFamilies(cfg, ip, ip);
    OneCallAdmitted(cfg, calls + [c], d);
    LoginsAreAdmitted(cfg, reqs[..i], ip);
    assert Admitted(LimitOf(cfg), calls, LoginKey(ip)) + [] == Admitted(LimitOf(cfg), calls, LoginKey(ip));
  }

  /** MAIN: exactly what every request of an in-order run is answered. One that is not for the API is forwarded and
      leaves the limiter as it was; an API request of a client is refused for the global budget exactly when that
      many of its requests passed in the window before, and otherwise, if it is a login POST, refused for the login
      budget exactly when that many of its login POSTs were forwarded in the login window before. */
  lemma AnswerIff(cfg: Settings, reqs: seq<Request>, i: nat, ip: string)
    requires InOrder(reqs) && i < |reqs|
    ensures var req, before, answer := reqs[i], reqs[..i], AnswerAt(cfg, reqs, i);
      var full := CountIn(PassedTimes(cfg, before, ip), req.globalNow - cfg.window as real, req.globalNow) >= cfg.maxRequests;
      var spent := CountIn(ForwardedLogins(cfg, before, ip), req.loginNow - cfg.loginWindow as real, req.loginNow) >= cfg.loginMax;
      ((forall any :: !ApiRequest(req, any)) ==> answer == Forward && After(cfg, reqs[..i + 1]) == After(cfg, before)) &&
      (ApiRequest(req, ip) ==>
        (answer.TooMany? && !answer.login <==> full) &&
        (answer.TooMany? && answer.login <==> !full && LoginPost(cfg, req, ip) && spent) &&
        (answer.TooMany? ==> if answer.login
          then Waits(ForwardedLogins(cfg, before, ip), cfg.loginWindow as real, req.loginNow, answer.retryAfter)
          else Waits(PassedTimes(cfg, before, ip), cfg.window as real, req.globalNow, answer.retryAfter)))
  {
    hide Check, CountIn, Waits, LimitOf, GlobalKey, LoginKey, PassedTimes, ForwardedLogins, InOrder, Throttled, Client, ApiRequest, LoginPost, IsLogin;
    var req := reqs[i];
    assert reqs[..i + 1][..i] == reqs[..i] && reqs[..i + 1][i] == req;
    Selects(cfg, req, Client(req));
    Selects(cfg, req, ip);
    GlobalCheckIff(cfg, reqs, i, ip);
    LoginCheckIff(cfg, reqs, i, ip, Check(After(cfg, reqs[..i]), GlobalKey(ip), LimitOf(cfg)(GlobalKey(ip)), req.globalNow).0);
  }
}
