/** Posted tokens, and runs of many requests that hand cookies back and forth. */
module Runs {
  import opened Bytes
  import opened Verify
  import opened Challenge
  import opened Action
  import opened Safety
  import opened Gating
  import opened Rules
  import Expiry
  import Keys = ChallengeKey

  // ---- the verify handler -----------------------------------------------

  predicate PostedVerifies(env: Env, s: ReqState, id: Id, token: bytes) {
    env.verify(id, env.key(id, s), token) == (OK, NoErr)
  }

  /** The state in which VerifyHandlerFunc answers a token that verified. The state map is not touched. */
  function WithPosted(env: Env, s: ReqState, id: Id, token: bytes): ReqState
    requires id in env.register
  {
    var reg, key := env.register[id], env.key(id, s);
    var n := WithToken(Log(s, Verified(id, key, token)), reg, key, token, Expiry.Expiration(env.time, reg.duration), true);
    n.(verify := n.verify[id := OK])
  }

  /** VerifyHandlerFunc: every branch answers with the response headers. */
  function Posted(env: Env, s: ReqState, id: Id, token: bytes, wellFormed: bool): ReqState
    requires id in env.register
  {
    Paged(env, if wellFormed && PostedVerifies(env, s, id, token) then WithPosted(env, s, id, token) else s)
  }

  method VerifyHandler(data: RequestData, env: Env, id: Id, token: bytes, wellFormed: bool)
    requires id in env.register && env.register[id].id == id
    modifies data
    ensures data.Snapshot() == Posted(env, old(data.Snapshot()), id, token, wellFormed)
  {
    if !wellFormed {
      ServePage(data, env);
      return;
    }
    var reg := env.register[id];
    var expiration := Expiry.Expiration(env.time, reg.duration);
    var key := env.key(id,
      ReqState(data.verify, data.state, data.diagnostic, data.tokens, data.modified, data.cookieStatus, data.trace));
    var (verifyResult, err) := env.verify(id, key, token);
    if err != NoErr || !verifyResult.Ok() {
      ServePage(data, env);
      return;
    }
    data.trace := data.trace + [Verified(id, key, token)];
    data.IssueChallengeToken(reg, key, token, expiration, true);
    data.verify := data.verify[id := verifyResult];
    ServePage(data, env);
  }

  /** A posted token is stored, and its challenge counted as OK, only if it verified; and then it is stored,
      and a cookie with it is sent before the page. */
  lemma PostedStoresIff(env: Env, s: ReqState, id: Id, token: bytes, wellFormed: bool)
    requires id in env.register && env.register[id].id == id
    ensures var n := Posted(env, s, id, token, wellFormed);
            var verified := wellFormed && env.verify(id, env.key(id, s), token) == (OK, NoErr);
            && (n.tokens != s.tokens || n.verify != s.verify ==> verified)
            && (verified <==> exists i :: |s.trace| <= i < |n.trace| && n.trace[i].Stored?)
            && (verified ==>
                  && n.verify == s.verify[id := OK]
                  && n.tokens == s.tokens[env.register[id].name := StoredToken(env, s, id, token)]
                  && TokensSent(n))
            && n.trace != [] && n.trace[|n.trace| - 1] == Page
  {
    var n := Posted(env, s, id, token, wellFormed);
    if wellFormed && PostedVerifies(env, s, id, token) {
      assert n.trace[|s.trace| + 1].Stored?;
      assert n.trace[|s.trace| + 2].SetCookie? && n.trace[|s.trace| + 2].tokens == n.tokens;
    }
  }

  /** The part of soundness that concerns tokens and cookies. */
  ghost predicate TokensSound(env: Env, record: set<Passage>, s: ReqState) {
    && AllBacked(s.tokens, record + Passages(s.trace))
    && (forall i :: 0 <= i < |s.trace| && s.trace[i].SetCookie? ==> AllBacked(s.trace[i].tokens, record + Passages(s.trace)))
    && AllLicensed(env, s.trace) && AllVerified(env, s.trace)
  }

  lemma PostedKeepsTokensSound(env: Env, record: set<Passage>, s: ReqState, id: Id, token: bytes, wellFormed: bool)
    requires Inv(env, record, s) && id in env.register && env.register[id].id == id
    ensures TokensSound(env, record, Posted(env, s, id, token, wellFormed))
  {
    if wellFormed && PostedVerifies(env, s, id, token) {
      var reg, key := env.register[id], env.key(id, s);
      var e := Verified(id, key, token);
      LogKeepsSound(env, record, s, e);
      var m := Log(s, e);
      var until := Expiry.Expiration(env.time, reg.duration);
      assert Licenses(env, m.trace[|s.trace|], Stored(reg.id, reg.name, key, token, Expiry.UnixSeconds(until)));
      TokenKeepsSound(env, record, m, reg, key, token, until, true);
      var n := WithToken(m, reg, key, token, until, true);
      RespondedKeepsSound(env, record, n);
      LogKeepsSound(env, record, Responded(env, n), Page);
      assert Posted(env, s, id, token, wellFormed) == Paged(env, n).(verify := n.verify[id := OK]);
    } else {
      RespondedKeepsSound(env, record, s);
      LogKeepsSound(env, record, Responded(env, s), Page);
    }
  }

  /** On this path, unlike the rule path, an OK result can be left without a state to print: exactly
      when the token verifies for a challenge whose evaluation ended in no state. */
  lemma HandlerMayLeaveNoState(env: Env, s: ReqState, id: Id, token: bytes, wellFormed: bool)
    requires id in env.register && !HeadersPanic(env, s)
    ensures HeadersPanic(env, Posted(env, s, id, token, wellFormed)) <==>
            wellFormed && PostedVerifies(env, s, id, token) && StateOf(s, id) == NoState
  {
    var n := Posted(env, s, id, token, wellFormed);
    if wellFormed && PostedVerifies(env, s, id, token) {
      assert n.verify == s.verify[id := OK] && n.state == s.state;
      forall k | k != id && k in n.verify && n.verify[k].Ok() ensures k in env.register && StateOf(n, k) != NoState {
        assert k in s.verify && s.verify[k].Ok();
      }
      assert id in n.verify && n.verify[id].Ok();
      assert StateOf(n, id) == StateOf(s, id);
    } else {
      assert n.verify == s.verify && n.state == s.state;
    }
  }

  // ---- a stored proof is honoured ---------------------------------------

  /** The token the handler stores. */
  function StoredToken(env: Env, s: ReqState, id: Id, token: bytes): Token
    requires id in env.register
  {
    Token(env.key(id, s), token, true, Expiry.UnixSeconds(Expiry.Expiration(env.time, env.register[id].duration)), 0)
  }

  /** The handler sends a cookie that carries the token. */
  lemma HandlerSendsCookie(env: Env, s: ReqState, id: Id, token: bytes)
    requires id in env.register && PostedVerifies(env, s, id, token)
    ensures var n := Posted(env, s, id, token, true);
            && |n.trace| >= 2 && n.trace[|n.trace| - 2].SetCookie?
            && n.trace[|n.trace| - 2].tokens == s.tokens[env.register[id].name := StoredToken(env, s, id, token)]
  {
  }

  /** For a verifier that depends only on key and token: a token stored by the handler is accepted in
      every later request for which the key is the same, before its expiry, whatever the spot check
      draws; and the challenge then counts as OK with its token kept. */
  lemma StoredProofIsHonoured(env: Env, s: ReqState, id: Id, token: bytes, later: Env, tokens: Tokens, err: Err)
    requires id in env.register && PostedVerifies(env, s, id, token)
    requires ValidRegister(later.register) && id in later.register && later.register[id].name == env.register[id].name
    requires TokenUnder(tokens, env.register[id].name) == Some(StoredToken(env, s, id, token))
    requires later.key(id, EmptyState()) == env.key(id, s)
    requires later.verify(id, env.key(id, s), token) == env.verify(id, env.key(id, s), token)
    requires Expiry.TimeCheckPasses(StoredToken(env, s, id, token).expiry, later.expiryClock(id, false))
    requires Expiry.FromUnix(0) <= later.notBeforeClock(id, false)
    ensures var n := EvaluatedState(later, tokens, err);
            && ResultOf(n, id) == OK
            && StateOf(n, id) == (if later.register[id].hasVerify && later.spot(id, false) then Full else Brief)
            && TokenUnder(n.tokens, env.register[id].name) == TokenUnder(tokens, env.register[id].name)
  {
    var reg := later.register[id];
    var v := Evaluated(later, reg, TokenUnder(tokens, reg.name), later.key(id, EmptyState()));
    assert VerdictOn(later, tokens, id) == v;
    assert v.result == OK && v.token.Some?;
    EvaluatedStateIsSound(later, tokens, err, id);
    assert Verdicts(later, tokens)[id] == v;
  }

  /** Equal keys carry equal expiries, so such a token is never rejected as expired while the clock is
      within half a duration of the request. Collisions are ruled out only for the two inputs at hand. */
  lemma EqualKeysNotExpired(h: Hash, x: Keys.KeyInput, ks: seq<bytes>, f: bytes, y: Keys.KeyInput, ls: seq<bytes>, g: bytes,
                            stored: int, request: int, clock: int, d: int)
    requires Expiry.WholeSeconds(d)
    requires Keys.ValidInput(x, ks) && Keys.CleanInput(x) && Keys.CleanNames(ks)
    requires Keys.ValidInput(y, ls) && Keys.CleanInput(y) && Keys.CleanNames(ls)
    requires x.expiry == Expiry.UnixSeconds(Expiry.Expiration(stored, d))
    requires y.expiry == Expiry.UnixSeconds(Expiry.Expiration(request, d))
    requires Keys.KeyOf(h, x, ks, f) == Keys.KeyOf(h, y, ls, g)
    requires h(Keys.Preimage(x, ks, f))[1..] == h(Keys.Preimage(y, ls, g))[1..] ==>
             Keys.Preimage(x, ks, f) == Keys.Preimage(y, ls, g)
    requires 2 * clock <= 2 * request + d
    ensures Expiry.TimeCheckPasses(x.expiry, clock)
  {
    Keys.KeysEqualOnlyIf(h, x, ks, f, y, ls, g);
    Expiry.MatchingExpiryNotExpired(stored, request, clock, d);
  }

  // ---- runs -------------------------------------------------------------

  /** Who a cookie is sealed for: the host and the network prefix its key is derived from. */
  datatype Client = Client(host: string, prefix: bytes)

  datatype Cookie = Cookie(client: Client, tokens: Tokens, expiry: int, notBefore: int)

  /** Cookies are authenticated: a client can send back what it was sent, or garbage. */
  datatype Sent = Replay(i: nat) | Garbage

  datatype Path =
    | RulePath(rules: seq<Rule>)
    | VerifyPath(id: Id, token: bytes, wellFormed: bool)
    | HeadersPath          // asset, script and puzzle handlers: response headers only

  datatype Request = Request(client: Client, env: Env, sent: seq<Sent>, clock: nat -> int, path: Path)

  /** One request and what happened while it was handled. */
  datatype Visit = Visit(request: Request, trace: seq<Event>)

  /** Every cookie ever sent, and every request so far. */
  datatype World = World(cookies: seq<Cookie>, visits: seq<Visit>)

  const NOTHING := World([], [])

  ghost predicate ValidRequest(r: Request) {
    && ValidRegister(r.env.register)
    && match r.path
       case RulePath(rules) => AllRegistered(r.env.register, rules)
       case VerifyPath(id, _, _) => id in r.env.register
       case HeadersPath => true
  }

  /** A cookie opens only for the client it was sealed for. */
  function PresentedIn(w: World, client: Client, x: Sent): Presented {
    match x
    case Garbage => Undecodable
    case Replay(i) =>
      if i < |w.cookies| && w.cookies[i].client == client
      then Sealed(w.cookies[i].tokens, w.cookies[i].expiry, w.cookies[i].notBefore)
      else Undecodable
  }

  function AllPresented(w: World, r: Request): seq<Presented> {
    seq(|r.sent|, i requires 0 <= i < |r.sent| => PresentedIn(w, r.client, r.sent[i]))
  }

  ghost function Start(w: World, r: Request): ReqState {
    var cs := AllPresented(w, r);
    EvaluatedState(r.env, CookieTokens(cs, r.clock), OpenFirst(cs, r.clock, 0).1)
  }

  ghost function Final(w: World, r: Request): ReqState
    requires ValidRequest(r)
  {
    match r.path
    case RulePath(rules) => Handling(r.env, Start(w, r), rules).0
    case VerifyPath(id, token, wellFormed) => Posted(r.env, Start(w, r), id, token, wellFormed)
    case HeadersPath => Responded(r.env, Start(w, r))
  }

  const DAY := 24 * 3600

  /** The cookies a trace sends, valid from a day before they were made. */
  function NewCookies(r: Request, trace: seq<Event>): seq<Cookie> {
    if trace == [] then []
    else
      var last := trace[|trace| - 1];
      var notBefore := Expiry.UnixSeconds(r.env.cookieClock) - DAY;
      var sent := if last.SetCookie? then [Cookie(r.client, last.tokens, last.expiry, notBefore)] else [];
      NewCookies(r, trace[..|trace| - 1]) + sent
  }

  ghost function NextWorld(w: World, r: Request): World
    requires ValidRequest(r)
  {
    var trace := Final(w, r).trace;
    World(w.cookies + NewCookies(r, trace), w.visits + [Visit(r, trace)])
  }

  ghost function RunAll(w: World, rs: seq<Request>): World
    requires forall r :: r in rs ==> ValidRequest(r)
    decreases |rs|
  {
    if rs == [] then w
    else
      assert rs[0] in rs;
      RunAll(NextWorld(w, rs[0]), rs[1..])
  }

  function Requests(visits: seq<Visit>): seq<Request> {
    seq(|visits|, n requires 0 <= n < |visits| => visits[n].request)
  }

  /** The run's requests are on record, in order. */
  lemma {:induction false} RunVisits(w: World, rs: seq<Request>)
    requires forall r :: r in rs ==> ValidRequest(r)
    ensures Requests(RunAll(w, rs).visits) == Requests(w.visits) + rs
    decreases |rs|
  {
    if rs == [] {
      assert Requests(w.visits) + rs == Requests(w.visits);
    } else {
      assert rs[0] in rs;
      var next := NextWorld(w, rs[0]);
      RunVisits(next, rs[1..]);
      RequestsSnoc(w.visits, Visit(rs[0], Final(w, rs[0]).trace));
      HeadMoves(Requests(w.visits), rs);
    }
  }

  lemma RequestsSnoc(visits: seq<Visit>, v: Visit)
    ensures Requests(visits + [v]) == Requests(visits) + [v.request]
  {
  }

  lemma HeadMoves(done: seq<Request>, rs: seq<Request>)
    requires rs != []
    ensures done + [rs[0]] + rs[1..] == done + rs
  {
  }

  /** Every passage of every request of one client so far. */
  function Record(visits: seq<Visit>, client: Client): set<Passage> {
    if visits == [] then {}
    else
      var last := visits[|visits| - 1];
      Record(visits[..|visits| - 1], client) + (if last.request.client == client then Passages(last.trace) else {})
  }

  /** Every token of every cookie is on its client's record. */
  ghost predicate CookiesBacked(cs: seq<Cookie>, visits: seq<Visit>) {
    forall i :: 0 <= i < |cs| ==> AllBacked(cs[i].tokens, Record(visits, cs[i].client))
  }

  ghost predicate GoodVisit(v: Visit) {
    AllLicensed(v.request.env, v.trace) && AllVerified(v.request.env, v.trace)
  }

  ghost predicate WorldInv(w: World) {
    && CookiesBacked(w.cookies, w.visits)
    && (forall n :: 0 <= n < |w.visits| ==> GoodVisit(w.visits[n]))
  }

  lemma {:induction false} NewCookiesComeFrom(r: Request, trace: seq<Event>, k: nat)
    requires k < |NewCookies(r, trace)|
    ensures NewCookies(r, trace)[k].client == r.client
    ensures exists i :: 0 <= i < |trace| && trace[i].SetCookie? && trace[i].tokens == NewCookies(r, trace)[k].tokens
  {
    var init, n := trace[..|trace| - 1], |trace| - 1;
    if k < |NewCookies(r, init)| {
      NewCookiesComeFrom(r, init, k);
      var i :| 0 <= i < |init| && init[i].SetCookie? && init[i].tokens == NewCookies(r, init)[k].tokens;
      assert trace[i] == init[i];
    } else {
      assert trace[n].SetCookie?;
    }
  }

  /** A request starts from tokens some cookie of its client carried. */
  lemma StartIsBacked(w: World, r: Request)
    requires WorldInv(w)
    ensures AllBacked(CookieTokens(AllPresented(w, r), r.clock), Record(w.visits, r.client))
  {
    var cs := AllPresented(w, r);
    if OpenFirst(cs, r.clock, 0).1 == NoErr {
      StaleDuplicatesAreHarmless(cs, r.clock, 0);
      var k :| 0 <= k < |cs| && OpenCookie(cs[k], r.clock(k)).1 == NoErr
        && OpenFirst(cs, r.clock, 0).0 == OpenCookie(cs[k], r.clock(k)).0;
      assert cs[k] == PresentedIn(w, r.client, r.sent[k]);
    }
  }

  lemma FinalIsSound(w: World, r: Request)
    requires WorldInv(w) && ValidRequest(r)
    ensures TokensSound(r.env, Record(w.visits, r.client), Final(w, r))
  {
    var record := Record(w.visits, r.client);
    var cs := AllPresented(w, r);
    var tokens, err := CookieTokens(cs, r.clock), OpenFirst(cs, r.clock, 0).1;
    StartIsBacked(w, r);
    EvaluatedStateInv(r.env, record, tokens, err);
    match r.path
    case RulePath(rules) => HandlingKeepsInv(r.env, record, Start(w, r), rules);
    case VerifyPath(id, token, wellFormed) => PostedKeepsTokensSound(r.env, record, Start(w, r), id, token, wellFormed);
    case HeadersPath => RespondedKeepsSound(r.env, record, Start(w, r));
  }

  lemma NextKeepsWorldInv(w: World, r: Request)
    requires WorldInv(w) && ValidRequest(r)
    ensures WorldInv(NextWorld(w, r))
  {
    FinalIsSound(w, r);
    var trace := Final(w, r).trace;
    var v := Visit(r, trace);
    RecordSnoc(w.visits, v, r.client);
    NewCookiesAreBacked(r, trace, Record(w.visits + [v], r.client));
    MoreCookiesBacked(w.cookies, NewCookies(r, trace), w.visits, v);
  }

  lemma RecordSnoc(visits: seq<Visit>, v: Visit, client: Client)
    ensures Record(visits + [v], client) ==
            Record(visits, client) + (if v.request.client == client then Passages(v.trace) else {})
  {
    assert (visits + [v])[..|visits|] == visits;
  }

  lemma MoreCookiesBacked(cs: seq<Cookie>, ds: seq<Cookie>, visits: seq<Visit>, v: Visit)
    requires CookiesBacked(cs, visits) && CookiesBacked(ds, visits + [v])
    ensures CookiesBacked(cs + ds, visits + [v])
  {
    forall i | 0 <= i < |cs + ds| ensures AllBacked((cs + ds)[i].tokens, Record(visits + [v], (cs + ds)[i].client)) {
      if i < |cs| {
        assert AllBacked(cs[i].tokens, Record(visits, cs[i].client));
        RecordSnoc(visits, v, cs[i].client);
      } else {
        assert (cs + ds)[i] == ds[i - |cs|];
      }
    }
  }

  lemma NewCookiesAreBacked(r: Request, trace: seq<Event>, record: set<Passage>)
    requires forall i :: 0 <= i < |trace| && trace[i].SetCookie? ==> AllBacked(trace[i].tokens, record)
    ensures forall k :: 0 <= k < |NewCookies(r, trace)| ==>
              NewCookies(r, trace)[k].client == r.client && AllBacked(NewCookies(r, trace)[k].tokens, record)
  {
    forall k | 0 <= k < |NewCookies(r, trace)|
      ensures NewCookies(r, trace)[k].client == r.client && AllBacked(NewCookies(r, trace)[k].tokens, record)
    {
      NewCookiesComeFrom(r, trace, k);
    }
  }

  lemma {:induction false} RunKeepsWorldInv(w: World, rs: seq<Request>)
    requires WorldInv(w) && forall r :: r in rs ==> ValidRequest(r)
    ensures WorldInv(RunAll(w, rs))
    decreases |rs|
  {
    if rs != [] {
      assert rs[0] in rs;
      NextKeepsWorldInv(w, rs[0]);
      RunKeepsWorldInv(NextWorld(w, rs[0]), rs[1..]);
    }
  }

  /** The event records the storing of exactly this token. */
  predicate Stores(e: Event, name: string, t: Token) {
    e.Stored? && PassageOf(name, t) == Passage(e.name, e.key, e.result, e.expiry)
  }

  /** The n-th request came from this client, stored this token at its i-th event, and was licensed to. */
  ghost predicate StoredAt(w: World, n: nat, i: nat, client: Client, name: string, t: Token) {
    && n < |w.visits| && i < |w.visits[n].trace| && w.visits[n].request.client == client
    && Stores(w.visits[n].trace[i], name, t)
    && Licensed(w.visits[n].request.env, w.visits[n].trace, i)
  }

  lemma {:induction false} OnRecord(visits: seq<Visit>, client: Client, name: string, t: Token) returns (n: nat, i: nat)
    requires PassageOf(name, t) in Record(visits, client)
    ensures n < |visits| && i < |visits[n].trace| && visits[n].request.client == client && Stores(visits[n].trace[i], name, t)
  {
    var init, last := visits[..|visits| - 1], |visits| - 1;
    if PassageOf(name, t) in Record(init, client) {
      n, i := OnRecord(init, client, name, t);
      assert visits[n] == init[n];
    } else {
      var e :| e in visits[last].trace && Stores(e, name, t);
      n := last;
      i :| 0 <= i < |visits[last].trace| && visits[last].trace[i] == e;
    }
  }

  lemma RecordedWasStored(w: World, client: Client, name: string, t: Token)
    requires WorldInv(w) && PassageOf(name, t) in Record(w.visits, client)
    ensures exists n, i :: StoredAt(w, n, i, client, name, t)
  {
    var n, i := OnRecord(w.visits, client, name, t);
    assert GoodVisit(w.visits[n]);
    assert StoredAt(w, n, i, client, name, t);
  }

  lemma VisitsVerified(w: World)
    requires WorldInv(w)
    ensures forall n :: 0 <= n < |w.visits| ==> AllVerified(w.visits[n].request.env, w.visits[n].trace)
  {
    assert forall n :: 0 <= n < |w.visits| ==> GoodVisit(w.visits[n]);
  }

  /** Whole-run safety. However clients replay cookies, and whatever requests arrive: every token in
      every cookie ever sent is a success, and some request of the same client stored exactly it, under
      the challenge's name, expiry and key, while the challenge was being issued under that key or after
      the result had verified under it. Whatever is recorded as verified was verified. */
  lemma EveryTokenWasEarned(rs: seq<Request>, c: nat, name: string)
    requires forall r :: r in rs ==> ValidRequest(r)
    ensures var w := RunAll(NOTHING, rs);
            && Requests(w.visits) == rs
            && (forall n :: 0 <= n < |w.visits| ==> AllVerified(w.visits[n].request.env, w.visits[n].trace))
            && (c < |w.cookies| && name in w.cookies[c].tokens ==>
                  w.cookies[c].tokens[name].ok
                  && exists n, i :: StoredAt(w, n, i, w.cookies[c].client, name, w.cookies[c].tokens[name]))
  {
    var w := RunAll(NOTHING, rs);
    RunKeepsWorldInv(NOTHING, rs);
    RunVisits(NOTHING, rs);
    assert Requests(NOTHING.visits) + rs == rs;
    VisitsVerified(w);
    if c < |w.cookies| && name in w.cookies[c].tokens {
      RecordedWasStored(w, w.cookies[c].client, name, w.cookies[c].tokens[name]);
    }
  }

  /** This token was stored by an earlier request of the client, a success, and passes the request's time
      check under its current or legacy key. */
  ghost predicate Earned(w: World, r: Request, id: Id, t: Token)
    requires id in r.env.register
  {
    && t.ok
    && PassedChecks(r.env, r.env.register[id], t, r.env.key(id, EmptyState()))
    && exists n, i :: StoredAt(w, n, i, r.client, r.env.register[id].name, t)
  }

  /** In every run, whatever the next request presents: a challenge is OK when it arrives only with a
      token that its client earned. */
  lemma EveryOkWasEarned(rs: seq<Request>, r: Request, id: Id)
    requires (forall x :: x in rs ==> ValidRequest(x)) && ValidRequest(r) && id in r.env.register
    ensures var w := RunAll(NOTHING, rs);
            var name := r.env.register[id].name;
            ResultOf(Start(w, r), id).Ok() ==>
              name in Start(w, r).tokens && Earned(w, r, id, Start(w, r).tokens[name])
  {
    RunKeepsWorldInv(NOTHING, rs);
    var w := RunAll(NOTHING, rs);
    if ResultOf(Start(w, r), id).Ok() {
      var cs := AllPresented(w, r);
      var tokens, name := CookieTokens(cs, r.clock), r.env.register[id].name;
      EvaluatedStateIsSound(r.env, tokens, OpenFirst(cs, r.clock, 0).1, id);
      StartIsBacked(w, r);
      assert name in tokens && Start(w, r).tokens[name] == tokens[name];
      RecordedWasStored(w, r.client, name, tokens[name]);
    }
  }

  /** The whole of it: behind a front door, in every run, a request reaches a backend only if a challenge
      of the door's set let it through, with a token that its client earned or by its issuing function. */
  lemma BackendOnlyForTheChallenged(rs: seq<Request>, r: Request, rules: seq<Rule>, ids: set<Id>)
    requires (forall x :: x in rs ==> ValidRequest(x)) && ValidRequest(r) && r.path == RulePath(rules)
    requires rules != [] && ConditionHolds(r.env, Start(RunAll(NOTHING, rs), r), rules[0])
    requires NeverGoesOn(rules[0].handler) && Guarded(rules[0].handler, ids)
    requires ids <= r.env.register.Keys
    ensures var w := RunAll(NOTHING, rs);
            Serves(Final(w, r)) ==>
              exists id :: id in ids && id in r.env.register && (IssuedOk(r.env, id) || exists t :: Earned(w, r, id, t))
  {
    var w := RunAll(NOTHING, rs);
    var cs := AllPresented(w, r);
    RunKeepsWorldInv(NOTHING, rs);
    StartIsBacked(w, r);
    EvaluatedStateInv(r.env, Record(w.visits, r.client), CookieTokens(cs, r.clock), OpenFirst(cs, r.clock, 0).1);
    FrontDoorHolds(r.env, Start(w, r), rules, ids);
    if Serves(Final(w, r)) {
      var id :| id in ids && (ResultOf(Start(w, r), id).Ok() || IssuedOk(r.env, id));
      EveryOkWasEarned(rs, r, id);
    }
  }

  // ---- a stored proof comes back ----------------------------------------

  /** The one cookie sent in answer to a posted token that verified: rounded to a week, valid from a day ago. */
  ghost function CookieOfPost(w: World, r: Request, id: Id, token: bytes): Cookie
    requires ValidRequest(r) && id in r.env.register
  {
    Cookie(r.client,
      Start(w, r).tokens[r.env.register[id].name := StoredToken(r.env, Start(w, r), id, token)],
      Expiry.UnixSeconds(Expiry.Expiration(r.env.time, 604_800_000_000_000)),
      Expiry.UnixSeconds(r.env.cookieClock) - 86_400)
  }

  ghost predicate PostsProof(w: World, r: Request, id: Id, token: bytes) {
    && ValidRequest(r) && id in r.env.register
    && r.path == VerifyPath(id, token, true) && PostedVerifies(r.env, Start(w, r), id, token)
  }

  lemma PostTrace(w: World, r: Request, id: Id, token: bytes)
    requires PostsProof(w, r, id, token)
    ensures var s, c := Start(w, r), CookieOfPost(w, r, id, token);
            var key, reg := r.env.key(id, s), r.env.register[id];
            Final(w, r).trace == [Verified(id, key, token),
              Stored(reg.id, reg.name, key, token, Expiry.UnixSeconds(Expiry.Expiration(r.env.time, reg.duration))),
              SetCookie(c.tokens, c.expiry)] + [Page]
  {
    var s := Start(w, r);
    var n := WithPosted(r.env, s, id, token);
    assert s.trace == [] && n.modified && |n.trace| == 2;
    assert Final(w, r).trace == n.trace + [SetCookie(n.tokens, CookieOfPost(w, r, id, token).expiry)] + [Page];
  }

  lemma OneCookie(r: Request, a: Event, b: Event, tokens: Tokens, expiry: int)
    requires !a.SetCookie? && !b.SetCookie?
    ensures NewCookies(r, [a, b, SetCookie(tokens, expiry)] + [Page]) ==
            [Cookie(r.client, tokens, expiry, Expiry.UnixSeconds(r.env.cookieClock) - DAY)]
  {
    QuietTrace(r, [a, b]);
    assert [a, b, SetCookie(tokens, expiry)] == [a, b] + [SetCookie(tokens, expiry)];
    NewCookiesSnoc(r, [a, b], SetCookie(tokens, expiry));
    NewCookiesSnoc(r, [a, b, SetCookie(tokens, expiry)], Page);
  }

  lemma PostSendsOneCookie(w: World, r: Request, id: Id, token: bytes)
    requires PostsProof(w, r, id, token)
    ensures NextWorld(w, r).cookies == w.cookies + [CookieOfPost(w, r, id, token)]
  {
    var c, trace := CookieOfPost(w, r, id, token), Final(w, r).trace;
    PostTrace(w, r, id, token);
    OneCookie(r, trace[0], trace[1], c.tokens, c.expiry);
  }

  lemma NewCookiesSnoc(r: Request, trace: seq<Event>, e: Event)
    ensures NewCookies(r, trace + [e]) == NewCookies(r, trace) + NewCookies(r, [e])
  {
    assert (trace + [e])[..|trace|] == trace && [e][..0] == [];
  }

  lemma {:induction false} QuietTrace(r: Request, trace: seq<Event>)
    requires forall i :: 0 <= i < |trace| ==> !trace[i].SetCookie?
    ensures NewCookies(r, trace) == []
  {
    if trace != [] {
      QuietTrace(r, trace[..|trace| - 1]);
    }
  }

  lemma {:induction false} CookiesStay(w: World, rs: seq<Request>)
    requires forall r :: r in rs ==> ValidRequest(r)
    ensures |w.cookies| <= |RunAll(w, rs).cookies| && RunAll(w, rs).cookies[..|w.cookies|] == w.cookies
    decreases |rs|
  {
    if rs != [] {
      assert rs[0] in rs;
      var n := NextWorld(w, rs[0]);
      CookiesStay(n, rs[1..]);
      assert RunAll(w, rs).cookies[..|w.cookies|] == RunAll(w, rs).cookies[..|n.cookies|][..|w.cookies|];
    }
  }

  lemma {:induction false} OpensAt(cs: seq<Presented>, now: nat -> int, k: nat, i: nat)
    requires k <= i < |cs| && OpenCookie(cs[i], now(i)).1 == NoErr
    requires forall j :: k <= j < i ==> OpenCookie(cs[j], now(j)).1 != NoErr
    ensures OpenFirst(cs, now, k) == OpenCookie(cs[i], now(i))
    decreases i - k
  {
    if k < i {
      OpensAt(cs, now, k + 1, i);
    }
  }

  /** The cookie is sent back as the i-th one, before it expires and after its not-before time, and no
      cookie in front of it opens. */
  ghost predicate Replays(w: World, c: nat, later: Request, i: nat) {
    && c < |w.cookies| && i < |later.sent| && later.sent[i] == Replay(c) && later.client == w.cookies[c].client
    && Expiry.FromUnix(w.cookies[c].notBefore) <= later.clock(i) <= Expiry.FromUnix(w.cookies[c].expiry)
    && forall j :: 0 <= j < i ==> OpenCookie(PresentedIn(w, later.client, later.sent[j]), later.clock(j)).1 != NoErr
  }

  lemma ReplayIsOpened(w: World, c: nat, later: Request, i: nat)
    requires Replays(w, c, later, i)
    ensures CookieTokens(AllPresented(w, later), later.clock) == w.cookies[c].tokens
  {
    OpensAt(AllPresented(w, later), later.clock, 0, i);
  }

  /** In every world: a client posts a token that verifies, any requests of anybody follow, and a later
      request of that client replays the cookie it was sent. If the later request has the same key and
      verifier answer and the token has not expired, its challenge is OK, spot check or not. */
  lemma PostedProofComesBack(w: World, first: Request, id: Id, token: bytes, between: seq<Request>, later: Request, i: nat)
    requires PostsProof(w, first, id, token) && forall r :: r in between ==> ValidRequest(r)
    requires Replays(RunAll(NextWorld(w, first), between), |w.cookies|, later, i)
    requires ValidRequest(later) && id in later.env.register
    requires later.env.register[id].name == first.env.register[id].name
    requires later.env.key(id, EmptyState()) == first.env.key(id, Start(w, first))
    requires var key := first.env.key(id, Start(w, first));
             later.env.verify(id, key, token) == first.env.verify(id, key, token)
    requires Expiry.TimeCheckPasses(StoredToken(first.env, Start(w, first), id, token).expiry, later.env.expiryClock(id, false))
    requires Expiry.FromUnix(0) <= later.env.notBeforeClock(id, false)
    ensures var n := Start(RunAll(NextWorld(w, first), between), later);
            && ResultOf(n, id) == OK
            && StateOf(n, id) == (if later.env.register[id].hasVerify && later.env.spot(id, false) then Full else Brief)
            && TokenUnder(n.tokens, later.env.register[id].name) == Some(StoredToken(first.env, Start(w, first), id, token))
  {
    var next := NextWorld(w, first);
    var end := RunAll(next, between);
    PostSendsOneCookie(w, first, id, token);
    CookiesStay(next, between);
    assert end.cookies[|w.cookies|] == end.cookies[..|next.cookies|][|w.cookies|] == CookieOfPost(w, first, id, token);
    ReplayIsOpened(end, |w.cookies|, later, i);
    var cs := AllPresented(end, later);
    StoredProofIsHonoured(first.env, Start(w, first), id, token, later.env,
      CookieTokens(cs, later.clock), OpenFirst(cs, later.clock, 0).1);
  }
}
