/** One request's challenge bookkeeping: lib/challenge/data.go. */
module Challenge {
  import opened Bytes
  import opened Verify
  import Expiry

  type Id = nat

  /** NoErr is nil; the others are the sentinel errors the code tells apart. */
  datatype Err = NoErr | ErrTokenExpired | ErrNotYetValid | ErrKeyMismatch | ErrVerifyMismatch | ErrNoCookie | ErrOther

  /** A registered challenge. */
  datatype Reg = Reg(
    id: Id,
    name: string,
    transparent: bool,
    duration: int,
    hasVerify: bool,
    hasCondition: bool,
    hasLegacyHeaders: bool)

  type Register = map<Id, Reg>

  /** Registrations are filed under their own id, and no two share a name. */
  ghost predicate ValidRegister(reg: Register) {
    && (forall id :: id in reg ==> reg[id].id == id)
    && (forall i, j :: i in reg && j in reg && reg[i].name == reg[j].name ==> i == j)
  }

  /** A TokenChallenge; times are Unix seconds. */
  datatype Token = Token(key: bytes, result: bytes, ok: bool, expiry: int, notBefore: int)

  type Tokens = map<string, Token>

  /** A CEL evaluation: an error, a boolean, a value of another type, or no value. */
  datatype Cond = CondError | CondBool(b: bool) | CondOther | CondNil

  /** What can be observed of handling a request, in order. */
  datatype Event =
    | RuleHit(rule: string)
    | RuleMiss(rule: string)
    | Issuing(id: Id, key: bytes)                                        // IssueChallenge is called
    | Verified(id: Id, key: bytes, token: bytes)                         // a posted token verified
    | Stored(id: Id, name: string, key: bytes, result: bytes, expiry: int) // a token entered the state
    | SetCookie(tokens: Tokens, expiry: int)
    | RuleHeaders(rule: string)
    | Cleanup(rule: string)
    | SentHeaders
    | Panicked
    | ServeBackend
    | Page
    | Dropped
    | ContextApplied

  /** The mutable part of a RequestData, and the trace so far. */
  datatype ReqState = ReqState(
    verify: map<Id, VerifyResult>,
    state: map<Id, VerifyState>,
    diagnostic: map<Id, string>,
    tokens: Tokens,
    modified: bool,
    cookieStatus: string,
    trace: seq<Event>)

  /** What IssueChallenge may do to the request before it answers. */
  datatype IssueEffect = SendRequestHeaders | WriteResponseHeaders | IssueToken(result: bytes, ok: bool)

  datatype IssuePlan = IssuePlan(effects: seq<IssueEffect>, result: VerifyResult)

  /** Everything around one request that the code does not decide: keys, verifiers, conditions, spot
      checks, clocks and issuing functions are arbitrary functions. The clock is read once for the
      expiry and once for the not-before test of either attempt. */
  datatype Env = Env(
    time: int,
    cookieClock: int,
    register: Register,
    key: (Id, ReqState) -> bytes,
    legacyKey: Id -> bytes,
    issuedName: string,
    verify: (Id, bytes, bytes) -> (VerifyResult, Err),
    spot: (Id, bool) -> bool,
    expiryClock: (Id, bool) -> int,
    notBeforeClock: (Id, bool) -> int,
    condition: Id -> Cond,
    issue: (Id, ReqState) -> IssuePlan,
    ruleCondition: (string, ReqState) -> Cond,
    backendTakesHeaders: bool)

  const DEFAULT_DURATION := 7 * 24 * 3600 * Expiry.NANOS

  function EmptyState(): ReqState {
    ReqState(map[], map[], map[], map[], false, "", [])
  }

  /** Reading a missing map entry gives the zero value. */
  function ResultOf(s: ReqState, id: Id): VerifyResult {
    if id in s.verify then s.verify[id] else None_
  }

  function StateOf(s: ReqState, id: Id): VerifyState {
    if id in s.state then s.state[id] else NoState
  }

  function Log(s: ReqState, e: Event): ReqState {
    s.(trace := s.trace + [e])
  }

  // ---- one token --------------------------------------------------------

  /** VerifyChallengeToken; `legacy` says which attempt this is. */
  function VerifyToken(env: Env, reg: Reg, token: Token, key: bytes, legacy: bool): (VerifyResult, VerifyState, Err) {
    if Expiry.FromUnix(token.expiry) < env.expiryClock(reg.id, legacy) then (Fail, NoState, ErrTokenExpired)
    else if Expiry.FromUnix(token.notBefore) > env.notBeforeClock(reg.id, legacy) then (Fail, NoState, ErrNotYetValid)
    else if key != token.key then (Fail, NoState, ErrKeyMismatch)
    else if reg.hasVerify && env.spot(reg.id, legacy) then
      var (result, err) := env.verify(reg.id, key, token.result);
      if err != NoErr then (Fail, Full, err)
      else if result == NotOK then (NotOK, Full, NoErr)
      else if !result.Ok() then (result, Full, ErrVerifyMismatch)
      else (result, Full, NoErr)
    else if !token.ok then (NotOK, Brief, NoErr)
    else (OK, Brief, NoErr)
  }

  /** The key mismatch of the first attempt is retried with the legacy headers' key. */
  function VerifyEitherKey(env: Env, reg: Reg, token: Token, key: bytes): (VerifyResult, VerifyState, Err) {
    var first := VerifyToken(env, reg, token, key, false);
    if first.2 == ErrKeyMismatch && reg.hasLegacyHeaders
    then VerifyToken(env, reg, token, env.legacyKey(reg.id), true)
    else first
  }

  /** challengeVerificationCategory */
  function Category(tokenPresent: bool, result: VerifyResult, err: Err): string {
    if result.Ok() then "valid"
    else if !tokenPresent then "missing"
    else if err == ErrTokenExpired then "expired"
    else if err == ErrKeyMismatch then "key_mismatch"
    else if err == ErrVerifyMismatch then "verification_mismatch"
    else if err != NoErr then "invalid"
    else if result == Skip then "skipped"
    else "rejected"
  }

  /** What evaluating one challenge comes to. */
  datatype Verdict = Verdict(result: VerifyResult, state: VerifyState, err: Err, token: Option<Token>)

  /** verifyChallenge for one registration and the token, if any, that came under its name. */
  function Evaluated(env: Env, reg: Reg, token: Option<Token>, key: bytes): Verdict {
    if token.None? then
      Verdict(if env.issuedName == reg.name then Skip else Fail, NoState, NoErr, None)
    else
      var (result, state, err) := VerifyEitherKey(env, reg, token.value, key);
      var kept := if err != NoErr && err != ErrNoCookie then None else token;
      if !result.Ok() && reg.hasCondition && env.condition(reg.id) == CondBool(false) then
        // the error returned here is the condition's own, which is nil
        Verdict(Skip, state, NoErr, kept)
      else
        Verdict(if !result.Ok() && env.issuedName == reg.name then Skip else result, state, err,
          if err != NoErr then None else kept)
  }

  // ---- what an evaluated challenge satisfies ----------------------------

  /** The token passed the checks of one of the two attempts. */
  ghost predicate PassedChecks(env: Env, reg: Reg, token: Token, key: bytes) {
    || (Expiry.TimeCheckPasses(token.expiry, env.expiryClock(reg.id, false)) && token.key == key)
    || (reg.hasLegacyHeaders && Expiry.TimeCheckPasses(token.expiry, env.expiryClock(reg.id, true))
        && token.key == env.legacyKey(reg.id))
  }

  /** A token survives evaluation only unexpired and under the current or the legacy key; an OK
      challenge keeps its token and is Brief or Full; no evaluation ends in Pass. */
  lemma EvaluatedIsSound(env: Env, reg: Reg, token: Option<Token>, key: bytes)
    ensures var v := Evaluated(env, reg, token, key);
            && (v.token.Some? ==> v.token == token && PassedChecks(env, reg, token.value, key))
            && (v.result.Ok() ==> v.token.Some? && v.err == NoErr && v.state in {Brief, Full})
            && v.state != Pass
  {
  }

  /** One attempt's time and key tests pass and the token is vouched for, by the verifier if the spot
      check is drawn and by its own flag if not. */
  ghost predicate Vouched(env: Env, reg: Reg, token: Token, key: bytes, legacy: bool) {
    && Expiry.TimeCheckPasses(token.expiry, env.expiryClock(reg.id, legacy))
    && Expiry.FromUnix(token.notBefore) <= env.notBeforeClock(reg.id, legacy)
    && token.key == key
    && (if reg.hasVerify && env.spot(reg.id, legacy) then env.verify(reg.id, key, token.result) == (OK, NoErr) else token.ok)
  }

  ghost predicate InTime(env: Env, reg: Reg, token: Token, legacy: bool) {
    && Expiry.TimeCheckPasses(token.expiry, env.expiryClock(reg.id, legacy))
    && Expiry.FromUnix(token.notBefore) <= env.notBeforeClock(reg.id, legacy)
  }

  ghost predicate Drawn(env: Env, reg: Reg, legacy: bool) {
    reg.hasVerify && env.spot(reg.id, legacy)
  }

  /** The legacy key is tried exactly after a key mismatch: of a token in time, found by comparing or
      reported by the verifier. */
  ghost predicate Retried(env: Env, reg: Reg, token: Token, key: bytes) {
    && reg.hasLegacyHeaders && InTime(env, reg, token, false)
    && (token.key != key || (Drawn(env, reg, false) && env.verify(reg.id, key, token.result).1 == ErrKeyMismatch))
  }

  /** The key of the attempt that decides. */
  ghost function DecidingKey(env: Env, reg: Reg, token: Token, key: bytes): bytes {
    if Retried(env, reg, token, key) then env.legacyKey(reg.id) else key
  }

  /** That attempt finds the token in time and under its key. */
  ghost predicate Admitted(env: Env, reg: Reg, token: Token, key: bytes) {
    InTime(env, reg, token, Retried(env, reg, token, key)) && token.key == DecidingKey(env, reg, token, key)
  }

  /** The verifier's answer in that attempt, if the spot check is drawn for an admitted token. */
  ghost function SpotAnswer(env: Env, reg: Reg, token: Token, key: bytes): Option<(VerifyResult, Err)> {
    if Admitted(env, reg, token, key) && Drawn(env, reg, Retried(env, reg, token, key))
    then Some(env.verify(reg.id, DecidingKey(env, reg, token, key), token.result)) else None
  }

  /** What the token is worth by itself: the verifier decides if it is asked, else the token's own flag. */
  ghost function Worth(env: Env, reg: Reg, token: Token, key: bytes): VerifyResult {
    var answer := SpotAnswer(env, reg, token, key);
    if !Admitted(env, reg, token, key) then Fail
    else if answer.Some? then (if answer.value.1 == NoErr then answer.value.0 else Fail)
    else if token.ok then OK else NotOK
  }

  ghost predicate ConditionFails(env: Env, reg: Reg) {
    reg.hasCondition && env.condition(reg.id) == CondBool(false)
  }

  /** When an evaluation comes out OK. */
  lemma OkIff(env: Env, reg: Reg, token: Option<Token>, key: bytes)
    ensures Evaluated(env, reg, token, key).result.Ok() <==>
            token.Some? &&
            (Vouched(env, reg, token.value, key, false)
             || (Retried(env, reg, token.value, key) && Vouched(env, reg, token.value, env.legacyKey(reg.id), true)))
  {
  }

  /** The result is the token's worth, except that what is not OK is skipped when the challenge was
      just issued, or when its condition does not hold of a client that has a token. */
  lemma ResultIs(env: Env, reg: Reg, token: Option<Token>, key: bytes)
    ensures var worth := if token.Some? then Worth(env, reg, token.value, key) else Fail;
            Evaluated(env, reg, token, key).result ==
            if worth == OK then OK
            else if env.issuedName == reg.name || (token.Some? && ConditionFails(env, reg)) then Skip
            else worth
  {
  }

  /** Full and Brief say of an admitted token whether the verifier was asked. */
  lemma StateIs(env: Env, reg: Reg, token: Option<Token>, key: bytes)
    ensures Evaluated(env, reg, token, key).state ==
            if token.None? || !Admitted(env, reg, token.value, key) then NoState
            else if SpotAnswer(env, reg, token.value, key).Some? then Full else Brief
  {
  }

  /** A token is kept exactly if it is admitted and the verifier, if asked, answers OK or NotOK without an
      error. (A missing-cookie error of the verifier's own is forgiven when the condition fails.) */
  lemma KeptIff(env: Env, reg: Reg, token: Option<Token>, key: bytes)
    ensures Evaluated(env, reg, token, key).token.Some? <==>
            && token.Some? && Admitted(env, reg, token.value, key)
            && var answer := SpotAnswer(env, reg, token.value, key);
               answer.Some? ==>
                 (answer.value.1 == NoErr && answer.value.0 in {OK, NotOK})
                 || (answer.value.1 == ErrNoCookie && ConditionFails(env, reg))
  {
  }

  function CategoryOf(env: Env, reg: Reg, token: Option<Token>, key: bytes): string {
    var v := Evaluated(env, reg, token, key);
    Category(token.Some?, v.result, v.err)
  }

  /** Their first letters tell the categories apart, but for two. */
  lemma Initials()
    ensures "missing"[0] == 'm' && "expired"[0] == 'e' && "key_mismatch"[0] == 'k' && "verification_mismatch"[0] == 'v'
    ensures "invalid"[0] == 'i' && "skipped"[0] == 's' && "rejected"[0] == 'r' && "valid"[0] == 'v'
  {
  }

  /** What the diagnostics tell an operator: missing, no token; expired or key_mismatch, the test the
      deciding attempt failed at, or what the verifier reported; skipped, one of the two reasons to skip
      and no error. A failing condition hides the cause. */
  lemma CategoryMeans(env: Env, reg: Reg, token: Option<Token>, key: bytes)
    ensures CategoryOf(env, reg, token, key) == "missing" <==> token.None?
    ensures CategoryOf(env, reg, token, key) == "expired" <==>
            && token.Some? && !ConditionFails(env, reg)
            && var t, legacy := token.value, Retried(env, reg, token.value, key);
               !Expiry.TimeCheckPasses(t.expiry, env.expiryClock(reg.id, legacy))
               || (SpotAnswer(env, reg, t, key).Some? && SpotAnswer(env, reg, t, key).value.1 == ErrTokenExpired)
    ensures CategoryOf(env, reg, token, key) == "key_mismatch" <==>
            && token.Some? && !ConditionFails(env, reg)
            && var t, legacy := token.value, Retried(env, reg, token.value, key);
               (InTime(env, reg, t, legacy) && t.key != DecidingKey(env, reg, t, key))
               || (SpotAnswer(env, reg, t, key).Some? && SpotAnswer(env, reg, t, key).value.1 == ErrKeyMismatch)
    ensures CategoryOf(env, reg, token, key) == "skipped" <==>
            && token.Some? && Worth(env, reg, token.value, key) != OK
            && (ConditionFails(env, reg)
                || (env.issuedName == reg.name && Worth(env, reg, token.value, key) == NotOK))
  {
    Initials();
  }

  // ---- the whole evaluation ---------------------------------------------

  /** A cookie the client sent under the right name: garbage, or a container this server sealed. */
  datatype Presented = Undecodable | Sealed(tokens: Tokens, expiry: int, notBefore: int)

  /** verifyChallengeStateCookie at one clock reading. */
  function OpenCookie(c: Presented, now: int): (Option<Tokens>, Err) {
    match c
    case Undecodable => (None, ErrOther)
    case Sealed(tokens, expiry, notBefore) =>
      if Expiry.FromUnix(expiry) < now then (None, ErrTokenExpired)
      else if Expiry.FromUnix(notBefore) > now then (None, ErrOther)
      else (Some(tokens), NoErr)
  }

  /** verifyChallengeState: the first cookie that opens, else the last one's error. */
  function OpenFirst(cs: seq<Presented>, now: nat -> int, i: nat): (Option<Tokens>, Err)
    requires i <= |cs|
    decreases |cs| - i
  {
    if i == |cs| then (None, ErrNoCookie)
    else
      var (tokens, err) := OpenCookie(cs[i], now(i));
      if err == NoErr || i + 1 == |cs| then (tokens, err) else OpenFirst(cs, now, i + 1)
  }

  /** A cookie opens exactly when this server sealed it and the clock is between its two times, both
      included; then it yields its tokens. */
  lemma OpensIff(c: Presented, now: int)
    ensures OpenCookie(c, now).1 == NoErr <==>
            c.Sealed? && Expiry.FromUnix(c.notBefore) <= now <= Expiry.FromUnix(c.expiry)
    ensures OpenCookie(c, now).1 == NoErr ==> OpenCookie(c, now).0 == Some(c.tokens)
  {
  }

  /** The tokens a request starts from: none if no cookie opens. */
  function CookieTokens(cs: seq<Presented>, now: nat -> int): Tokens {
    var found := OpenFirst(cs, now, 0);
    if found.1 == NoErr && found.0.Some? then found.0.value else map[]
  }

  /** A stale duplicate never hides a good cookie. */
  lemma {:induction false} StaleDuplicatesAreHarmless(cs: seq<Presented>, now: nat -> int, i: nat)
    requires i <= |cs|
    ensures OpenFirst(cs, now, i).1 == NoErr <==> exists k :: i <= k < |cs| && OpenCookie(cs[k], now(k)).1 == NoErr
    ensures OpenFirst(cs, now, i).1 == NoErr ==>
            exists k :: i <= k < |cs| && OpenCookie(cs[k], now(k)).1 == NoErr
              && OpenFirst(cs, now, i).0 == OpenCookie(cs[k], now(k)).0
              && forall j :: i <= j < k ==> OpenCookie(cs[j], now(j)).1 != NoErr
    decreases |cs| - i
  {
    if i < |cs| {
      StaleDuplicatesAreHarmless(cs, now, i + 1);
      if OpenCookie(cs[i], now(i)).1 != NoErr && OpenFirst(cs, now, i).1 == NoErr {
        var k :| i + 1 <= k < |cs| && OpenCookie(cs[k], now(k)).1 == NoErr
              && OpenFirst(cs, now, i + 1).0 == OpenCookie(cs[k], now(k)).0
              && forall j :: i + 1 <= j < k ==> OpenCookie(cs[j], now(j)).1 != NoErr;
        assert forall j :: i <= j < k ==> OpenCookie(cs[j], now(j)).1 != NoErr;
      }
    }
  }

  function CookieStatus(err: Err): string {
    match err
    case NoErr => "valid"
    case ErrNoCookie => "missing"
    case ErrTokenExpired => "expired"
    case _ => "invalid"
  }

  /** The cookie status: valid if some cookie opens, missing if none came, and if none opens what the
      last one says. */
  lemma {:induction false} CookieStatusMeans(cs: seq<Presented>, now: nat -> int)
    ensures var status := CookieStatus(OpenFirst(cs, now, 0).1);
            && (status == "valid" <==> exists k :: 0 <= k < |cs| && OpenCookie(cs[k], now(k)).1 == NoErr)
            && (status == "missing" <==> cs == [])
            && (status == "expired" <==>
                  && cs != [] && (forall k :: 0 <= k < |cs| ==> OpenCookie(cs[k], now(k)).1 != NoErr)
                  && var last := |cs| - 1; cs[last].Sealed? && Expiry.FromUnix(cs[last].expiry) < now(last))
  {
    Initials();
    StaleDuplicatesAreHarmless(cs, now, 0);
    LastErrorStands(cs, now, 0);
  }

  lemma {:induction false} LastErrorStands(cs: seq<Presented>, now: nat -> int, i: nat)
    requires i <= |cs|
    ensures OpenFirst(cs, now, i).1 != NoErr ==>
            OpenFirst(cs, now, i).1 == if i == |cs| then ErrNoCookie else OpenCookie(cs[|cs| - 1], now(|cs| - 1)).1
    decreases |cs| - i
  {
    if i < |cs| {
      LastErrorStands(cs, now, i + 1);
    }
  }

  function TokenUnder(tokens: Tokens, name: string): Option<Token> {
    if name in tokens then Some(tokens[name]) else None
  }

  /** The verdict on one registered challenge, given the tokens of the opened cookie. */
  function VerdictOn(env: Env, tokens: Tokens, id: Id): Verdict
    requires id in env.register
  {
    var reg := env.register[id];
    Evaluated(env, reg, TokenUnder(tokens, reg.name), env.key(id, EmptyState()))
  }

  /** All verdicts of a request. */
  function Verdicts(env: Env, tokens: Tokens): map<Id, Verdict> {
    map id | id in env.register :: VerdictOn(env, tokens, id)
  }

  /** Is the token under this name cleared once these challenges are evaluated? */
  ghost predicate ClearedName(register: Register, verdicts: map<Id, Verdict>, done: set<Id>, name: string) {
    exists id :: id in done && id in register && id in verdicts && register[id].name == name && verdicts[id].token.None?
  }

  /** The tokens left once the challenges in `done` are evaluated. */
  ghost function TokensLeft(register: Register, verdicts: map<Id, Verdict>, tokens: Tokens, done: set<Id>): Tokens {
    map name | name in tokens && !ClearedName(register, verdicts, done, name) :: tokens[name]
  }

  function DiagnosticOf(register: Register, v: Verdict, tokens: Tokens, id: Id): string {
    Category(id in register && register[id].name in tokens, v.result, v.err)
  }

  /** The state once the challenges in `done` are evaluated: a set, so their order does not occur in it. */
  ghost function PartialState(register: Register, verdicts: map<Id, Verdict>, tokens: Tokens, err: Err, done: set<Id>): ReqState {
    ReqState(
      map id | id in done && id in verdicts :: verdicts[id].result,
      map id | id in done && id in verdicts :: verdicts[id].state,
      map id | id in done && id in verdicts :: DiagnosticOf(register, verdicts[id], tokens, id),
      TokensLeft(register, verdicts, tokens, done),
      false, CookieStatus(err), [])
  }

  /** The state every evaluation of the whole register reaches. */
  ghost function EvaluatedState(env: Env, tokens: Tokens, err: Err): ReqState {
    PartialState(env.register, Verdicts(env, tokens), tokens, err, env.register.Keys)
  }

  /** The state after the loop body for one registration. */
  function AfterOne(s: ReqState, reg: Reg, v: Verdict): ReqState {
    s.(verify := s.verify[reg.id := v.result],
       state := s.state[reg.id := v.state],
       diagnostic := s.diagnostic[reg.id := Category(reg.name in s.tokens, v.result, v.err)],
       tokens := if v.token.None? then s.tokens - {reg.name} else s.tokens)
  }

  /** Another challenge never touches this one's token. */
  lemma OwnTokenUntouched(register: Register, verdicts: map<Id, Verdict>, tokens: Tokens, done: set<Id>, id: Id)
    requires ValidRegister(register) && id in register && id !in done
    ensures TokenUnder(TokensLeft(register, verdicts, tokens, done), register[id].name) == TokenUnder(tokens, register[id].name)
  {
  }

  lemma TokensLeftStep(register: Register, verdicts: map<Id, Verdict>, tokens: Tokens, done: set<Id>, id: Id)
    requires ValidRegister(register) && id in register && id in verdicts && id !in done
    ensures TokensLeft(register, verdicts, tokens, done + {id}) ==
            (if verdicts[id].token.None? then TokensLeft(register, verdicts, tokens, done) - {register[id].name}
             else TokensLeft(register, verdicts, tokens, done))
  {
    forall name
      ensures ClearedName(register, verdicts, done + {id}, name) <==>
              ClearedName(register, verdicts, done, name) || (name == register[id].name && verdicts[id].token.None?)
    {
      if ClearedName(register, verdicts, done, name) {
        var k :| k in done && k in register && k in verdicts && register[k].name == name && verdicts[k].token.None?;
        assert k in done + {id};
      }
    }
  }

  lemma PartialStep(register: Register, verdicts: map<Id, Verdict>, tokens: Tokens, err: Err, done: set<Id>, id: Id)
    requires ValidRegister(register) && id in register && id in verdicts && id !in done
    ensures PartialState(register, verdicts, tokens, err, done + {id})
            == AfterOne(PartialState(register, verdicts, tokens, err, done), register[id], verdicts[id])
  {
    OwnTokenUntouched(register, verdicts, tokens, done, id);
    TokensLeftStep(register, verdicts, tokens, done, id);
    var s, n := PartialState(register, verdicts, tokens, err, done), PartialState(register, verdicts, tokens, err, done + {id});
    assert n.verify == s.verify[id := verdicts[id].result];
    assert n.state == s.state[id := verdicts[id].state];
    assert register[id].name in s.tokens <==> register[id].name in tokens;
    assert n.diagnostic == s.diagnostic[id := Category(register[id].name in s.tokens, verdicts[id].result, verdicts[id].err)];
  }

  /** After evaluation, for every register and cookie: whatever token is left under a registered name
      is unexpired and under the current or the legacy key, every OK challenge is registered, Brief or
      Full and still has its token, and nothing is in the Pass state. */
  lemma EvaluatedStateIsSound(env: Env, tokens: Tokens, err: Err, id: Id)
    requires ValidRegister(env.register) && id in env.register
    ensures var s := EvaluatedState(env, tokens, err);
            var reg := env.register[id];
            && s.verify.Keys == env.register.Keys && s.state.Keys == env.register.Keys
            && StateOf(s, id) != Pass
            && (reg.name in s.tokens ==>
                  reg.name in tokens && s.tokens[reg.name] == tokens[reg.name]
                  && PassedChecks(env, reg, tokens[reg.name], env.key(id, EmptyState())))
            && (ResultOf(s, id).Ok() ==> reg.name in s.tokens && StateOf(s, id) in {Brief, Full})
            && (ResultOf(s, id).Ok() <==> DiagnosticIn(s, id) == "valid")
  {
    var reg := env.register[id];
    var verdicts := Verdicts(env, tokens);
    EvaluatedIsSound(env, reg, TokenUnder(tokens, reg.name), env.key(id, EmptyState()));
    assert verdicts[id] == VerdictOn(env, tokens, id);
    assert ClearedName(env.register, verdicts, env.register.Keys, reg.name) <==> verdicts[id].token.None?;
    CategoryValidIff(reg.name in tokens, verdicts[id].result, verdicts[id].err);
  }

  /** For every registered challenge, the state holds what its own evaluation came to, and its token
      exactly if that was kept; tokens under other names are left as they came. */
  lemma EvaluatedStateIs(env: Env, tokens: Tokens, err: Err, id: Id, name: string)
    requires ValidRegister(env.register) && id in env.register
    requires forall k :: k in env.register ==> env.register[k].name != name
    ensures var s, reg := EvaluatedState(env, tokens, err), env.register[id];
            var given := TokenUnder(tokens, reg.name);
            var v := Evaluated(env, reg, given, env.key(id, EmptyState()));
            && ResultOf(s, id) == v.result && StateOf(s, id) == v.state
            && DiagnosticIn(s, id) == CategoryOf(env, reg, given, env.key(id, EmptyState()))
            && TokenUnder(s.tokens, reg.name) == (if v.token.Some? then given else None)
            && TokenUnder(s.tokens, name) == TokenUnder(tokens, name)
  {
    var reg, verdicts := env.register[id], Verdicts(env, tokens);
    assert verdicts[id] == VerdictOn(env, tokens, id);
    assert ClearedName(env.register, verdicts, env.register.Keys, reg.name) <==> verdicts[id].token.None?;
    assert !ClearedName(env.register, verdicts, env.register.Keys, name);
  }

  function DiagnosticIn(s: ReqState, id: Id): string {
    if id in s.diagnostic then s.diagnostic[id] else ""
  }

  lemma CategoryValidIff(present: bool, result: VerifyResult, err: Err)
    ensures Category(present, result, err) == "valid" <==> result.Ok()
  {
  }

  // ---- single operations on the state -----------------------------------

  /** IssueChallengeToken: only successes are kept. */
  function WithToken(s: ReqState, reg: Reg, key: bytes, result: bytes, until: int, ok: bool): ReqState {
    if !ok then s
    else
      Log(s.(tokens := s.tokens[reg.name := Token(key, result, ok, Expiry.UnixSeconds(until), 0)], modified := true),
        Stored(reg.id, reg.name, key, result, Expiry.UnixSeconds(until)))
  }

  /** ResponseHeaders: the state goes back into the cookie if a token was added. */
  function Responded(env: Env, s: ReqState): ReqState {
    if s.modified
    then Log(s, SetCookie(s.tokens, Expiry.UnixSeconds(Expiry.Expiration(env.time, DEFAULT_DURATION))))
    else s
  }

  /** RequestHeaders panics on an OK result that is not registered or has no state to print. */
  ghost predicate HeadersPanic(env: Env, s: ReqState) {
    exists id :: id in s.verify && s.verify[id].Ok() && (id !in env.register || StateOf(s, id) == NoState)
  }

  ghost function SentRequestHeaders(env: Env, s: ReqState): ReqState {
    Log(s, if HeadersPanic(env, s) then Panicked else SentHeaders)
  }

  function Visited(order: seq<Id>): set<Id> {
    set id | id in order
  }

  lemma NextInOrder(order: seq<Id>, i: nat)
    requires i < |order|
    requires forall i, j :: 0 <= i < j < |order| ==> order[i] != order[j]
    ensures order[i] !in order[..i]
    ensures Visited(order[..i + 1]) == Visited(order[..i]) + {order[i]}
  {
    assert order[..i + 1] == order[..i] + [order[i]];
  }

  // ---- the object -------------------------------------------------------

  class RequestData {
    var verify: map<Id, VerifyResult>
    var state: map<Id, VerifyState>
    var diagnostic: map<Id, string>
    var tokens: Tokens
    var modified: bool
    var cookieStatus: string
    var trace: seq<Event>

    ghost function Snapshot(): ReqState
      reads this
    {
      ReqState(verify, state, diagnostic, tokens, modified, cookieStatus, trace)
    }

    /** CreateRequestData, as far as these fields go. */
    constructor ()
      ensures Snapshot() == EmptyState()
    {
      verify, state, diagnostic, tokens, modified, cookieStatus, trace := map[], map[], map[], map[], false, "", [];
    }

    method ClearChallengeToken(reg: Reg)
      modifies this`tokens
      ensures tokens == old(tokens) - {reg.name}
    {
      tokens := tokens - {reg.name};
    }

    method IssueChallengeToken(reg: Reg, key: bytes, result: bytes, until: int, ok: bool)
      modifies this
      ensures Snapshot() == WithToken(old(Snapshot()), reg, key, result, until, ok)
    {
      if !ok {
        return;
      }
      tokens := tokens[reg.name := Token(key, result, ok, Expiry.UnixSeconds(until), 0)];
      modified := true;
      trace := trace + [Stored(reg.id, reg.name, key, result, Expiry.UnixSeconds(until))];
    }

    method VerifyChallenge(env: Env, reg: Reg, key: bytes)
      returns (verifyResult: VerifyResult, verifyState: VerifyState, err: Err)
      modifies this`tokens
      ensures var v := Evaluated(env, reg, TokenUnder(old(tokens), reg.name), key);
              && verifyResult == v.result && verifyState == v.state && err == v.err
              && (err == NoErr ==> TokenUnder(tokens, reg.name) == v.token)
      ensures tokens == old(tokens) || tokens == old(tokens) - {reg.name}
    {
      err := NoErr;
      if reg.name !in tokens {
        verifyResult, verifyState := Fail, NoState;
      } else {
        var token := tokens[reg.name];
        var attempt := VerifyToken(env, reg, token, key, false);
        if attempt.2 == ErrKeyMismatch && reg.hasLegacyHeaders {
          attempt := VerifyToken(env, reg, token, env.legacyKey(reg.id), true);
        }
        verifyResult, verifyState, err := attempt.0, attempt.1, attempt.2;
        if err != NoErr && err != ErrNoCookie {
          ClearChallengeToken(reg);
        }
        if !verifyResult.Ok() && reg.hasCondition {
          var out := env.condition(reg.id);
          if out.CondBool? && !out.b {
            return Skip, verifyState, NoErr;
          }
        }
      }
      if !verifyResult.Ok() && env.issuedName == reg.name {
        verifyResult := Skip;
      }
    }

    /** The register is walked in an arbitrary order; the state reached does not depend on it. */
    method EvaluateChallenges(env: Env, cookies: seq<Presented>, now: nat -> int, order: seq<Id>)
      requires ValidRegister(env.register)
      requires forall id :: id in order <==> id in env.register
      requires forall i, j :: 0 <= i < j < |order| ==> order[i] != order[j]
      requires Snapshot() == EmptyState()
      modifies this
      ensures Snapshot() == EvaluatedState(env, CookieTokens(cookies, now), OpenFirst(cookies, now, 0).1)
    {
      var (found, err) := OpenFirst(cookies, now, 0);
      cookieStatus := CookieStatus(err);
      tokens := CookieTokens(cookies, now);
      EvaluateAll(env, order, tokens, err);
    }

    /** The loop over the register. */
    method EvaluateAll(env: Env, order: seq<Id>, ghost given: Tokens, ghost err: Err)
      requires ValidRegister(env.register)
      requires forall id :: id in order <==> id in env.register
      requires forall i, j :: 0 <= i < j < |order| ==> order[i] != order[j]
      requires Snapshot() == EmptyState().(tokens := given, cookieStatus := CookieStatus(err))
      modifies this
      ensures Snapshot() == EvaluatedState(env, given, err)
    {
      ghost var verdicts := Verdicts(env, given);
      ghost var done: set<Id> := {};
      assert Snapshot() == PartialState(env.register, verdicts, given, err, done);
      for i := 0 to |order|
        invariant done == Visited(order[..i])
        invariant Snapshot() == PartialState(env.register, verdicts, given, err, done)
      {
        NextInOrder(order, i);
        assert order[i] in order;
        EvaluateNext(env, order[i], given, verdicts, err, done);
        done := done + {order[i]};
      }
      assert order[..|order|] == order;
      assert done == env.register.Keys;
    }

    method EvaluateNext(env: Env, id: Id, ghost given: Tokens, ghost verdicts: map<Id, Verdict>, ghost err: Err, ghost done: set<Id>)
      requires ValidRegister(env.register) && id in env.register && id !in done
      requires verdicts == Verdicts(env, given)
      requires Snapshot() == PartialState(env.register, verdicts, given, err, done)
      modifies this
      ensures Snapshot() == PartialState(env.register, verdicts, given, err, done + {id})
    {
      OwnTokenUntouched(env.register, verdicts, given, done, id);
      PartialStep(env.register, verdicts, given, err, done, id);
      EvaluateOne(env, env.register[id], env.key(id, EmptyState()), verdicts[id]);
    }

    /** The loop body. */
    method EvaluateOne(env: Env, reg: Reg, key: bytes, ghost v: Verdict)
      requires v == Evaluated(env, reg, TokenUnder(tokens, reg.name), key)
      modifies this`verify, this`state, this`diagnostic, this`tokens
      ensures Snapshot() == AfterOne(old(Snapshot()), reg, v)
    {
      var tokenPresent := reg.name in tokens;
      var verifyResult, verifyState, err := VerifyChallenge(env, reg, key);
      diagnostic := diagnostic[reg.id := Category(tokenPresent, verifyResult, err)];
      if err != NoErr {
        ClearChallengeToken(reg);
      }
      verify := verify[reg.id := verifyResult];
      state := state[reg.id := verifyState];
    }

    method ResponseHeaders(env: Env)
      modifies this`trace
      ensures Snapshot() == Responded(env, old(Snapshot()))
    {
      if modified {
        trace := trace + [SetCookie(tokens, Expiry.UnixSeconds(Expiry.Expiration(env.time, DEFAULT_DURATION)))];
      }
    }

    method RequestHeaders(env: Env)
      modifies this`trace
      ensures Snapshot() == SentRequestHeaders(env, old(Snapshot()))
    {
      var pending := verify.Keys;
      while pending != {}
        invariant pending <= verify.Keys && trace == old(trace)
        invariant forall id :: id in verify.Keys - pending ==>
          !(verify[id].Ok() && (id !in env.register || StateOf(Snapshot(), id) == NoState))
        decreases pending
      {
        var id :| id in pending;
        pending := pending - {id};
        if verify[id].Ok() {
          if id !in env.register || id !in state || state[id] == NoState {
            assert HeadersPanic(env, Snapshot());
            trace := trace + [Panicked];
            return;
          }
        }
      }
      trace := trace + [SentHeaders];
    }
  }
}
