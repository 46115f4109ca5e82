/** Rule actions: lib/action, with the challenge action in full. */
module Action {
  import opened Bytes
  import opened Verify
  import opened Challenge
  import Expiry

  /** An action as a rule holds it. The lists of a challenge action are registered ids; `cont` tells
      CHECK from CHALLENGE, and the pass and fail actions nest. */
  datatype Handler =
    | NoneAction
    | PassAction
    | ProxyAction(backendKnown: bool)
    | DenyAction
    | BlockAction
    | CodeAction
    | DropAction
    | ContextAction
    | ChallengeAction(cont: bool, challenges: seq<Id>, pass: Handler, fail: Handler)

  ghost predicate Registered(register: Register, h: Handler) {
    h.ChallengeAction? ==>
      (forall id :: id in h.challenges ==> id in register) && Registered(register, h.pass) && Registered(register, h.fail)
  }

  /** The rule an action runs for, and the top-level rule whose cleanup its callback runs. */
  datatype Context = Context(rule: Option<string>, top: string)

  datatype Outcome = Outcome(s: ReqState, next: bool, failed: bool)

  // ---- effects ----------------------------------------------------------

  /** The done callback: name the rule, clean the request up, answer with the headers. */
  function Done(env: Env, s: ReqState, ctx: Context): ReqState {
    Responded(env, Log(if ctx.rule.Some? then Log(s, RuleHeaders(ctx.rule.value)) else s, Cleanup(ctx.top)))
  }

  ghost function Served(env: Env, s: ReqState): ReqState {
    Log(if env.backendTakesHeaders then SentRequestHeaders(env, s) else s, ServeBackend)
  }

  function Paged(env: Env, s: ReqState): ReqState {
    Log(Responded(env, s), Page)
  }

  ghost function AfterEffect(env: Env, s: ReqState, reg: Reg, key: bytes, until: int, e: IssueEffect): ReqState {
    match e
    case SendRequestHeaders => SentRequestHeaders(env, s)
    case WriteResponseHeaders => Responded(env, s)
    case IssueToken(result, ok) => WithToken(s, reg, key, result, until, ok)
  }

  ghost function AfterEffects(env: Env, s: ReqState, reg: Reg, key: bytes, until: int, es: seq<IssueEffect>): ReqState
    decreases |es|
  {
    if es == [] then s else AfterEffects(env, AfterEffect(env, s, reg, key, until, es[0]), reg, key, until, es[1..])
  }

  /** Issuing one challenge, up to recording its result and the Pass state. */
  ghost function Issued(env: Env, s: ReqState, id: Id): ReqState
    requires id in env.register
  {
    var reg := env.register[id];
    var key := env.key(id, s);
    var called := Log(s, Issuing(id, key));
    var plan := env.issue(id, called);
    var after := AfterEffects(env, called, reg, key, Expiry.Expiration(env.time, reg.duration), plan.effects);
    after.(verify := after.verify[id := plan.result], state := after.state[id := Pass])
  }

  // ---- the challenge action ---------------------------------------------

  datatype Decision = PassSide(id: Id) | FailSide | Stop

  /** The first listed challenge that is already OK. */
  function FirstValid(s: ReqState, ids: seq<Id>): Option<Id> {
    if ids == [] then None
    else if ResultOf(s, ids[0]).Ok() then Some(ids[0])
    else FirstValid(s, ids[1..])
  }

  predicate Skipped(s: ReqState, id: Id) {
    ResultOf(s, id).Ok() || ResultOf(s, id) == Skip || StateOf(s, id) == Pass
  }

  /** What the loop does after issuing: go on, or decide. */
  function AfterIssue(reg: Reg, result: VerifyResult): Option<Decision> {
    match result
    case OK => Some(PassSide(reg.id))
    case NotOK => None
    case Fail => if reg.transparent then None else Some(FailSide)
    case None_ => if reg.transparent then None else Some(Stop)
    case Skip => None
  }

  /** The issuing loop. */
  ghost function IssueLoop(env: Env, s: ReqState, ids: seq<Id>): (ReqState, Decision)
    requires forall id :: id in ids ==> id in env.register
    decreases |ids|
  {
    if ids == [] then (s, FailSide)
    else if Skipped(s, ids[0]) then IssueLoop(env, s, ids[1..])
    else
      var n := Issued(env, s, ids[0]);
      var decision := AfterIssue(env.register[ids[0]], ResultOf(n, ids[0]));
      if decision.Some? then (n, decision.value) else IssueLoop(env, n, ids[1..])
  }

  /** Which side a challenge action takes, and the state it takes it in. */
  ghost function Decide(env: Env, s: ReqState, ids: seq<Id>): (ReqState, Decision)
    requires forall id :: id in ids ==> id in env.register
  {
    if FirstValid(s, ids).Some? then (s, PassSide(FirstValid(s, ids).value)) else IssueLoop(env, s, ids)
  }

  ghost function Handled(env: Env, s: ReqState, h: Handler, ctx: Context): Outcome
    requires Registered(env.register, h)
    decreases h
  {
    match h
    case NoneAction => Outcome(s, true, false)
    case PassAction => Outcome(Served(env, Done(env, s, ctx)), false, false)
    case ProxyAction(known) =>
      if !known then Outcome(s, false, true) else Outcome(Served(env, Done(env, s, ctx)), false, false)
    case DenyAction => Outcome(Paged(env, s), false, false)
    case BlockAction => Outcome(Paged(env, s), false, false)
    case CodeAction => Outcome(Paged(env, s), false, false)
    case DropAction => Outcome(Log(s, Dropped), false, false)
    case ContextAction => Outcome(Log(s, ContextApplied), true, false)
    case ChallengeAction(cont, ids, pass, fail) =>
      var (n, decision) := Decide(env, s, ids);
      match decision
      case PassSide(_) => if cont then Outcome(n, true, false) else Handled(env, n, pass, ctx)
      case FailSide => Handled(env, n, fail, ctx)
      case Stop => Outcome(n, false, false)
  }

  // ---- the code ---------------------------------------------------------

  method RunDone(data: RequestData, env: Env, ctx: Context)
    modifies data
    ensures data.Snapshot() == Done(env, old(data.Snapshot()), ctx)
  {
    if ctx.rule.Some? {
      data.trace := data.trace + [RuleHeaders(ctx.rule.value)];
    }
    data.trace := data.trace + [Cleanup(ctx.top)];
    data.ResponseHeaders(env);
  }

  method Serve(data: RequestData, env: Env)
    modifies data
    ensures data.Snapshot() == Served(env, old(data.Snapshot()))
  {
    if env.backendTakesHeaders {
      data.RequestHeaders(env);
    }
    data.trace := data.trace + [ServeBackend];
  }

  method ServePage(data: RequestData, env: Env)
    modifies data
    ensures data.Snapshot() == Paged(env, old(data.Snapshot()))
  {
    data.ResponseHeaders(env);
    data.trace := data.trace + [Page];
  }

  /** Run the effects of one issuing function. */
  method RunEffects(data: RequestData, env: Env, reg: Reg, key: bytes, until: int, es: seq<IssueEffect>)
    modifies data
    ensures data.Snapshot() == AfterEffects(env, old(data.Snapshot()), reg, key, until, es)
  {
    assert es[0..] == es;
    for i := 0 to |es|
      invariant AfterEffects(env, data.Snapshot(), reg, key, until, es[i..])
             == AfterEffects(env, old(data.Snapshot()), reg, key, until, es)
    {
      assert es[i..][0] == es[i] && es[i..][1..] == es[i + 1..];
      match es[i]
      case SendRequestHeaders => data.RequestHeaders(env);
      case WriteResponseHeaders => data.ResponseHeaders(env);
      case IssueToken(result, ok) => data.IssueChallengeToken(reg, key, result, until, ok);
    }
  }

  method Issue(data: RequestData, env: Env, id: Id) returns (result: VerifyResult)
    requires id in env.register
    modifies data
    ensures data.Snapshot() == Issued(env, old(data.Snapshot()), id)
    ensures result == ResultOf(data.Snapshot(), id)
  {
    var reg := env.register[id];
    var expiry := Expiry.Expiration(env.time, reg.duration);
    var snapshot := ReqState(data.verify, data.state, data.diagnostic, data.tokens, data.modified, data.cookieStatus, data.trace);
    var key := env.key(id, snapshot);
    data.trace := data.trace + [Issuing(id, key)];
    var plan := env.issue(id, Log(snapshot, Issuing(id, key)));
    RunEffects(data, env, reg, key, expiry, plan.effects);
    result := plan.result;
    data.verify := data.verify[id := result];
    data.state := data.state[id := Pass];
  }

  /** The two loops of Challenge.Handle. */
  method RunChallenges(data: RequestData, env: Env, ids: seq<Id>) returns (decision: Decision)
    requires forall id :: id in ids ==> id in env.register
    requires forall id :: id in env.register ==> env.register[id].id == id
    modifies data
    ensures (data.Snapshot(), decision) == Decide(env, old(data.Snapshot()), ids)
  {
    assert ids[0..] == ids;
    for i := 0 to |ids|
      invariant data.Snapshot() == old(data.Snapshot())
      invariant FirstValid(data.Snapshot(), ids) == FirstValid(data.Snapshot(), ids[i..])
    {
      assert ids[i..][0] == ids[i] && ids[i..][1..] == ids[i + 1..];
      if ids[i] in data.verify && data.verify[ids[i]].Ok() {
        return PassSide(ids[i]);
      }
    }
    for i := 0 to |ids|
      invariant IssueLoop(env, data.Snapshot(), ids[i..]) == IssueLoop(env, old(data.Snapshot()), ids)
    {
      assert ids[i..][0] == ids[i] && ids[i..][1..] == ids[i + 1..];
      var id := ids[i];
      assert id in ids;
      var result := if id in data.verify then data.verify[id] else None_;
      var state := if id in data.state then data.state[id] else NoState;
      if result.Ok() || result == Skip || state == Pass {
        continue;
      }
      result := Issue(data, env, id);
      match result
      case OK => return PassSide(id);
      case NotOK => continue;
      case Fail =>
        if env.register[id].transparent {
          continue;
        }
        return FailSide;
      case None_ =>
        if env.register[id].transparent {
          continue;
        }
        return Stop;
      case Skip => continue;
    }
    return FailSide;
  }

  method Handle(data: RequestData, env: Env, h: Handler, ctx: Context) returns (next: bool, failed: bool)
    requires Registered(env.register, h)
    requires forall id :: id in env.register ==> env.register[id].id == id
    modifies data
    ensures Outcome(data.Snapshot(), next, failed) == Handled(env, old(data.Snapshot()), h, ctx)
    decreases h
  {
    match h
    case NoneAction => return true, false;
    case PassAction =>
      RunDone(data, env, ctx);
      Serve(data, env);
      return false, false;
    case ProxyAction(known) =>
      if !known {
        return false, true;
      }
      RunDone(data, env, ctx);
      Serve(data, env);
      return false, false;
    case DenyAction =>
      ServePage(data, env);
      return false, false;
    case BlockAction =>
      ServePage(data, env);
      return false, false;
    case CodeAction =>
      ServePage(data, env);
      return false, false;
    case DropAction =>
      data.trace := data.trace + [Dropped];
      return false, false;
    case ContextAction =>
      data.trace := data.trace + [ContextApplied];
      return true, false;
    case ChallengeAction(cont, ids, pass, fail) =>
      var decision := RunChallenges(data, env, ids);
      match decision {
        case PassSide(_) =>
          if cont {
            return true, false;
          }
          next, failed := Handle(data, env, pass, ctx);
        case FailSide =>
          next, failed := Handle(data, env, fail, ctx);
        case Stop =>
          return false, false;
      }
  }
}
