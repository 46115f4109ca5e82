/** What a decision leads to: which actions reach a backend, which go on, and what they let through. */
module Gating {
  import opened Bytes
  import opened Verify
  import opened Challenge
  import opened Action
  import opened Safety
  import Expiry

  ghost predicate Serves(s: ReqState) {
    exists i :: 0 <= i < |s.trace| && s.trace[i].ServeBackend?
  }

  /** The backend is reached while handling, not before. */
  ghost predicate ReachesBackend(env: Env, s: ReqState, h: Handler, ctx: Context)
    requires Registered(env.register, h)
  {
    Serves(Handled(env, s, h, ctx).s)
  }

  // ---- actions other than challenges ------------------------------------

  /** Results, states and tokens are as they were. */
  ghost predicate SameRecords(s: ReqState, n: ReqState) {
    n.verify == s.verify && n.state == s.state && n.tokens == s.tokens
  }

  predicate EndsWith(s: ReqState, e: Event) {
    s.trace != [] && s.trace[|s.trace| - 1] == e
  }

  lemma Paging(env: Env, s: ReqState)
    requires AnswerFree(s)
    ensures var n := Paged(env, s);
            EndsWith(n, Page) && !Serves(n) && SameRecords(s, n)
  {
    PagedAnswers(env, s);
  }

  lemma Serving(env: Env, s: ReqState, ctx: Context)
    requires AnswerFree(s)
    ensures var n := Served(env, Done(env, s, ctx));
            && EndsWith(n, ServeBackend) && Serves(n) && SameRecords(s, n)
            && Cleanup(ctx.top) in n.trace && (ctx.rule.Some? ==> RuleHeaders(ctx.rule.value) in n.trace)
  {
    DoneServes(env, s, ctx);
    var n := Served(env, Done(env, s, ctx));
    assert n.trace[|n.trace| - 1].ServeBackend?;
  }

  lemma ServingSendsHeaders(env: Env, s: ReqState, ctx: Context)
    requires env.backendTakesHeaders && !HeadersPanic(env, s)
    ensures SentHeaders in Served(env, Done(env, s, ctx)).trace
  {
    SamePanic(env, s, Done(env, s, ctx));
    HeadersSent(env, Done(env, s, ctx));
  }

  lemma HeadersSent(env: Env, d: ReqState)
    requires env.backendTakesHeaders && !HeadersPanic(env, d)
    ensures SentHeaders in Served(env, d).trace
  {
    assert SentRequestHeaders(env, d).trace[|d.trace|] == SentHeaders;
    assert Served(env, d).trace[|d.trace|] == SentHeaders;
  }

  lemma SamePanic(env: Env, s: ReqState, n: ReqState)
    requires n.verify == s.verify && n.state == s.state
    ensures HeadersPanic(env, n) == HeadersPanic(env, s)
  {
  }

  /** Pass and proxy to a known backend reach it, naming the rule and running its cleanup; deny, block and
      code answer with a page, drop with nothing; none and context go on; only proxy can fail. None of
      them changes a result, a state or a token. */
  lemma PlainActions(env: Env, s: ReqState, h: Handler, ctx: Context)
    requires AnswerFree(s) && !h.ChallengeAction?
    ensures var o := Handled(env, s, h, ctx);
            && (ReachesBackend(env, s, h, ctx) <==> h == PassAction || h == ProxyAction(true))
            && (h == PassAction || h == ProxyAction(true) ==>
                  EndsWith(o.s, ServeBackend) && Cleanup(ctx.top) in o.s.trace
                  && (env.backendTakesHeaders && !HeadersPanic(env, s) ==> SentHeaders in o.s.trace)
                  && (ctx.rule.Some? ==> RuleHeaders(ctx.rule.value) in o.s.trace))
            && (o.next <==> h == NoneAction || h == ContextAction)
            && (o.failed <==> h == ProxyAction(false))
            && (h == DenyAction || h == BlockAction || h == CodeAction ==> EndsWith(o.s, Page))
            && (h == DropAction ==> EndsWith(o.s, Dropped))
            && SameRecords(s, o.s)
  {
    match h {
      case NoneAction =>
      case PassAction =>
        Serving(env, s, ctx);
        if env.backendTakesHeaders && !HeadersPanic(env, s) {
          ServingSendsHeaders(env, s, ctx);
        }
      case ProxyAction(known) =>
        Serving(env, s, ctx);
        if env.backendTakesHeaders && !HeadersPanic(env, s) {
          ServingSendsHeaders(env, s, ctx);
        }
      case DenyAction => Paging(env, s);
      case BlockAction => Paging(env, s);
      case CodeAction => Paging(env, s);
      case DropAction => LogAnswersNothing(s, Dropped);
      case ContextAction => LogAnswersNothing(s, ContextApplied);
    }
  }

  // ---- the issuing loop -------------------------------------------------

  ghost predicate SameAt(s: ReqState, n: ReqState, id: Id) {
    ResultOf(n, id) == ResultOf(s, id) && StateOf(n, id) == StateOf(s, id)
  }

  /** A challenge that is OK, skipped or just issued stays as it is, and so does every one not listed. */
  lemma {:induction false} LoopFrame(env: Env, s: ReqState, ids: seq<Id>, id: Id)
    requires forall k :: k in ids ==> k in env.register
    requires ResultOf(s, id) == OK || ResultOf(s, id) == Skip || StateOf(s, id) == Pass || id !in ids
    ensures SameAt(s, IssueLoop(env, s, ids).0, id)
    decreases |ids|
  {
    if ids != [] {
      assert ids[0] in ids;
      if Skipped(s, ids[0]) {
        LoopFrame(env, s, ids[1..], id);
      } else {
        IssuedFrame(env, s, ids[0]);
        LoopFrame(env, Issued(env, s, ids[0]), ids[1..], id);
      }
    }
  }

  /** Issued between the two states. */
  ghost predicate IssuedBetween(s: ReqState, n: ReqState, id: Id) {
    StateOf(s, id) != Pass && StateOf(n, id) == Pass
  }

  ghost predicate BlockingEnded(env: Env, s: ReqState, n: ReqState, ids: seq<Id>, result: VerifyResult)
    requires forall id :: id in ids ==> id in env.register
  {
    exists id :: id in ids && IssuedBetween(s, n, id) && !env.register[id].transparent && ResultOf(n, id) == result
  }

  lemma OneTurn(env: Env, s: ReqState, ids: seq<Id>, result: VerifyResult)
    requires ids != [] && !Skipped(s, ids[0])
    requires forall id :: id in ids ==> id in env.register
    ensures var m := Issued(env, s, ids[0]);
            var n := IssueLoop(env, m, ids[1..]).0;
            BlockingEnded(env, s, n, ids, result) <==>
            BlockingEnded(env, m, n, ids[1..], result)
            || (!env.register[ids[0]].transparent && ResultOf(m, ids[0]) == result)
  {
    var m := Issued(env, s, ids[0]);
    IssuedFrame(env, s, ids[0]);
    LoopFrame(env, m, ids[1..], ids[0]);
    var n := IssueLoop(env, m, ids[1..]).0;
    assert IssuedBetween(s, n, ids[0]) && ResultOf(n, ids[0]) == ResultOf(m, ids[0]);
    assert forall id :: id != ids[0] ==> (IssuedBetween(s, n, id) <==> IssuedBetween(m, n, id));
    assert !IssuedBetween(m, n, ids[0]);
    assert forall id :: id in ids <==> id == ids[0] || id in ids[1..];
  }

  /** The request stops here exactly when a blocking challenge was issued and left undecided; one that
      failed on issuance takes the fail side. */
  lemma {:induction false} LoopStopsIff(env: Env, s: ReqState, ids: seq<Id>)
    requires forall id :: id in ids ==> id in env.register && env.register[id].id == id
    ensures var (n, d) := IssueLoop(env, s, ids);
            && (d == Stop <==> BlockingEnded(env, s, n, ids, None_))
            && (BlockingEnded(env, s, n, ids, Fail) ==> d == FailSide)
    decreases |ids|
  {
    if ids != [] {
      assert ids[0] in ids;
      assert forall id :: id in ids <==> id == ids[0] || id in ids[1..];
      if Skipped(s, ids[0]) {
        LoopStopsIff(env, s, ids[1..]);
        LoopFrame(env, s, ids[1..], ids[0]);
      } else {
        var m := Issued(env, s, ids[0]);
        IssuedFrame(env, s, ids[0]);
        var decision := AfterIssue(env.register[ids[0]], ResultOf(m, ids[0]));
        if decision.None? {
          LoopStopsIff(env, m, ids[1..]);
          OneTurn(env, s, ids, None_);
          OneTurn(env, s, ids, Fail);
        } else {
          assert forall id :: id != ids[0] ==> !IssuedBetween(s, m, id);
          assert IssuedBetween(s, m, ids[0]);
        }
      }
    }
  }

  /** The first i challenges have been dealt with and the others are untouched. */
  ghost predicate DealtWith(s: ReqState, n: ReqState, ids: seq<Id>, i: nat)
    requires i <= |ids|
  {
    && (forall k :: 0 <= k < i ==> ResultOf(n, ids[k]) == OK || ResultOf(n, ids[k]) == Skip || StateOf(n, ids[k]) == Pass)
    && (forall id :: id !in ids[..i] ==> SameAt(s, n, id))
  }

  /** Challenges are tried in list order and none is left out: those up to some point have been dealt with,
      the ones after it are untouched, and without a decision that point is the end of the list. */
  lemma {:induction false} LoopInOrder(env: Env, s: ReqState, ids: seq<Id>) returns (i: nat)
    requires forall id :: id in ids ==> id in env.register && env.register[id].id == id
    ensures i <= |ids|
    ensures var (n, d) := IssueLoop(env, s, ids);
            DealtWith(s, n, ids, i) && (i < |ids| ==> d.PassSide? || d == Stop || BlockingEnded(env, s, n, ids, Fail))
    decreases |ids|
  {
    if ids == [] {
      return 0;
    }
    assert ids[0] in ids;
    assert forall id :: id in ids <==> id == ids[0] || id in ids[1..];
    var n := IssueLoop(env, s, ids).0;
    if Skipped(s, ids[0]) {
      var k := LoopInOrder(env, s, ids[1..]);
      LoopFrame(env, s, ids[1..], ids[0]);
      OneMoreDealtWith(s, s, n, ids, k);
      i := k + 1;
      return;
    }
    var m := Issued(env, s, ids[0]);
    IssuedFrame(env, s, ids[0]);
    if AfterIssue(env.register[ids[0]], ResultOf(m, ids[0])).Some? {
      assert ids[..1] == [ids[0]];
      assert IssuedBetween(s, m, ids[0]);
      return 1;
    }
    var k := LoopInOrder(env, m, ids[1..]);
    LoopFrame(env, m, ids[1..], ids[0]);
    OneTurn(env, s, ids, Fail);
    OneMoreDealtWith(s, m, n, ids, k);
    i := k + 1;
  }

  lemma OneMoreDealtWith(s: ReqState, m: ReqState, n: ReqState, ids: seq<Id>, k: nat)
    requires ids != [] && k <= |ids| - 1 && DealtWith(m, n, ids[1..], k)
    requires Skipped(m, ids[0]) && SameAt(m, n, ids[0])
    requires forall id :: id != ids[0] ==> SameAt(s, m, id)
    ensures DealtWith(s, n, ids, k + 1)
  {
    InOrderStep(ids, k);
    forall id | id !in ids[..k + 1] ensures SameAt(s, n, id) {
      assert SameAt(m, n, id) && SameAt(s, m, id);
    }
  }

  lemma InOrderStep(ids: seq<Id>, k: nat)
    requires ids != [] && k <= |ids| - 1
    ensures forall id :: id in ids[..k + 1] <==> id == ids[0] || id in ids[1..][..k]
    ensures forall j :: 0 < j < k + 1 ==> ids[j] == ids[1..][j - 1]
  {
    assert ids[..k + 1] == [ids[0]] + ids[1..][..k];
  }

  /** An inline challenge that passes hands out its token at once: stored under the challenge's name, key and
      expiry, and sent. One that fails leaves the tokens alone. */
  lemma InlineIssue(env: Env, s: ReqState, id: Id, result: bytes, ok: bool)
    requires id in env.register
    requires env.issue(id, Log(s, Issuing(id, env.key(id, s)))).effects == [IssueToken(result, ok), WriteResponseHeaders]
    ensures var n, reg := Issued(env, s, id), env.register[id];
            var until := Expiry.UnixSeconds(Expiry.Expiration(env.time, reg.duration));
            && n.tokens == (if ok then s.tokens[reg.name := Token(env.key(id, s), result, true, until, 0)] else s.tokens)
            && n.trace != []
            && (ok ==> n.trace[|n.trace| - 1].SetCookie? && n.trace[|n.trace| - 1].tokens == n.tokens)
  {
    var reg, key := env.register[id], env.key(id, s);
    var called := Log(s, Issuing(id, key));
    var es := env.issue(id, called).effects;
    var until := Expiry.Expiration(env.time, reg.duration);
    assert es[1..] == [WriteResponseHeaders] && es[1..][1..] == [];
    var stored := WithToken(called, reg, key, result, until, ok);
    assert AfterEffects(env, called, reg, key, until, es) == AfterEffects(env, stored, reg, key, until, es[1..]);
    assert AfterEffects(env, stored, reg, key, until, es[1..]) == AfterEffects(env, Responded(env, stored), reg, key, until, []);
  }

  // ---- OK stays, and where it comes from --------------------------------

  lemma DecideKeepsOk(env: Env, s: ReqState, ids: seq<Id>, id: Id)
    requires forall k :: k in ids ==> k in env.register
    requires ResultOf(s, id).Ok()
    ensures ResultOf(Decide(env, s, ids).0, id).Ok()
  {
    LoopFrame(env, s, ids, id);
  }

  /** A challenge that is OK stays OK through every action. */
  lemma {:induction false} OkStays(env: Env, s: ReqState, h: Handler, ctx: Context, id: Id)
    requires Registered(env.register, h) && ResultOf(s, id).Ok()
    ensures ResultOf(Handled(env, s, h, ctx).s, id).Ok()
    decreases h
  {
    if h.ChallengeAction? {
      DecideKeepsOk(env, s, h.challenges, id);
      var (n, decision) := Decide(env, s, h.challenges);
      if decision.PassSide? && !h.cont {
        OkStays(env, n, h.pass, ctx, id);
      } else if decision.FailSide? {
        OkStays(env, n, h.fail, ctx, id);
      }
    }
  }

  /** Its issuing function answered OK. */
  ghost predicate IssuedOk(env: Env, id: Id) {
    exists s :: env.issue(id, s).result == OK
  }

  lemma {:induction false} LoopOkFrom(env: Env, s: ReqState, ids: seq<Id>, id: Id)
    requires forall k :: k in ids ==> k in env.register
    requires ResultOf(IssueLoop(env, s, ids).0, id).Ok()
    ensures ResultOf(s, id).Ok() || (id in ids && IssuedOk(env, id))
    decreases |ids|
  {
    if ids != [] {
      assert ids[0] in ids;
      if Skipped(s, ids[0]) {
        LoopOkFrom(env, s, ids[1..], id);
      } else {
        var m := Issued(env, s, ids[0]);
        IssuedFrame(env, s, ids[0]);
        if AfterIssue(env.register[ids[0]], ResultOf(m, ids[0])).None? {
          LoopOkFrom(env, m, ids[1..], id);
        }
      }
    }
  }

  /** A challenge becomes OK only by an issuing function that says so. */
  lemma {:induction false} OkComesFrom(env: Env, s: ReqState, h: Handler, ctx: Context, id: Id)
    requires Registered(env.register, h) && ResultOf(Handled(env, s, h, ctx).s, id).Ok()
    ensures ResultOf(s, id).Ok() || IssuedOk(env, id)
    decreases h
  {
    if h.ChallengeAction? {
      var (n, decision) := Decide(env, s, h.challenges);
      if decision.PassSide? && !h.cont {
        OkComesFrom(env, n, h.pass, ctx, id);
      } else if decision.FailSide? {
        OkComesFrom(env, n, h.fail, ctx, id);
      }
      if ResultOf(n, id).Ok() && FirstValid(s, h.challenges).None? {
        LoopOkFrom(env, s, h.challenges, id);
      }
    }
  }

  // ---- gating -----------------------------------------------------------

  /** No path through the action leads to a backend. */
  predicate CannotServe(h: Handler) {
    match h
    case PassAction => false
    case ProxyAction(_) => false
    case ChallengeAction(cont, _, pass, fail) => (cont || CannotServe(pass)) && CannotServe(fail)
    case _ => true
  }

  lemma {:induction false} CannotServeNever(env: Env, s: ReqState, h: Handler, ctx: Context)
    requires Registered(env.register, h) && CannotServe(h) && AnswerFree(s)
    ensures ServeFree(Handled(env, s, h, ctx).s)
    decreases h
  {
    if h.ChallengeAction? {
      LoopAnswersNothing(env, s, h.challenges);
      var (n, decision) := Decide(env, s, h.challenges);
      if decision.PassSide? && !h.cont {
        CannotServeNever(env, n, h.pass, ctx);
      } else if decision.FailSide? {
        CannotServeNever(env, n, h.fail, ctx);
      }
    } else {
      PlainActions(env, s, h, ctx);
    }
  }

  ghost predicate ListsRegistered(env: Env, ids: seq<Id>) {
    forall id :: id in ids ==> id in env.register && env.register[id].id == id
  }

  /** CHALLENGE: with a fail side that cannot reach a backend, one is reached only if a listed challenge is
      then OK; if the pass side is PASS, exactly if the loops left one OK; and if the fail side is also
      DENY, exactly if one is OK in the end. */
  lemma BackendGated(env: Env, s: ReqState, h: Handler, ctx: Context)
    requires h.ChallengeAction? && !h.cont && CannotServe(h.fail) && Registered(env.register, h)
    requires AnswerFree(s) && ListsRegistered(env, h.challenges)
    ensures var o := Handled(env, s, h, ctx);
            && (Serves(o.s) ==> SomeOk(o.s, h.challenges))
            && (h.pass == PassAction ==> (Serves(o.s) <==> SomeOk(Decide(env, s, h.challenges).0, h.challenges)))
            && (h.pass == PassAction && h.fail == DenyAction ==> (Serves(o.s) <==> SomeOk(o.s, h.challenges)))
  {
    var (n, decision) := Decide(env, s, h.challenges);
    PassSideIff(env, s, h.challenges);
    LoopAnswersNothing(env, s, h.challenges);
    assert AnswerFree(n);
    if decision.PassSide? {
      var i :| 0 <= i < |h.challenges| && ResultOf(n, h.challenges[i]).Ok();
      OkStays(env, n, h.pass, ctx, h.challenges[i]);
      if h.pass == PassAction {
        PlainActions(env, n, PassAction, ctx);
      }
    } else if decision.FailSide? {
      CannotServeNever(env, n, h.fail, ctx);
      if h.fail == DenyAction {
        PlainActions(env, n, DenyAction, ctx);
      }
    }
  }

  /** The action always ends the request. */
  predicate NeverGoesOn(h: Handler) {
    match h
    case NoneAction => false
    case ContextAction => false
    case ChallengeAction(cont, _, pass, fail) => !cont && NeverGoesOn(pass) && NeverGoesOn(fail)
    case _ => true
  }

  lemma {:induction false} NeverGoesOnEnds(env: Env, s: ReqState, h: Handler, ctx: Context)
    requires Registered(env.register, h) && NeverGoesOn(h)
    ensures !Handled(env, s, h, ctx).next
    decreases h
  {
    if h.ChallengeAction? {
      var (n, decision) := Decide(env, s, h.challenges);
      NeverGoesOnEnds(env, n, h.pass, ctx);
      NeverGoesOnEnds(env, n, h.fail, ctx);
    }
  }

  /** CHECK: with a fail side that ends the request, it goes on exactly if the loops left a listed challenge
      OK, and then changes nothing more. */
  lemma CheckGoesOnIff(env: Env, s: ReqState, h: Handler, ctx: Context)
    requires h.ChallengeAction? && h.cont && NeverGoesOn(h.fail) && Registered(env.register, h)
    requires ListsRegistered(env, h.challenges)
    ensures var o := Handled(env, s, h, ctx);
            && (o.next <==> SomeOk(Decide(env, s, h.challenges).0, h.challenges))
            && (o.next ==> o.s == Decide(env, s, h.challenges).0 && SomeOk(o.s, h.challenges))
            && (h.fail == DenyAction ==> (o.next <==> SomeOk(o.s, h.challenges)))
  {
    PassSideIff(env, s, h.challenges);
    var (n, decision) := Decide(env, s, h.challenges);
    if decision.FailSide? {
      NeverGoesOnEnds(env, n, h.fail, ctx);
    }
  }

  /** On every path to a backend a challenge of the set has let the request pass. */
  predicate Guarded(h: Handler, ids: set<Id>) {
    match h
    case PassAction => false
    case ProxyAction(_) => false
    case ChallengeAction(cont, listed, pass, fail) =>
      (cont || (forall id :: id in listed ==> id in ids) || Guarded(pass, ids)) && Guarded(fail, ids)
    case _ => true
  }

  /** In every nesting of challenges: a guarded action reaches a backend only with a challenge of the set OK. */
  lemma {:induction false} GuardedNeedsOk(env: Env, s: ReqState, h: Handler, ctx: Context, ids: set<Id>)
    requires Registered(env.register, h) && Guarded(h, ids) && AnswerFree(s)
    requires ValidRegister(env.register)
    requires ReachesBackend(env, s, h, ctx)
    ensures exists id :: id in ids && ResultOf(Handled(env, s, h, ctx).s, id).Ok()
    decreases h
  {
    if h.ChallengeAction? {
      var (n, decision) := Decide(env, s, h.challenges);
      PassSideIff(env, s, h.challenges);
      LoopAnswersNothing(env, s, h.challenges);
      assert AnswerFree(n);
      if decision.PassSide? && !h.cont {
        if forall id :: id in h.challenges ==> id in ids {
          var i :| 0 <= i < |h.challenges| && ResultOf(n, h.challenges[i]).Ok();
          OkStays(env, n, h.pass, ctx, h.challenges[i]);
          assert h.challenges[i] in ids;
        } else {
          GuardedNeedsOk(env, n, h.pass, ctx, ids);
        }
      } else if decision.FailSide? {
        GuardedNeedsOk(env, n, h.fail, ctx, ids);
      }
    } else {
      PlainActions(env, s, h, ctx);
    }
  }
}
