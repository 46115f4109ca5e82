/** What the challenge action keeps, for every nesting of actions and every environment. */
module Safety {
  import opened Bytes
  import opened Verify
  import opened Challenge
  import opened Action
  import Expiry

  // ---- gating -----------------------------------------------------------

  ghost predicate SomeOk(s: ReqState, ids: seq<Id>) {
    exists i :: 0 <= i < |ids| && ResultOf(s, ids[i]).Ok()
  }

  lemma {:induction false} FirstValidIff(s: ReqState, ids: seq<Id>)
    ensures FirstValid(s, ids).Some? <==> SomeOk(s, ids)
    ensures FirstValid(s, ids).Some? ==> FirstValid(s, ids).value in ids && ResultOf(s, FirstValid(s, ids).value).Ok()
  {
    if ids != [] {
      FirstValidIff(s, ids[1..]);
      if SomeOk(s, ids[1..]) {
        var i :| 0 <= i < |ids[1..]| && ResultOf(s, ids[1..][i]).Ok();
        assert ResultOf(s, ids[i + 1]).Ok();
      }
      if SomeOk(s, ids) && !ResultOf(s, ids[0]).Ok() {
        var i :| 0 <= i < |ids| && ResultOf(s, ids[i]).Ok();
        assert ResultOf(s, ids[1..][i - 1]).Ok();
      }
    }
  }

  lemma PrefixOfPrefix(a: seq<Event>, b: seq<Event>, c: seq<Event>)
    requires |a| <= |b| <= |c| && b[..|a|] == a && c[..|b|] == b
    ensures c[..|a|] == a
  {
    assert c[..|a|] == c[..|b|][..|a|];
  }

  /** Effects of an issuing function never touch the two per-challenge maps. */
  lemma {:induction false} EffectsFrame(env: Env, s: ReqState, reg: Reg, key: bytes, until: int, es: seq<IssueEffect>)
    ensures var n := AfterEffects(env, s, reg, key, until, es);
            n.verify == s.verify && n.state == s.state && |s.trace| <= |n.trace| && n.trace[..|s.trace|] == s.trace
    decreases |es|
  {
    if es != [] {
      var m := AfterEffect(env, s, reg, key, until, es[0]);
      EffectsFrame(env, m, reg, key, until, es[1..]);
      var n := AfterEffects(env, m, reg, key, until, es[1..]);
      PrefixOfPrefix(s.trace, m.trace, n.trace);
    } else {
      assert s.trace[..|s.trace|] == s.trace;
    }
  }

  lemma IssuedFrame(env: Env, s: ReqState, id: Id)
    requires id in env.register
    ensures var n := Issued(env, s, id);
            && (forall k :: k != id ==> ResultOf(n, k) == ResultOf(s, k) && StateOf(n, k) == StateOf(s, k))
            && StateOf(n, id) == Pass
            && ResultOf(n, id) == env.issue(id, Log(s, Issuing(id, env.key(id, s)))).result
  {
    var reg, key := env.register[id], env.key(id, s);
    var called := Log(s, Issuing(id, key));
    EffectsFrame(env, called, reg, key, Expiry.Expiration(env.time, reg.duration), env.issue(id, called).effects);
  }

  /** While none of `all` is OK, the loop over a part of it takes the pass side exactly when one of
      `all` has become OK. */
  lemma {:induction false} LoopGates(env: Env, s: ReqState, ids: seq<Id>, all: seq<Id>)
    requires forall id :: id in all ==> id in env.register && env.register[id].id == id
    requires forall id :: id in ids ==> id in all
    requires forall id :: id in all ==> !ResultOf(s, id).Ok()
    ensures var (n, d) := IssueLoop(env, s, ids);
            && (d.PassSide? ==> d.id in all && ResultOf(n, d.id).Ok())
            && (!d.PassSide? ==> forall id :: id in all ==> !ResultOf(n, id).Ok())
    decreases |ids|
  {
    if ids != [] {
      if Skipped(s, ids[0]) {
        LoopGates(env, s, ids[1..], all);
      } else {
        IssuedFrame(env, s, ids[0]);
        var n := Issued(env, s, ids[0]);
        if AfterIssue(env.register[ids[0]], ResultOf(n, ids[0])).None? {
          LoopGates(env, n, ids[1..], all);
        }
      }
    }
  }

  /** The pass side (or continuing, for CHECK) is taken exactly when some listed challenge is then OK;
      one that is OK on entry takes it at once, with nothing issued and nothing changed. */
  lemma PassSideIff(env: Env, s: ReqState, ids: seq<Id>)
    requires forall id :: id in ids ==> id in env.register && env.register[id].id == id
    ensures var (n, d) := Decide(env, s, ids);
            && (d.PassSide? <==> SomeOk(n, ids))
            && (SomeOk(s, ids) ==> n == s && d.PassSide?)
  {
    FirstValidIff(s, ids);
    if !SomeOk(s, ids) {
      forall id | id in ids ensures !ResultOf(s, id).Ok() {
        var i :| 0 <= i < |ids| && ids[i] == id;
      }
      LoopGates(env, s, ids, ids);
      var (n, d) := IssueLoop(env, s, ids);
      if d.PassSide? {
        var i :| 0 <= i < |ids| && ids[i] == d.id;
        assert ResultOf(n, ids[i]).Ok();
      }
    }
  }

  /** The issuing loop without its first test. */
  ghost function IssueLoopWithoutOkTest(env: Env, s: ReqState, ids: seq<Id>): (ReqState, Decision)
    requires forall id :: id in ids ==> id in env.register
    decreases |ids|
  {
    if ids == [] then (s, FailSide)
    else if ResultOf(s, ids[0]) == Skip || StateOf(s, ids[0]) == Pass then IssueLoopWithoutOkTest(env, s, ids[1..])
    else
      var n := Issued(env, s, ids[0]);
      var decision := AfterIssue(env.register[ids[0]], ResultOf(n, ids[0]));
      if decision.Some? then (n, decision.value) else IssueLoopWithoutOkTest(env, n, ids[1..])
  }

  /** The loop's test for already OK challenges never decides anything, repeated names included. */
  lemma {:induction false} OkTestIsRedundant(env: Env, s: ReqState, ids: seq<Id>, all: seq<Id>)
    requires forall id :: id in all ==> id in env.register && env.register[id].id == id
    requires forall id :: id in ids ==> id in all
    requires FirstValid(s, all) == None
    ensures IssueLoop(env, s, ids) == IssueLoopWithoutOkTest(env, s, ids)
    decreases |ids|
  {
    FirstValidIff(s, all);
    if ids != [] {
      assert ids[0] in all;
      var j :| 0 <= j < |all| && all[j] == ids[0];
      assert !ResultOf(s, all[j]).Ok();
      if Skipped(s, ids[0]) {
        OkTestIsRedundant(env, s, ids[1..], all);
      } else {
        IssuedFrame(env, s, ids[0]);
        var n := Issued(env, s, ids[0]);
        if AfterIssue(env.register[ids[0]], ResultOf(n, ids[0])).None? {
          forall i | 0 <= i < |all| ensures !ResultOf(n, all[i]).Ok() {
            assert !ResultOf(s, all[i]).Ok();
          }
          FirstValidIff(n, all);
          OkTestIsRedundant(env, n, ids[1..], all);
        }
      }
    }
  }

  // ---- what every step keeps --------------------------------------------

  /** A successful passage of a challenge, as a token records it. */
  datatype Passage = Passage(name: string, key: bytes, result: bytes, expiry: int)

  function PassageOf(name: string, t: Token): Passage {
    Passage(name, t.key, t.result, t.expiry)
  }

  function Passages(trace: seq<Event>): set<Passage> {
    set e | e in trace && e.Stored? :: Passage(e.name, e.key, e.result, e.expiry)
  }

  /** Every token is a success that is on record. */
  ghost predicate AllBacked(tokens: Tokens, record: set<Passage>) {
    forall name :: name in tokens ==> tokens[name].ok && PassageOf(name, tokens[name]) in record
  }

  ghost predicate IsKey(env: Env, id: Id, key: bytes) {
    exists s :: key == env.key(id, s)
  }

  /** What licenses storing a token: it is for a registered challenge, under its name, with its expiry and
      under one of its keys, and the event e is that the challenge was being issued under that key, or that
      the posted token was verified under it, which it was. */
  ghost predicate Licenses(env: Env, e: Event, stored: Event)
    requires stored.Stored?
  {
    && stored.id in env.register && stored.name == env.register[stored.id].name
    && stored.expiry == Expiry.UnixSeconds(Expiry.Expiration(env.time, env.register[stored.id].duration))
    && IsKey(env, stored.id, stored.key)
    && (|| e == Issuing(stored.id, stored.key)
        || (e == Verified(stored.id, stored.key, stored.result)
            && env.verify(stored.id, stored.key, stored.result) == (OK, NoErr)))
  }

  ghost predicate Licensed(env: Env, trace: seq<Event>, i: nat)
    requires i < |trace| && trace[i].Stored?
  {
    exists j :: 0 <= j < i && Licenses(env, trace[j], trace[i])
  }

  ghost predicate AllLicensed(env: Env, trace: seq<Event>) {
    forall i :: 0 <= i < |trace| && trace[i].Stored? ==> Licensed(env, trace, i)
  }

  /** Whatever is recorded as verified was verified. */
  ghost predicate AllVerified(env: Env, trace: seq<Event>) {
    forall i :: 0 <= i < |trace| && trace[i].Verified? ==>
      env.verify(trace[i].id, trace[i].key, trace[i].token) == (OK, NoErr)
  }

  /** Nothing has panicked, nothing would panic, and every token in the state or in a cookie is backed
      by a licensed passage, of this request or on the record it started from. */
  ghost predicate Sound(env: Env, record: set<Passage>, s: ReqState) {
    && !HeadersPanic(env, s)
    && Panicked !in s.trace
    && AllBacked(s.tokens, record + Passages(s.trace))
    && (forall i :: 0 <= i < |s.trace| && s.trace[i].SetCookie? ==> AllBacked(s.trace[i].tokens, record + Passages(s.trace)))
    && AllLicensed(env, s.trace) && AllVerified(env, s.trace)
  }

  lemma PassagesGrow(trace: seq<Event>, e: Event)
    ensures Passages(trace) <= Passages(trace + [e])
    ensures e.Stored? ==> Passages(trace + [e]) == Passages(trace) + {Passage(e.name, e.key, e.result, e.expiry)}
  {
    assert forall x :: x in trace + [e] <==> x in trace || x == e;
    forall p | p in Passages(trace) ensures p in Passages(trace + [e]) {
      var x :| x in trace && x.Stored? && p == Passage(x.name, x.key, x.result, x.expiry);
      assert x in trace + [e];
    }
    assert e in trace + [e];
  }

  lemma LicensedGrow(env: Env, trace: seq<Event>, e: Event)
    requires AllLicensed(env, trace)
    requires e.Stored? ==> exists j :: 0 <= j < |trace| && Licenses(env, trace[j], e)
    ensures AllLicensed(env, trace + [e])
  {
    var n := trace + [e];
    forall i | 0 <= i < |n| && n[i].Stored? ensures Licensed(env, n, i) {
      if i < |trace| {
        assert Licensed(env, trace, i);
        var j :| 0 <= j < i && Licenses(env, trace[j], trace[i]);
        assert Licenses(env, n[j], n[i]);
      } else {
        var j :| 0 <= j < |trace| && Licenses(env, trace[j], e);
        assert Licenses(env, n[j], n[i]);
      }
    }
  }

  /** Logging keeps soundness, as long as a stored token is licensed and a cookie is backed. */
  lemma LogKeepsSound(env: Env, record: set<Passage>, s: ReqState, e: Event)
    requires Sound(env, record, s) && e != Panicked
    requires e.SetCookie? ==> AllBacked(e.tokens, record + Passages(s.trace))
    requires e.Verified? ==> env.verify(e.id, e.key, e.token) == (OK, NoErr)
    requires e.Stored? ==> exists j :: 0 <= j < |s.trace| && Licenses(env, s.trace[j], e)
    ensures Sound(env, record, Log(s, e))
  {
    PassagesGrow(s.trace, e);
    LicensedGrow(env, s.trace, e);
    var n := Log(s, e);
    assert HeadersPanic(env, n) == HeadersPanic(env, s);
    forall i | 0 <= i < |n.trace| && n.trace[i].SetCookie? ensures AllBacked(n.trace[i].tokens, record + Passages(n.trace)) {
      if i < |s.trace| {
        assert n.trace[i] == s.trace[i];
        assert AllBacked(s.trace[i].tokens, record + Passages(s.trace));
      }
    }
  }

  lemma RespondedKeepsSound(env: Env, record: set<Passage>, s: ReqState)
    requires Sound(env, record, s)
    ensures Sound(env, record, Responded(env, s))
  {
    if s.modified {
      LogKeepsSound(env, record, s, SetCookie(s.tokens, Expiry.UnixSeconds(Expiry.Expiration(env.time, DEFAULT_DURATION))));
    }
  }

  lemma HeadersKeepSound(env: Env, record: set<Passage>, s: ReqState)
    requires Sound(env, record, s)
    ensures Sound(env, record, SentRequestHeaders(env, s)) && SentRequestHeaders(env, s) == Log(s, SentHeaders)
  {
    LogKeepsSound(env, record, s, SentHeaders);
  }

  lemma TokenKeepsSound(env: Env, record: set<Passage>, s: ReqState, reg: Reg, key: bytes, result: bytes, until: int, ok: bool)
    requires Sound(env, record, s)
    requires ok ==> exists j :: 0 <= j < |s.trace| && Licenses(env, s.trace[j], Stored(reg.id, reg.name, key, result, Expiry.UnixSeconds(until)))
    ensures Sound(env, record, WithToken(s, reg, key, result, until, ok))
  {
    if ok {
      var e := Stored(reg.id, reg.name, key, result, Expiry.UnixSeconds(until));
      LogKeepsSound(env, record, s, e);
      PassagesGrow(s.trace, e);
      var n := WithToken(s, reg, key, result, until, ok);
      assert n.trace == Log(s, e).trace;
      assert HeadersPanic(env, n) == HeadersPanic(env, s);
      assert AllBacked(n.tokens, record + Passages(n.trace));
    }
  }

  lemma {:induction false} EffectsKeepSound(env: Env, record: set<Passage>, s: ReqState, reg: Reg, key: bytes, until: int, es: seq<IssueEffect>)
    requires Sound(env, record, s)
    requires exists j :: 0 <= j < |s.trace| && s.trace[j] == Issuing(reg.id, key)
    requires reg.id in env.register && env.register[reg.id] == reg && IsKey(env, reg.id, key)
    requires until == Expiry.Expiration(env.time, reg.duration)
    ensures Sound(env, record, AfterEffects(env, s, reg, key, until, es))
    decreases |es|
  {
    if es != [] {
      var j :| 0 <= j < |s.trace| && s.trace[j] == Issuing(reg.id, key);
      match es[0] {
        case SendRequestHeaders => HeadersKeepSound(env, record, s);
        case WriteResponseHeaders => RespondedKeepsSound(env, record, s);
        case IssueToken(result, ok) =>
          assert Licenses(env, s.trace[j], Stored(reg.id, reg.name, key, result, Expiry.UnixSeconds(until)));
          TokenKeepsSound(env, record, s, reg, key, result, until, ok);
      }
      var n := AfterEffect(env, s, reg, key, until, es[0]);
      assert n.trace[j] == Issuing(reg.id, key);
      EffectsKeepSound(env, record, n, reg, key, until, es[1..]);
    }
  }

  lemma IssuedKeepsSound(env: Env, record: set<Passage>, s: ReqState, id: Id)
    requires Sound(env, record, s) && id in env.register && env.register[id].id == id
    ensures Sound(env, record, Issued(env, s, id))
  {
    var reg, key := env.register[id], env.key(id, s);
    var called := Log(s, Issuing(id, key));
    LogKeepsSound(env, record, s, Issuing(id, key));
    assert called.trace[|s.trace|] == Issuing(reg.id, key);
    var plan := env.issue(id, called);
    var until := Expiry.Expiration(env.time, reg.duration);
    EffectsKeepSound(env, record, called, reg, key, until, plan.effects);
    EffectsFrame(env, called, reg, key, until, plan.effects);
    var after := AfterEffects(env, called, reg, key, until, plan.effects);
    var n := Issued(env, s, id);
    assert n == after.(verify := after.verify[id := plan.result], state := after.state[id := Pass]);
    assert !HeadersPanic(env, n) by {
      forall k | k in n.verify && n.verify[k].Ok() ensures k in env.register && StateOf(n, k) != NoState {
        if k != id {
          assert k in after.verify && StateOf(n, k) == StateOf(after, k);
        }
      }
    }
  }

  // ---- at most once -----------------------------------------------------

  /** Every challenge issued so far is registered and in the Pass state, and none was issued twice. */
  ghost predicate IssuedOnce(env: Env, s: ReqState) {
    && (forall i :: 0 <= i < |s.trace| && s.trace[i].Issuing? ==>
          s.trace[i].id in env.register && StateOf(s, s.trace[i].id) == Pass)
    && (forall i, j :: 0 <= i < j < |s.trace| && s.trace[i].Issuing? && s.trace[j].Issuing? ==>
          s.trace[i].id != s.trace[j].id)
  }

  lemma LogKeepsOnce(env: Env, s: ReqState, e: Event)
    requires IssuedOnce(env, s) && !e.Issuing?
    ensures IssuedOnce(env, Log(s, e))
  {
  }

  /** Effects log no further issuing. */
  lemma {:induction false} EffectsIssueNothing(env: Env, s: ReqState, reg: Reg, key: bytes, until: int, es: seq<IssueEffect>)
    ensures var n := AfterEffects(env, s, reg, key, until, es);
            |s.trace| <= |n.trace| && forall i :: |s.trace| <= i < |n.trace| ==> !n.trace[i].Issuing? && !IsAnswer(n.trace[i])
    decreases |es|
  {
    if es != [] {
      var m := AfterEffect(env, s, reg, key, until, es[0]);
      EffectsIssueNothing(env, m, reg, key, until, es[1..]);
      EffectsFrame(env, m, reg, key, until, es[1..]);
      var n := AfterEffects(env, m, reg, key, until, es[1..]);
      forall i | |s.trace| <= i < |n.trace| ensures !n.trace[i].Issuing? && !IsAnswer(n.trace[i]) {
        if i < |m.trace| {
          assert n.trace[i] == n.trace[..|m.trace|][i] == m.trace[i];
        }
      }
    }
  }

  lemma IssuedTrace(env: Env, s: ReqState, id: Id)
    requires id in env.register
    ensures var n := Issued(env, s, id);
            && |s.trace| < |n.trace| && n.trace[..|s.trace|] == s.trace
            && n.trace[|s.trace|] == Issuing(id, env.key(id, s))
            && forall i :: |s.trace| < i < |n.trace| ==> !n.trace[i].Issuing? && !IsAnswer(n.trace[i])
  {
    var reg, key := env.register[id], env.key(id, s);
    var called := Log(s, Issuing(id, key));
    var until := Expiry.Expiration(env.time, reg.duration);
    var es := env.issue(id, called).effects;
    EffectsFrame(env, called, reg, key, until, es);
    EffectsIssueNothing(env, called, reg, key, until, es);
    var n := Issued(env, s, id);
    assert n.trace[..|called.trace|] == called.trace;
    assert n.trace[..|s.trace|] == called.trace[..|s.trace|] == s.trace;
    assert n.trace[|s.trace|] == called.trace[|s.trace|];
  }

  lemma IssuedKeepsOnce(env: Env, s: ReqState, id: Id)
    requires IssuedOnce(env, s) && id in env.register && StateOf(s, id) != Pass
    ensures IssuedOnce(env, Issued(env, s, id))
  {
    IssuedTrace(env, s, id);
    IssuedFrame(env, s, id);
    var n := Issued(env, s, id);
    forall i | 0 <= i < |n.trace| && n.trace[i].Issuing?
      ensures n.trace[i].id in env.register && StateOf(n, n.trace[i].id) == Pass
      ensures (i == |s.trace| && n.trace[i].id == id) || (i < |s.trace| && n.trace[i] == s.trace[i] && n.trace[i].id != id)
    {
      if i < |s.trace| {
        assert n.trace[i] == n.trace[..|s.trace|][i] == s.trace[i];
      }
    }
  }

  // ---- the invariant over whole actions ---------------------------------

  ghost predicate Inv(env: Env, record: set<Passage>, s: ReqState) {
    Sound(env, record, s) && IssuedOnce(env, s)
  }

  lemma LogKeepsInv(env: Env, record: set<Passage>, s: ReqState, e: Event)
    requires Inv(env, record, s) && e != Panicked && !e.Issuing? && !e.Stored? && !e.SetCookie? && !e.Verified?
    ensures Inv(env, record, Log(s, e))
  {
    LogKeepsSound(env, record, s, e);
    LogKeepsOnce(env, s, e);
  }

  lemma RespondedKeepsInv(env: Env, record: set<Passage>, s: ReqState)
    requires Inv(env, record, s)
    ensures Inv(env, record, Responded(env, s))
  {
    RespondedKeepsSound(env, record, s);
  }

  lemma DoneKeepsInv(env: Env, record: set<Passage>, s: ReqState, ctx: Context)
    requires Inv(env, record, s)
    ensures Inv(env, record, Done(env, s, ctx))
  {
    var m := s;
    if ctx.rule.Some? {
      LogKeepsInv(env, record, s, RuleHeaders(ctx.rule.value));
      m := Log(s, RuleHeaders(ctx.rule.value));
    }
    LogKeepsInv(env, record, m, Cleanup(ctx.top));
    RespondedKeepsInv(env, record, Log(m, Cleanup(ctx.top)));
  }

  lemma ServedKeepsInv(env: Env, record: set<Passage>, s: ReqState)
    requires Inv(env, record, s)
    ensures Inv(env, record, Served(env, s))
  {
    HeadersKeepSound(env, record, s);
    LogKeepsInv(env, record, s, SentHeaders);
    LogKeepsInv(env, record, if env.backendTakesHeaders then Log(s, SentHeaders) else s, ServeBackend);
  }

  lemma PagedKeepsInv(env: Env, record: set<Passage>, s: ReqState)
    requires Inv(env, record, s)
    ensures Inv(env, record, Paged(env, s))
  {
    RespondedKeepsInv(env, record, s);
    LogKeepsInv(env, record, Responded(env, s), Page);
  }

  lemma {:induction false} LoopKeepsInv(env: Env, record: set<Passage>, s: ReqState, ids: seq<Id>)
    requires Inv(env, record, s)
    requires forall id :: id in ids ==> id in env.register && env.register[id].id == id
    ensures Inv(env, record, IssueLoop(env, s, ids).0)
    decreases |ids|
  {
    if ids != [] {
      assert ids[0] in ids;
      if Skipped(s, ids[0]) {
        LoopKeepsInv(env, record, s, ids[1..]);
      } else {
        IssuedKeepsSound(env, record, s, ids[0]);
        IssuedKeepsOnce(env, s, ids[0]);
        LoopKeepsInv(env, record, Issued(env, s, ids[0]), ids[1..]);
      }
    }
  }

  lemma {:induction false} HandledKeepsInv(env: Env, record: set<Passage>, s: ReqState, h: Handler, ctx: Context)
    requires Inv(env, record, s) && ValidRegister(env.register) && Registered(env.register, h)
    ensures Inv(env, record, Handled(env, s, h, ctx).s)
    decreases h
  {
    match h
    case NoneAction =>
    case PassAction =>
      DoneKeepsInv(env, record, s, ctx);
      ServedKeepsInv(env, record, Done(env, s, ctx));
    case ProxyAction(known) =>
      DoneKeepsInv(env, record, s, ctx);
      ServedKeepsInv(env, record, Done(env, s, ctx));
    case DenyAction => PagedKeepsInv(env, record, s);
    case BlockAction => PagedKeepsInv(env, record, s);
    case CodeAction => PagedKeepsInv(env, record, s);
    case DropAction => LogKeepsInv(env, record, s, Dropped);
    case ContextAction => LogKeepsInv(env, record, s, ContextApplied);
    case ChallengeAction(cont, ids, pass, fail) =>
      LoopKeepsInv(env, record, s, ids);
      var (n, decision) := Decide(env, s, ids);
      assert Inv(env, record, n);
      if decision.PassSide? && !cont {
        HandledKeepsInv(env, record, n, pass, ctx);
      } else if decision.FailSide? {
        HandledKeepsInv(env, record, n, fail, ctx);
      }
  }

  // ---- answers ----------------------------------------------------------

  predicate IsAnswer(e: Event) {
    e.ServeBackend? || e.Page?
  }

  ghost predicate AnswerFree(s: ReqState) {
    forall i :: 0 <= i < |s.trace| ==> !IsAnswer(s.trace[i])
  }

  ghost predicate ServeFree(s: ReqState) {
    forall i :: 0 <= i < |s.trace| ==> !s.trace[i].ServeBackend?
  }

  /** The client was sent all its tokens, if any was added. */
  ghost predicate TokensSent(s: ReqState) {
    s.modified ==> exists j :: 0 <= j < |s.trace| && s.trace[j].SetCookie? && s.trace[j].tokens == s.tokens
  }

  /** An answer, a backend call or a page, is the last thing that happens, so there is at most one; it comes
      with all tokens, and a backend call comes after the cleanup of the request. */
  ghost predicate AnsweredLast(s: ReqState) {
    forall i :: 0 <= i < |s.trace| && IsAnswer(s.trace[i]) ==>
      && i == |s.trace| - 1
      && TokensSent(s)
      && (s.trace[i].ServeBackend? ==> exists j :: 0 <= j < i && s.trace[j].Cleanup?)
  }

  lemma RespondedSendsTokens(env: Env, s: ReqState)
    requires AnswerFree(s)
    ensures AnswerFree(Responded(env, s)) && TokensSent(Responded(env, s))
    ensures |s.trace| <= |Responded(env, s).trace| && Responded(env, s).trace[..|s.trace|] == s.trace
  {
    var n := Responded(env, s);
    if s.modified {
      assert n.trace[|s.trace|].SetCookie?;
    }
  }

  lemma LogKeepsTokensSent(s: ReqState, e: Event)
    requires TokensSent(s)
    ensures TokensSent(Log(s, e))
  {
    if s.modified {
      var j :| 0 <= j < |s.trace| && s.trace[j].SetCookie? && s.trace[j].tokens == s.tokens;
      assert Log(s, e).trace[j] == s.trace[j];
    }
  }

  /** The done callback names the rule, cleans up and sends the tokens. */
  lemma DonePrepares(env: Env, s: ReqState, ctx: Context)
    requires AnswerFree(s)
    ensures var d := Done(env, s, ctx);
            && AnswerFree(d) && TokensSent(d)
            && Cleanup(ctx.top) in d.trace && (ctx.rule.Some? ==> RuleHeaders(ctx.rule.value) in d.trace)
  {
    var m := if ctx.rule.Some? then Log(s, RuleHeaders(ctx.rule.value)) else s;
    var c := Log(m, Cleanup(ctx.top));
    assert c.trace[|c.trace| - 1] == Cleanup(ctx.top);
    assert ctx.rule.Some? ==> c.trace[|c.trace| - 2] == RuleHeaders(ctx.rule.value);
    RespondedSendsTokens(env, c);
    StillIn(c.trace, Done(env, s, ctx).trace, Cleanup(ctx.top));
    if ctx.rule.Some? {
      StillIn(c.trace, Done(env, s, ctx).trace, RuleHeaders(ctx.rule.value));
    }
  }

  lemma StillIn(trace: seq<Event>, longer: seq<Event>, e: Event)
    requires |trace| <= |longer| && longer[..|trace|] == trace && e in trace
    ensures e in longer
  {
    var i :| 0 <= i < |trace| && trace[i] == e;
    assert longer[i] == longer[..|trace|][i];
  }

  lemma ServedAnswers(env: Env, d: ReqState, top: string)
    requires AnswerFree(d) && TokensSent(d) && Cleanup(top) in d.trace
    ensures AnsweredLast(Served(env, d)) && Served(env, d).trace[|Served(env, d).trace| - 1] == ServeBackend
    ensures forall e :: e in d.trace ==> e in Served(env, d).trace
  {
    var t := if env.backendTakesHeaders then SentRequestHeaders(env, d) else d;
    LogKeepsTokensSent(d, if HeadersPanic(env, d) then Panicked else SentHeaders);
    LogKeepsTokensSent(t, ServeBackend);
    var i :| 0 <= i < |d.trace| && d.trace[i] == Cleanup(top);
    assert t.trace[i] == Cleanup(top);
    assert Served(env, d).trace[i] == Cleanup(top);
  }

  lemma DoneServes(env: Env, s: ReqState, ctx: Context)
    requires AnswerFree(s)
    ensures var n := Served(env, Done(env, s, ctx));
            && AnsweredLast(n) && n.trace[|n.trace| - 1] == ServeBackend
            && Cleanup(ctx.top) in n.trace && (ctx.rule.Some? ==> RuleHeaders(ctx.rule.value) in n.trace)
  {
    DonePrepares(env, s, ctx);
    ServedAnswers(env, Done(env, s, ctx), ctx.top);
  }

  lemma PagedAnswers(env: Env, s: ReqState)
    requires AnswerFree(s)
    ensures AnsweredLast(Paged(env, s)) && ServeFree(Paged(env, s))
  {
    RespondedSendsTokens(env, s);
    LogKeepsTokensSent(Responded(env, s), Page);
  }

  lemma LogAnswersNothing(s: ReqState, e: Event)
    requires AnswerFree(s) && !IsAnswer(e)
    ensures AnswerFree(Log(s, e))
  {
  }

  lemma {:induction false} LoopAnswersNothing(env: Env, s: ReqState, ids: seq<Id>)
    requires AnswerFree(s) && forall id :: id in ids ==> id in env.register
    ensures AnswerFree(IssueLoop(env, s, ids).0)
    decreases |ids|
  {
    if ids != [] {
      assert ids[0] in ids;
      if Skipped(s, ids[0]) {
        LoopAnswersNothing(env, s, ids[1..]);
      } else {
        IssuedTrace(env, s, ids[0]);
        var n := Issued(env, s, ids[0]);
        forall i | 0 <= i < |n.trace| ensures !IsAnswer(n.trace[i]) {
          if i < |s.trace| {
            assert n.trace[i] == n.trace[..|s.trace|][i];
          }
        }
        LoopAnswersNothing(env, n, ids[1..]);
      }
    }
  }

  /** An action that goes on or fails has answered nothing; any action answers at most once, with all the
      tokens it added, and a backend only after the cleanup. */
  lemma {:induction false} HandledAnswers(env: Env, s: ReqState, h: Handler, ctx: Context)
    requires AnswerFree(s) && Registered(env.register, h)
    ensures var o := Handled(env, s, h, ctx);
            AnsweredLast(o.s) && (o.next || o.failed ==> AnswerFree(o.s)) && !(o.next && o.failed)
    decreases h
  {
    match h
    case NoneAction =>
    case PassAction => DoneServes(env, s, ctx);
    case ProxyAction(known) => DoneServes(env, s, ctx);
    case DenyAction => PagedAnswers(env, s);
    case BlockAction => PagedAnswers(env, s);
    case CodeAction => PagedAnswers(env, s);
    case DropAction => LogAnswersNothing(s, Dropped);
    case ContextAction => LogAnswersNothing(s, ContextApplied);
    case ChallengeAction(cont, ids, pass, fail) =>
      LoopAnswersNothing(env, s, ids);
      var (n, decision) := Decide(env, s, ids);
      if decision.PassSide? && !cont {
        HandledAnswers(env, n, pass, ctx);
      } else if decision.FailSide? {
        HandledAnswers(env, n, fail, ctx);
      }
  }
}
