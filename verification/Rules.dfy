/** The rule forest: lib/rule.go and the rule loop of lib/http.go. */
module Rules {
  import opened Bytes
  import opened Verify
  import opened Challenge
  import opened Action
  import opened Safety
  import opened Gating

  datatype Rule = Rule(name: string, hasCondition: bool, handler: Handler, children: seq<Rule>)

  ghost predicate AllRegistered(register: Register, rules: seq<Rule>) {
    forall r :: r in rules ==> Registered(register, r.handler) && AllRegistered(register, r.children)
  }

  /** A rule without a condition is true. */
  function EvalCondition(env: Env, s: ReqState, rule: Rule): Cond {
    if rule.hasCondition then env.ruleCondition(rule.name, s) else CondBool(true)
  }

  predicate Stops(o: Outcome) {
    o.failed || !o.next
  }

  // ---- the recursive evaluation -----------------------------------------

  ghost function EvaluateRule(env: Env, s: ReqState, rule: Rule, top: string): Outcome
    requires AllRegistered(env.register, [rule])
    decreases rule, 1
  {
    assert rule in [rule];
    match EvalCondition(env, s, rule)
    case CondError => Outcome(s, false, true)
    case CondOther => Outcome(s, false, true)
    case CondNil => Outcome(s, true, false)
    case CondBool(b) =>
      if !b then Outcome(Log(s, RuleMiss(rule.name)), true, false)
      else
        var o := Handled(env, Log(s, RuleHit(rule.name)), rule.handler, Context(Some(rule.name), top));
        if Stops(o) then Outcome(o.s, false, o.failed) else EvaluateAll(env, o.s, rule.children, top)
  }

  ghost function EvaluateAll(env: Env, s: ReqState, rules: seq<Rule>, top: string): Outcome
    requires AllRegistered(env.register, rules)
    decreases rules, 0
  {
    if rules == [] then Outcome(s, true, false)
    else
      assert rules[0] in rules;
      var o := EvaluateRule(env, s, rules[0], top);
      if Stops(o) then Outcome(o.s, false, o.failed) else EvaluateAll(env, o.s, rules[1..], top)
  }

  /** The top-level loop: every rule is its own top. */
  ghost function EvaluateForest(env: Env, s: ReqState, rules: seq<Rule>): Outcome
    requires AllRegistered(env.register, rules)
    decreases |rules|
  {
    if rules == [] then Outcome(s, true, false)
    else
      assert rules[0] in rules;
      var o := EvaluateRule(env, s, rules[0], rules[0].name);
      if Stops(o) then Outcome(o.s, false, o.failed) else EvaluateForest(env, o.s, rules[1..])
  }

  /** Answered by some rule, ended in an error page, or passed by default. */
  datatype Ending = Answered | Errored | Defaulted

  ghost function Handling(env: Env, s: ReqState, rules: seq<Rule>): (ReqState, Ending)
    requires AllRegistered(env.register, rules)
  {
    var o := EvaluateForest(env, s, rules);
    if o.failed then (Paged(env, o.s), Errored)
    else if !o.next then (o.s, Answered)
    else (Handled(env, Log(o.s, RuleHit("DEFAULT")), PassAction, Context(None, "DEFAULT")).s, Defaulted)
  }

  method Evaluate(data: RequestData, env: Env, rule: Rule, top: string) returns (next: bool, failed: bool)
    requires AllRegistered(env.register, [rule]) && ValidRegister(env.register)
    modifies data
    ensures Outcome(data.Snapshot(), next, failed) == EvaluateRule(env, old(data.Snapshot()), rule, top)
    decreases rule
  {
    assert rule in [rule];
    var out := if rule.hasCondition
      then env.ruleCondition(rule.name,
             ReqState(data.verify, data.state, data.diagnostic, data.tokens, data.modified, data.cookieStatus, data.trace))
      else CondBool(true);
    if out.CondError? {
      return false, true;
    } else if out.CondBool? {
      if out.b {
        data.trace := data.trace + [RuleHit(rule.name)];
        next, failed := Handle(data, env, rule.handler, Context(Some(rule.name), top));
        if failed {
          return false, true;
        }
        if !next {
          return false, false;
        }
        next, failed := EvaluateChildren(data, env, rule, top);
        return;
      } else {
        data.trace := data.trace + [RuleMiss(rule.name)];
      }
    } else if out.CondOther? {
      return false, true;
    }
    return true, false;
  }

  /** The loop over a rule's children. */
  method EvaluateChildren(data: RequestData, env: Env, rule: Rule, top: string) returns (next: bool, failed: bool)
    requires AllRegistered(env.register, rule.children) && ValidRegister(env.register)
    modifies data
    ensures Outcome(data.Snapshot(), next, failed) == EvaluateAll(env, old(data.Snapshot()), rule.children, top)
    decreases rule, 0
  {
    assert rule.children[0..] == rule.children;
    for i := 0 to |rule.children|
      invariant EvaluateAll(env, data.Snapshot(), rule.children[i..], top)
             == EvaluateAll(env, old(data.Snapshot()), rule.children, top)
    {
      var child := rule.children[i];
      assert rule.children[i..][0] == child && rule.children[i..][1..] == rule.children[i + 1..];
      assert child in rule.children;
      next, failed := Evaluate(data, env, child, top);
      if failed {
        return false, true;
      }
      if !next {
        return false, false;
      }
    }
    return true, false;
  }

  /** handleRequest, once a backend for the host is known. */
  method HandleRequest(data: RequestData, env: Env, rules: seq<Rule>) returns (ending: Ending)
    requires AllRegistered(env.register, rules) && ValidRegister(env.register)
    modifies data
    ensures (data.Snapshot(), ending) == Handling(env, old(data.Snapshot()), rules)
  {
    assert rules[0..] == rules;
    for i := 0 to |rules|
      invariant EvaluateForest(env, data.Snapshot(), rules[i..]) == EvaluateForest(env, old(data.Snapshot()), rules)
    {
      var rule := rules[i];
      assert rules[i..][0] == rule && rules[i..][1..] == rules[i + 1..];
      assert rule in rules;
      var next, failed := Evaluate(data, env, rule, rule.name);
      if failed {
        ServePage(data, env);
        return Errored;
      }
      if !next {
        return Answered;
      }
    }
    data.trace := data.trace + [RuleHit("DEFAULT")];
    var next, failed := Handle(data, env, PassAction, Context(None, "DEFAULT"));
    return Defaulted;
  }

  // ---- the same as a worklist -------------------------------------------

  /** A rule still to be visited, with the top-level rule it came from. */
  datatype Work = Work(rule: Rule, top: string)

  function Weight(rules: seq<Rule>): nat {
    if rules == [] then 0 else 1 + Weight(rules[0].children) + Weight(rules[1..])
  }

  function WorkWeight(work: seq<Work>): nat {
    if work == [] then 0 else 1 + Weight(work[0].rule.children) + WorkWeight(work[1..])
  }

  function AllUnder(rules: seq<Rule>, top: string): (r: seq<Work>)
    ensures |r| == |rules|
  {
    seq(|rules|, i requires 0 <= i < |rules| => Work(rules[i], top))
  }

  function TopWork(rules: seq<Rule>): seq<Work> {
    seq(|rules|, i requires 0 <= i < |rules| => Work(rules[i], rules[i].name))
  }

  ghost predicate WorkRegistered(register: Register, work: seq<Work>) {
    forall i :: 0 <= i < |work| ==> Registered(register, work[i].rule.handler) && AllRegistered(register, work[i].rule.children)
  }

  lemma {:induction false} WeightUnder(rules: seq<Rule>, top: string, rest: seq<Work>)
    ensures WorkWeight(AllUnder(rules, top) + rest) == Weight(rules) + WorkWeight(rest)
    decreases |rules|
  {
    if rules == [] {
      assert AllUnder(rules, top) + rest == rest;
    } else {
      assert (AllUnder(rules, top) + rest)[1..] == AllUnder(rules[1..], top) + rest;
      WeightUnder(rules[1..], top, rest);
    }
  }

  /** A condition that is not a boolean, or fails, is an error; no value at all is not. */
  predicate ConditionErrs(env: Env, s: ReqState, rule: Rule) {
    rule.hasCondition && env.ruleCondition(rule.name, s) in {CondError, CondOther}
  }

  predicate ConditionHolds(env: Env, s: ReqState, rule: Rule) {
    rule.hasCondition ==> env.ruleCondition(rule.name, s) == CondBool(true)
  }

  /** Pre-order by hand: take the first rule; if its condition is true run its action; if that goes on,
      its children come before everything else that is left. */
  ghost function Walk(env: Env, s: ReqState, work: seq<Work>): Outcome
    requires WorkRegistered(env.register, work)
    decreases WorkWeight(work)
  {
    if work == [] then Outcome(s, true, false)
    else
      var rule := work[0].rule;
      if ConditionErrs(env, s, rule) then Outcome(s, false, true)
      else if ConditionHolds(env, s, rule) then
        var o := Handled(env, Log(s, RuleHit(rule.name)), rule.handler, Context(Some(rule.name), work[0].top));
        WeightUnder(rule.children, work[0].top, work[1..]);
        if o.failed || !o.next then Outcome(o.s, false, o.failed)
        else Walk(env, o.s, AllUnder(rule.children, work[0].top) + work[1..])
      else
        var missed := env.ruleCondition(rule.name, s) == CondBool(false);
        Walk(env, if missed then Log(s, RuleMiss(rule.name)) else s, work[1..])
  }

  /** What follows a finished part of the work. */
  ghost function Then(env: Env, o: Outcome, rest: seq<Work>): Outcome
    requires WorkRegistered(env.register, rest)
  {
    if Stops(o) then Outcome(o.s, false, o.failed) else Walk(env, o.s, rest)
  }

  lemma {:induction false} WalkRule(env: Env, s: ReqState, rule: Rule, top: string, rest: seq<Work>)
    requires AllRegistered(env.register, [rule]) && WorkRegistered(env.register, rest)
    ensures WorkRegistered(env.register, [Work(rule, top)] + rest)
    ensures Walk(env, s, [Work(rule, top)] + rest) == Then(env, EvaluateRule(env, s, rule, top), rest)
    decreases rule, 1
  {
    assert rule in [rule];
    var work := [Work(rule, top)] + rest;
    assert work[1..] == rest;
    if EvalCondition(env, s, rule) == CondBool(true) {
      var o := Handled(env, Log(s, RuleHit(rule.name)), rule.handler, Context(Some(rule.name), top));
      if !Stops(o) {
        WalkAll(env, o.s, rule.children, top, rest);
      }
    }
  }

  lemma {:induction false} WalkAll(env: Env, s: ReqState, rules: seq<Rule>, top: string, rest: seq<Work>)
    requires AllRegistered(env.register, rules) && WorkRegistered(env.register, rest)
    ensures WorkRegistered(env.register, AllUnder(rules, top) + rest)
    ensures Walk(env, s, AllUnder(rules, top) + rest) == Then(env, EvaluateAll(env, s, rules, top), rest)
    decreases rules, 0
  {
    if rules == [] {
      assert AllUnder(rules, top) + rest == rest;
    } else {
      assert rules[0] in rules;
      var later := AllUnder(rules[1..], top) + rest;
      assert AllUnder(rules, top) + rest == [Work(rules[0], top)] + later;
      WorkUnderRegistered(env.register, rules[1..], top, rest);
      WalkRule(env, s, rules[0], top, later);
      var o := EvaluateRule(env, s, rules[0], top);
      if !Stops(o) {
        WalkAll(env, o.s, rules[1..], top, rest);
      }
    }
  }

  lemma WorkUnderRegistered(register: Register, rules: seq<Rule>, top: string, rest: seq<Work>)
    requires AllRegistered(register, rules) && WorkRegistered(register, rest)
    ensures WorkRegistered(register, AllUnder(rules, top) + rest)
  {
    var work := AllUnder(rules, top) + rest;
    forall i | 0 <= i < |work|
      ensures Registered(register, work[i].rule.handler) && AllRegistered(register, work[i].rule.children)
    {
      if i < |rules| {
        assert work[i].rule == rules[i] && rules[i] in rules;
      } else {
        assert work[i] == rest[i - |rules|];
      }
    }
  }

  /** For every finite forest and every environment: the recursive evaluation is the pre-order walk. It
      stops at the first rule whose condition fails to be a boolean or whose action stops, skips the
      subtrees of false conditions, and otherwise reaches the end. */
  lemma {:induction false} ForestIsPreorder(env: Env, s: ReqState, rules: seq<Rule>)
    requires AllRegistered(env.register, rules)
    ensures WorkRegistered(env.register, TopWork(rules))
    ensures Walk(env, s, TopWork(rules)) == EvaluateForest(env, s, rules)
    decreases |rules|
  {
    TopRegistered(env.register, rules);
    if rules != [] {
      assert rules[0] in rules;
      TopRegistered(env.register, rules[1..]);
      assert TopWork(rules) == [Work(rules[0], rules[0].name)] + TopWork(rules[1..]);
      WalkRule(env, s, rules[0], rules[0].name, TopWork(rules[1..]));
      var o := EvaluateRule(env, s, rules[0], rules[0].name);
      if !Stops(o) {
        ForestIsPreorder(env, o.s, rules[1..]);
      }
    }
  }

  lemma TopRegistered(register: Register, rules: seq<Rule>)
    requires AllRegistered(register, rules)
    ensures WorkRegistered(register, TopWork(rules))
  {
    forall i | 0 <= i < |rules|
      ensures Registered(register, rules[i].handler) && AllRegistered(register, rules[i].children)
    {
      assert rules[i] in rules;
    }
  }

  // ---- what every forest keeps ------------------------------------------

  lemma {:induction false} RuleKeepsInv(env: Env, record: set<Passage>, s: ReqState, rule: Rule, top: string)
    requires Inv(env, record, s) && ValidRegister(env.register) && AllRegistered(env.register, [rule])
    ensures Inv(env, record, EvaluateRule(env, s, rule, top).s)
    decreases rule, 1
  {
    assert rule in [rule];
    if EvalCondition(env, s, rule) == CondBool(true) {
      LogKeepsInv(env, record, s, RuleHit(rule.name));
      var ctx := Context(Some(rule.name), top);
      HandledKeepsInv(env, record, Log(s, RuleHit(rule.name)), rule.handler, ctx);
      var o := Handled(env, Log(s, RuleHit(rule.name)), rule.handler, ctx);
      if !Stops(o) {
        AllKeepInv(env, record, o.s, rule.children, top);
      }
    } else if EvalCondition(env, s, rule) == CondBool(false) {
      LogKeepsInv(env, record, s, RuleMiss(rule.name));
    }
  }

  lemma {:induction false} AllKeepInv(env: Env, record: set<Passage>, s: ReqState, rules: seq<Rule>, top: string)
    requires Inv(env, record, s) && ValidRegister(env.register) && AllRegistered(env.register, rules)
    ensures Inv(env, record, EvaluateAll(env, s, rules, top).s)
    decreases rules, 0
  {
    if rules != [] {
      assert rules[0] in rules;
      RuleKeepsInv(env, record, s, rules[0], top);
      AllKeepInv(env, record, EvaluateRule(env, s, rules[0], top).s, rules[1..], top);
    }
  }

  lemma {:induction false} ForestKeepsInv(env: Env, record: set<Passage>, s: ReqState, rules: seq<Rule>)
    requires Inv(env, record, s) && ValidRegister(env.register) && AllRegistered(env.register, rules)
    ensures Inv(env, record, EvaluateForest(env, s, rules).s)
    decreases |rules|
  {
    if rules != [] {
      assert rules[0] in rules;
      RuleKeepsInv(env, record, s, rules[0], rules[0].name);
      ForestKeepsInv(env, record, EvaluateRule(env, s, rules[0], rules[0].name).s, rules[1..]);
    }
  }

  lemma {:induction false} RuleAnswers(env: Env, s: ReqState, rule: Rule, top: string)
    requires AnswerFree(s) && AllRegistered(env.register, [rule])
    ensures var o := EvaluateRule(env, s, rule, top);
            AnsweredLast(o.s) && (o.next || o.failed ==> AnswerFree(o.s))
    decreases rule, 1
  {
    assert rule in [rule];
    if EvalCondition(env, s, rule) == CondBool(true) {
      var ctx := Context(Some(rule.name), top);
      LogAnswersNothing(s, RuleHit(rule.name));
      HandledAnswers(env, Log(s, RuleHit(rule.name)), rule.handler, ctx);
      var o := Handled(env, Log(s, RuleHit(rule.name)), rule.handler, ctx);
      if !Stops(o) {
        AllAnswer(env, o.s, rule.children, top);
      }
    } else {
      LogAnswersNothing(s, RuleMiss(rule.name));
      NothingAnswered(EvaluateRule(env, s, rule, top).s);
    }
  }

  lemma NothingAnswered(s: ReqState)
    requires AnswerFree(s)
    ensures AnsweredLast(s)
  {
  }

  lemma {:induction false} AllAnswer(env: Env, s: ReqState, rules: seq<Rule>, top: string)
    requires AnswerFree(s) && AllRegistered(env.register, rules)
    ensures var o := EvaluateAll(env, s, rules, top);
            AnsweredLast(o.s) && (o.next || o.failed ==> AnswerFree(o.s))
    decreases rules, 0
  {
    if rules != [] {
      assert rules[0] in rules;
      RuleAnswers(env, s, rules[0], top);
      var o := EvaluateRule(env, s, rules[0], top);
      if !Stops(o) {
        AllAnswer(env, o.s, rules[1..], top);
      }
    }
  }

  lemma {:induction false} ForestAnswers(env: Env, s: ReqState, rules: seq<Rule>)
    requires AnswerFree(s) && AllRegistered(env.register, rules)
    ensures var o := EvaluateForest(env, s, rules);
            AnsweredLast(o.s) && (o.next || o.failed ==> AnswerFree(o.s))
    decreases |rules|
  {
    if rules != [] {
      assert rules[0] in rules;
      RuleAnswers(env, s, rules[0], rules[0].name);
      var o := EvaluateRule(env, s, rules[0], rules[0].name);
      if !Stops(o) {
        ForestAnswers(env, o.s, rules[1..]);
      }
    }
  }

  // ---- one whole request ------------------------------------------------

  function IssuedIds(trace: seq<Event>): seq<Id> {
    if trace == [] then []
    else IssuedIds(trace[..|trace| - 1]) + (if trace[|trace| - 1].Issuing? then [trace[|trace| - 1].id] else [])
  }

  lemma {:induction false} IssuedIdsFrom(trace: seq<Event>, id: Id)
    requires id in IssuedIds(trace)
    ensures exists i :: 0 <= i < |trace| && trace[i].Issuing? && trace[i].id == id
  {
    var init, n := trace[..|trace| - 1], |trace| - 1;
    if id in IssuedIds(init) {
      IssuedIdsFrom(init, id);
      var i :| 0 <= i < |init| && init[i].Issuing? && init[i].id == id;
      assert trace[i] == init[i];
    } else {
      assert trace[n].Issuing? && trace[n].id == id;
    }
  }

  ghost predicate Distinct(ids: seq<Id>) {
    forall i, j :: 0 <= i < j < |ids| ==> ids[i] != ids[j]
  }

  lemma {:induction false} IssuedIdsDistinct(trace: seq<Event>)
    requires forall i, j :: 0 <= i < j < |trace| && trace[i].Issuing? && trace[j].Issuing? ==> trace[i].id != trace[j].id
    ensures Distinct(IssuedIds(trace))
  {
    if trace != [] {
      var init, e := trace[..|trace| - 1], trace[|trace| - 1];
      IssuedIdsDistinct(init);
      if e.Issuing? && e.id in IssuedIds(init) {
        IssuedIdsFrom(init, e.id);
      }
    }
  }

  lemma {:induction false} DistinctBounded(ids: seq<Id>, s: set<Id>)
    requires Distinct(ids) && forall id :: id in ids ==> id in s
    ensures |ids| <= |s|
    decreases |ids|
  {
    if ids != [] {
      assert ids[0] in s && |s - {ids[0]}| == |s| - 1;
      DistinctBounded(ids[1..], s - {ids[0]});
    }
  }

  /** The number of issuances of a request is at most the number of registered challenges. */
  lemma IssuancesBounded(env: Env, s: ReqState)
    requires IssuedOnce(env, s)
    ensures |IssuedIds(s.trace)| <= |env.register|
  {
    IssuedIdsDistinct(s.trace);
    forall id | id in IssuedIds(s.trace) ensures id in env.register.Keys {
      IssuedIdsFrom(s.trace, id);
    }
    DistinctBounded(IssuedIds(s.trace), env.register.Keys);
  }

  /** Evaluation starts every request in the invariant. */
  lemma EvaluatedStateInv(env: Env, record: set<Passage>, tokens: Tokens, err: Err)
    requires ValidRegister(env.register) && AllBacked(tokens, record)
    ensures Inv(env, record, EvaluatedState(env, tokens, err)) && AnswerFree(EvaluatedState(env, tokens, err))
  {
    var s := EvaluatedState(env, tokens, err);
    forall id | id in s.verify && s.verify[id].Ok() ensures id in env.register && StateOf(s, id) != NoState {
      EvaluatedStateIsSound(env, tokens, err, id);
    }
    assert record + Passages(s.trace) == record;
  }

  lemma HandlingKeepsInv(env: Env, record: set<Passage>, s: ReqState, rules: seq<Rule>)
    requires Inv(env, record, s) && ValidRegister(env.register) && AllRegistered(env.register, rules)
    ensures Inv(env, record, Handling(env, s, rules).0)
  {
    ForestKeepsInv(env, record, s, rules);
    var o := EvaluateForest(env, s, rules);
    if o.failed {
      PagedKeepsInv(env, record, o.s);
    } else if o.next {
      LogKeepsInv(env, record, o.s, RuleHit("DEFAULT"));
      HandledKeepsInv(env, record, Log(o.s, RuleHit("DEFAULT")), PassAction, Context(None, "DEFAULT"));
    }
  }

  /** How a request ends is how the walk ends: with an error page, as an action answered, or, if every
      action went on, with the backend behind the default rule. */
  lemma HandlingEnds(env: Env, s: ReqState, rules: seq<Rule>)
    requires AnswerFree(s) && AllRegistered(env.register, rules)
    ensures WorkRegistered(env.register, TopWork(rules))
    ensures var o := Walk(env, s, TopWork(rules));
            var (n, ending) := Handling(env, s, rules);
            && (ending == Errored <==> o.failed)
            && (ending == Answered <==> !o.failed && !o.next)
            && (ending == Errored ==> EndsWith(n, Page) && !Serves(n))
            && (ending == Answered ==> n == o.s)
            && (ending == Defaulted ==> EndsWith(n, ServeBackend) && SameRecords(o.s, n) && Cleanup("DEFAULT") in n.trace)
  {
    ForestIsPreorder(env, s, rules);
    ForestAnswers(env, s, rules);
    var o := EvaluateForest(env, s, rules);
    if o.failed {
      Paging(env, o.s);
    } else if o.next {
      PlainActions(env, Log(o.s, RuleHit("DEFAULT")), PassAction, Context(None, "DEFAULT"));
    }
  }

  /** A policy's front door: its first rule applies, ends every request, and lets none through except by a
      challenge of the set. Whatever rules follow, a backend is reached only with such a challenge OK, and
      it was OK on arrival or its issuing function said so. */
  lemma FrontDoorHolds(env: Env, s: ReqState, rules: seq<Rule>, ids: set<Id>)
    requires AnswerFree(s) && AllRegistered(env.register, rules) && ValidRegister(env.register)
    requires rules != [] && ConditionHolds(env, s, rules[0])
    requires NeverGoesOn(rules[0].handler) && Guarded(rules[0].handler, ids)
    ensures var n := Handling(env, s, rules).0;
            Serves(n) ==> exists id :: id in ids && ResultOf(n, id).Ok() && (ResultOf(s, id).Ok() || IssuedOk(env, id))
  {
    assert rules[0] in rules;
    var rule, m := rules[0], Log(s, RuleHit(rules[0].name));
    var ctx := Context(Some(rule.name), rule.name);
    var o := Handled(env, m, rule.handler, ctx);
    NeverGoesOnEnds(env, m, rule.handler, ctx);
    HandledAnswers(env, m, rule.handler, ctx);
    assert EvaluateForest(env, s, rules) == Outcome(o.s, false, o.failed);
    if o.failed {
      Paging(env, o.s);
    } else if Serves(o.s) {
      GuardedNeedsOk(env, m, rule.handler, ctx, ids);
      var id :| id in ids && ResultOf(o.s, id).Ok();
      OkComesFrom(env, m, rule.handler, ctx, id);
      assert ResultOf(m, id) == ResultOf(s, id);
    }
  }

  lemma HandlingAnswers(env: Env, s: ReqState, rules: seq<Rule>)
    requires AnswerFree(s) && AllRegistered(env.register, rules)
    ensures var (n, ending) := Handling(env, s, rules);
            && AnsweredLast(n)
            && (ending == Defaulted ==> n.trace != [] && n.trace[|n.trace| - 1] == ServeBackend)
            && (ending == Errored ==> ServeFree(n))
  {
    ForestAnswers(env, s, rules);
    var o := EvaluateForest(env, s, rules);
    if o.failed {
      PagedAnswers(env, o.s);
    } else if o.next {
      HandledAnswers(env, Log(o.s, RuleHit("DEFAULT")), PassAction, Context(None, "DEFAULT"));
    }
  }

  /** The rule path from evaluation to answer, for every register, forest, cookie and environment: no
      panic behind RequestHeaders is reached, every challenge is issued at most once and at most as many
      as are registered, a backend is called at most once, last, and after the cleanup, and every token
      in the state and in every cookie sent is backed. */
  lemma RequestIsSafe(env: Env, record: set<Passage>, tokens: Tokens, err: Err, rules: seq<Rule>)
    requires ValidRegister(env.register) && AllRegistered(env.register, rules) && AllBacked(tokens, record)
    ensures var (s, ending) := Handling(env, EvaluatedState(env, tokens, err), rules);
            && Inv(env, record, s)
            && AnsweredLast(s)
            && |IssuedIds(s.trace)| <= |env.register|
            && (ending == Defaulted ==> s.trace != [] && s.trace[|s.trace| - 1] == ServeBackend)
            && (ending == Errored ==> ServeFree(s))
  {
    var s0 := EvaluatedState(env, tokens, err);
    EvaluatedStateInv(env, record, tokens, err);
    HandlingKeepsInv(env, record, s0, rules);
    HandlingAnswers(env, s0, rules);
    IssuancesBounded(env, Handling(env, s0, rules).0);
  }
}
