/** The one-shot rendezvous of lib/challenge/awaiter.go. The concurrent map's operations, the result
    cell and the cancellation are each one atomic step. */
module Awaiter {
  import opened Bytes
  import opened Verify

  type Key = string

  /** Where one call of Await stands; `byCallback` says that its callback had cancelled the context. */
  datatype Stage = Waiting | Woken(result: VerifyResult, byCallback: bool) | Left(result: VerifyResult, byCallback: bool)

  /** One call of Await: its key, its result cell, what has ended its context, and which call of
      Solve removed its callback from the map. */
  datatype Waiter = Waiter(key: Key, cell: VerifyResult, cancelled: bool, expired: bool, stage: Stage, takenBy: Option<nat>)

  datatype Phase = NotYet | Stored | Cancelled

  /** One call of Solve: the waiter whose callback it removed, and how far that callback has run. */
  datatype Solver = Solver(key: Key, result: VerifyResult, took: Option<nat>, fired: Phase)

  datatype State = State(
    callbacks: map<Key, nat>,
    waiters: map<nat, Waiter>,
    solvers: map<nat, Solver>,
    firings: seq<(nat, nat)>)      // (solver, waiter), one entry for each time a callback ran

  datatype Step =
    | Register(w: nat, key: Key)                      // Set in Await
    | Expire(w: nat)                                  // the caller's context ends
    | Wake(w: nat)                                    // ctx.Done, then result.Load
    | Leave(w: nat)                                   // the deferred Del
    | Take(s: nat, key: Key, result: VerifyResult)    // GetAndDel in Solve
    | StoreResult(s: nat)                             // result.Store in the callback
    | Cancel(s: nat)                                  // cancel in the callback

  const EMPTY := State(map[], map[], map[], [])

  /** Is the step the next one of its call? Call numbers are never reused. */
  predicate Due(st: State, step: Step) {
    match step
    case Register(w, _) => w !in st.waiters
    case Expire(w) => w in st.waiters
    case Wake(w) => w in st.waiters && st.waiters[w].stage.Waiting? && (st.waiters[w].cancelled || st.waiters[w].expired)
    case Leave(w) => w in st.waiters && st.waiters[w].stage.Woken?
    case Take(s, _, _) => s !in st.solvers
    case StoreResult(s) => AtPhase(st, s, NotYet)
    case Cancel(s) => AtPhase(st, s, Stored)
  }

  predicate AtPhase(st: State, s: nat, fired: Phase) {
    s in st.solvers && st.solvers[s].fired == fired && st.solvers[s].took.Some? && st.solvers[s].took.value in st.waiters
  }

  function Next(st: State, step: Step): State {
    if !Due(st, step) then st
    else
      match step
      case Register(w, k) =>
        st.(callbacks := st.callbacks[k := w],
            waiters := st.waiters[w := Waiter(k, None_, false, false, Waiting, None)])
      case Expire(w) => st.(waiters := st.waiters[w := st.waiters[w].(expired := true)])
      case Wake(w) =>
        var waiter := st.waiters[w];
        st.(waiters := st.waiters[w := waiter.(stage := Woken(waiter.cell, waiter.cancelled))])
      case Leave(w) =>
        var waiter := st.waiters[w];
        st.(callbacks := st.callbacks - {waiter.key},
            waiters := st.waiters[w := waiter.(stage := Left(waiter.stage.result, waiter.stage.byCallback))])
      case Take(s, k, result) =>
        if k in st.callbacks && st.callbacks[k] in st.waiters then
          var w := st.callbacks[k];
          st.(callbacks := st.callbacks - {k},
              waiters := st.waiters[w := st.waiters[w].(takenBy := Some(s))],
              solvers := st.solvers[s := Solver(k, result, Some(w), NotYet)])
        else st.(callbacks := st.callbacks - {k}, solvers := st.solvers[s := Solver(k, result, None, NotYet)])
      case StoreResult(s) =>
        var solver := st.solvers[s];
        var w := solver.took.value;
        st.(waiters := st.waiters[w := st.waiters[w].(cell := solver.result)],
            solvers := st.solvers[s := solver.(fired := Stored)],
            firings := st.firings + [(s, w)])
      case Cancel(s) =>
        var solver := st.solvers[s];
        var w := solver.took.value;
        st.(waiters := st.waiters[w := st.waiters[w].(cancelled := true)],
            solvers := st.solvers[s := solver.(fired := Cancelled)])
  }

  function Run(st: State, steps: seq<Step>): State
    decreases |steps|
  {
    if steps == [] then st else Run(Next(st, steps[0]), steps[1..])
  }

  // ---- what every step keeps --------------------------------------------

  /** A callback still in the map belongs to a call under that key, and nobody has taken it. */
  ghost predicate GoodCallback(st: State, k: Key) {
    k in st.callbacks ==>
      && st.callbacks[k] in st.waiters
      && st.waiters[st.callbacks[k]].key == k
      && st.waiters[st.callbacks[k]].takenBy == None
  }

  /** A solver's waiter is a call under the solver's key, and names it as its only taker. */
  ghost predicate GoodSolver(st: State, s: nat) {
    s in st.solvers && st.solvers[s].took.Some? ==>
      var w := st.solvers[s].took.value;
      w in st.waiters && st.waiters[w].takenBy == Some(s) && st.waiters[w].key == st.solvers[s].key
  }

  /** Only None, or the result of the solver that took the callback. */
  ghost predicate Explained(st: State, taker: Option<nat>, result: VerifyResult) {
    result == None_ || (taker.Some? && taker.value in st.solvers && st.solvers[taker.value].result == result)
  }

  ghost predicate GoodWaiter(st: State, w: nat) {
    w in st.waiters ==>
      var waiter := st.waiters[w];
      && (waiter.takenBy.Some? ==> waiter.takenBy.value in st.solvers && st.solvers[waiter.takenBy.value].took == Some(w))
      // the cell and the cancellation follow the taker's progress
      && waiter.cell == (if waiter.takenBy.Some? && st.solvers[waiter.takenBy.value].fired != NotYet
                         then st.solvers[waiter.takenBy.value].result else None_)
      && (waiter.cancelled <==> waiter.takenBy.Some? && st.solvers[waiter.takenBy.value].fired == Cancelled)
      // the answer
      && (!waiter.stage.Waiting? ==> Explained(st, waiter.takenBy, waiter.stage.result))
      && (!waiter.stage.Waiting? && waiter.stage.byCallback ==>
            waiter.takenBy.Some? && waiter.stage.result == st.solvers[waiter.takenBy.value].result)
      && (!waiter.stage.Waiting? && !waiter.stage.byCallback ==> waiter.expired)
  }

  ghost predicate GoodFirings(st: State) {
    && (forall i :: 0 <= i < |st.firings| ==>
          var (s, w) := st.firings[i];
          s in st.solvers && st.solvers[s].took == Some(w) && st.solvers[s].fired != NotYet)
    && forall i, j :: 0 <= i < j < |st.firings| ==>
         st.firings[i].0 != st.firings[j].0 && st.firings[i].1 != st.firings[j].1
  }

  ghost predicate Inv(st: State) {
    && (forall k :: GoodCallback(st, k))
    && (forall s :: GoodSolver(st, s))
    && (forall w :: GoodWaiter(st, w))
    && GoodFirings(st)
  }

  lemma NextKeepsInv(st: State, step: Step)
    requires Inv(st)
    ensures Inv(Next(st, step))
  {
    if Due(st, step) {
      var n := Next(st, step);
      forall k ensures GoodCallback(n, k) {
        assert GoodCallback(st, k);
        if step.Take? {
          assert GoodCallback(st, step.key);
        }
      }
      forall s ensures GoodSolver(n, s) {
        assert GoodSolver(st, s);
        if step.Take? && step.key in st.callbacks {
          assert GoodCallback(st, step.key);
        }
      }
      forall w ensures GoodWaiter(n, w) {
        assert GoodWaiter(st, w);
        if step.Take? && step.key in st.callbacks {
          assert GoodCallback(st, step.key);
        }
        if step.StoreResult? || step.Cancel? {
          assert GoodSolver(st, step.s);
        }
      }
      FiringsKept(st, step);
    }
  }

  lemma FiringsKept(st: State, step: Step)
    requires Inv(st) && Due(st, step)
    ensures GoodFirings(Next(st, step))
  {
    if step.StoreResult? {
      var w := st.solvers[step.s].took.value;
      forall i | 0 <= i < |st.firings| ensures st.firings[i].0 != step.s && st.firings[i].1 != w {
        var (s, v) := st.firings[i];
        assert GoodSolver(st, s) && GoodSolver(st, step.s);
      }
    }
  }

  lemma {:induction false} RunKeepsInv(st: State, steps: seq<Step>)
    requires Inv(st)
    ensures Inv(Run(st, steps))
    decreases |steps|
  {
    if steps != [] {
      NextKeepsInv(st, steps[0]);
      RunKeepsInv(Next(st, steps[0]), steps[1..]);
    }
  }

  // ---- the rendezvous ---------------------------------------------------

  /** What a finished call of Await may answer in a state: None, or the result of the one call of
      Solve under its key that took its own callback; that result exactly, if the callback woke it. */
  ghost predicate Rendezvous(st: State, w: nat) {
    w in st.waiters && !st.waiters[w].stage.Waiting? ==>
      var waiter := st.waiters[w];
      && (waiter.stage.result != None_ || waiter.stage.byCallback ==>
            && waiter.takenBy.Some? && waiter.takenBy.value in st.solvers
            && var solver := st.solvers[waiter.takenBy.value];
               solver.key == waiter.key && solver.took == Some(w) && solver.result == waiter.stage.result)
  }

  /** In every interleaving: answers are explained, every callback fires at most once, and no call of
      Solve fires two. */
  lemma AwaitAnswers(steps: seq<Step>, w: nat, i: nat, j: nat)
    ensures var st := Run(EMPTY, steps);
            && Rendezvous(st, w)
            && (i < j < |st.firings| ==>
                  st.firings[i].0 != st.firings[j].0 && st.firings[i].1 != st.firings[j].1)
  {
    RunKeepsInv(EMPTY, steps);
    var st := Run(EMPTY, steps);
    assert GoodWaiter(st, w);
    if w in st.waiters && st.waiters[w].takenBy.Some? {
      assert GoodSolver(st, st.waiters[w].takenBy.value);
    }
  }

  /** Cleanup is by key, so two calls under one key disturb each other: when the first gives up, it
      deletes the second's callback, and a later Solve wakes nobody. */
  lemma SecondWaiterCanBeLost(k: Key, result: VerifyResult)
    ensures
      var steps := [Register(1, k), Register(2, k), Expire(1), Wake(1), Leave(1), Take(7, k, result)];
      var st := Run(EMPTY, steps);
      && 2 in st.waiters && st.waiters[2].stage.Waiting?
      && 7 in st.solvers && st.solvers[7].took == None
  {
    var s1 := Next(EMPTY, Register(1, k));
    var s2 := Next(s1, Register(2, k));
    var s3 := Next(s2, Expire(1));
    var s4 := Next(s3, Wake(1));
    var s5 := Next(s4, Leave(1));
    var s6 := Next(s5, Take(7, k, result));
    assert s6.waiters[2].stage.Waiting? && s6.solvers[7].took == None;
    var steps := [Register(1, k), Register(2, k), Expire(1), Wake(1), Leave(1), Take(7, k, result)];
    RunStep(EMPTY, steps, 0);
    RunStep(s1, steps, 1);
    RunStep(s2, steps, 2);
    RunStep(s3, steps, 3);
    RunStep(s4, steps, 4);
    RunStep(s5, steps, 5);
    assert steps[0..] == steps && Run(s6, steps[6..]) == s6;
  }

  lemma RunStep(st: State, steps: seq<Step>, i: nat)
    requires i < |steps|
    ensures Run(st, steps[i..]) == Run(Next(st, steps[i]), steps[i + 1..])
  {
    assert steps[i..][1..] == steps[i + 1..];
  }

  // ---- when a Solve reaches a waiter ------------------------------------

  /** An effective step that stores or deletes under the key: another registration, a Solve, or the
      cleanup of any waiter under it. */
  predicate Disturbs(st: State, step: Step, k: Key) {
    Due(st, step)
    && match step
       case Register(_, key) => key == k
       case Take(_, key, _) => key == k
       case Leave(w) => st.waiters[w].key == k
       case _ => false
  }

  predicate Undisturbed(st: State, steps: seq<Step>, k: Key)
    decreases |steps|
  {
    steps == [] || (!Disturbs(st, steps[0], k) && Undisturbed(Next(st, steps[0]), steps[1..], k))
  }

  /** Does the map hold this waiter's callback under the key? */
  predicate Holds(st: State, k: Key, w: nat) {
    k in st.callbacks && st.callbacks[k] == w
  }

  /** A registered waiter's callback stays until the first disturbance and never comes back. */
  lemma {:induction false} HeldIff(st: State, steps: seq<Step>, k: Key, w: nat)
    requires w in st.waiters
    ensures w in Run(st, steps).waiters
    ensures Holds(Run(st, steps), k, w) <==> Holds(st, k, w) && Undisturbed(st, steps, k)
    decreases |steps|
  {
    if steps != [] {
      HeldIff(Next(st, steps[0]), steps[1..], k, w);
    }
  }

  /** In every interleaving: a Solve takes a waiter's callback exactly when, since that waiter
      registered, nobody else has registered, solved or cleaned up under its key. */
  lemma SolveTakesIff(before: seq<Step>, w: nat, k: Key, after: seq<Step>, s: nat, result: VerifyResult)
    requires Due(Run(EMPTY, before), Register(w, k))
    requires s !in Run(Next(Run(EMPTY, before), Register(w, k)), after).solvers
    ensures var registered := Next(Run(EMPTY, before), Register(w, k));
            Next(Run(registered, after), Take(s, k, result)).solvers[s].took == Some(w) <==> Undisturbed(registered, after, k)
  {
    HeldIff(Next(Run(EMPTY, before), Register(w, k)), after, k, w);
  }

  /** Every earlier call of Await under the key has returned. */
  ghost predicate NoneOpen(st: State, k: Key) {
    forall v :: v in st.waiters && st.waiters[v].key == k ==> st.waiters[v].stage.Left?
  }

  /** No call of Await or Solve under the key starts. */
  predicate NoneStarts(st: State, steps: seq<Step>, k: Key)
    decreases |steps|
  {
    steps == [] ||
      (!(Due(st, steps[0]) && ((steps[0].Register? && steps[0].key == k) || (steps[0].Take? && steps[0].key == k)))
       && NoneStarts(Next(st, steps[0]), steps[1..], k))
  }

  /** One call only is open under the key. */
  ghost predicate OnlyOpen(st: State, k: Key, w: nat) {
    w in st.waiters && st.waiters[w].key == k
    && forall v :: v in st.waiters && st.waiters[v].key == k && v != w ==> st.waiters[v].stage.Left?
  }

  lemma {:induction false} LeftForGood(st: State, steps: seq<Step>, w: nat)
    requires w in st.waiters && st.waiters[w].stage.Left?
    ensures w in Run(st, steps).waiters && Run(st, steps).waiters[w].stage.Left?
    decreases |steps|
  {
    if steps != [] {
      LeftForGood(Next(st, steps[0]), steps[1..], w);
    }
  }

  /** While one call is open under a key and none starts, the key is left alone until it returns. */
  lemma {:induction false} AloneIsUndisturbed(st: State, steps: seq<Step>, k: Key, w: nat)
    requires OnlyOpen(st, k, w) && NoneStarts(st, steps, k)
    requires w in Run(st, steps).waiters && !Run(st, steps).waiters[w].stage.Left?
    ensures Undisturbed(st, steps, k)
    decreases |steps|
  {
    if steps != [] {
      var n := Next(st, steps[0]);
      if Disturbs(st, steps[0], k) {
        assert steps[0] == Leave(w) && n.waiters[w].stage.Left?;
        LeftForGood(n, steps[1..], w);
      }
      AloneIsUndisturbed(n, steps[1..], k, w);
    }
  }

  ghost predicate WokenWith(st: State, w: nat, result: VerifyResult) {
    w in st.waiters && st.waiters[w].stage == Woken(result, true)
  }

  /** What a Solve was called with and whom it took never changes. */
  lemma {:induction false} SolverStays(st: State, steps: seq<Step>, s: nat)
    requires s in st.solvers
    ensures var n := Run(st, steps);
            s in n.solvers && n.solvers[s].took == st.solvers[s].took && n.solvers[s].result == st.solvers[s].result
    decreases |steps|
  {
    if steps != [] {
      SolverStays(Next(st, steps[0]), steps[1..], s);
    }
  }

  /** For callers: if calls under one key do not overlap, a Solve takes the one that is open. Whatever
      happens later, that call does not return before its own context ends or with another result; and
      it can return with this one by the callback's two statements. */
  lemma SolveWakes(before: seq<Step>, w: nat, k: Key, after: seq<Step>, s: nat, result: VerifyResult, later: seq<Step>)
    requires Due(Run(EMPTY, before), Register(w, k)) && NoneOpen(Run(EMPTY, before), k)
    requires var registered := Next(Run(EMPTY, before), Register(w, k));
             && NoneStarts(registered, after, k)
             && w in Run(registered, after).waiters && !Run(registered, after).waiters[w].stage.Left?
             && s !in Run(registered, after).solvers
    ensures var taken := Next(Run(Next(Run(EMPTY, before), Register(w, k)), after), Take(s, k, result));
            var n := Run(taken, later);
            && taken.solvers[s].took == Some(w)
            && w in n.waiters
            && (!n.waiters[w].stage.Waiting? && !n.waiters[w].expired ==> n.waiters[w].stage.result == result)
            && (taken.waiters[w].stage.Waiting? ==>
                  WokenWith(Run(taken, [StoreResult(s), Cancel(s), Wake(w)]), w, result))
  {
    var start := Run(EMPTY, before);
    var registered := Next(start, Register(w, k));
    var end := Run(registered, after);
    var taken := Next(end, Take(s, k, result));
    AloneIsUndisturbed(registered, after, k, w);
    SolveTakesIff(before, w, k, after, s, result);
    RunKeepsInv(EMPTY, before);
    NextKeepsInv(start, Register(w, k));
    RunKeepsInv(registered, after);
    NextKeepsInv(end, Take(s, k, result));
    TakenAnswers(taken, s, w, later);
    if taken.waiters[w].stage.Waiting? {
      CallbackWakes(taken, s, w);
    }
  }

  lemma TakenAnswers(taken: State, s: nat, w: nat, later: seq<Step>)
    requires Inv(taken) && s in taken.solvers && taken.solvers[s].took == Some(w)
    ensures var n := Run(taken, later);
            w in n.waiters
            && (!n.waiters[w].stage.Waiting? && !n.waiters[w].expired ==> n.waiters[w].stage.result == taken.solvers[s].result)
  {
    RunKeepsInv(taken, later);
    SolverStays(taken, later, s);
    var n := Run(taken, later);
    assert GoodSolver(n, s);
    assert GoodWaiter(n, w);
  }

  /** The callback's two statements and the wake-up, each due when its turn comes. */
  lemma CallbackWakes(taken: State, s: nat, w: nat)
    requires w in taken.waiters && taken.waiters[w].stage.Waiting?
    requires s in taken.solvers && taken.solvers[s].took == Some(w) && taken.solvers[s].fired == NotYet
    ensures WokenWith(Run(taken, [StoreResult(s), Cancel(s), Wake(w)]), w, taken.solvers[s].result)
  {
    var steps := [StoreResult(s), Cancel(s), Wake(w)];
    var s1 := Next(taken, StoreResult(s));
    var s2 := Next(s1, Cancel(s));
    var s3 := Next(s2, Wake(w));
    assert steps[0..] == steps && Run(s3, steps[3..]) == s3;
    RunStep(taken, steps, 0);
    RunStep(s1, steps, 1);
    RunStep(s2, steps, 2);
  }

  /** A second registration alone already loses the first waiter, whatever else happens. */
  lemma FirstWaiterIsReplaced(before: seq<Step>, w: nat, k: Key, v: nat, after: seq<Step>, s: nat, result: VerifyResult)
    requires Due(Run(EMPTY, before), Register(w, k)) && Due(Next(Run(EMPTY, before), Register(w, k)), Register(v, k))
    requires s !in Run(Next(Run(EMPTY, before), Register(w, k)), [Register(v, k)] + after).solvers
    ensures var registered := Next(Run(EMPTY, before), Register(w, k));
            Next(Run(registered, [Register(v, k)] + after), Take(s, k, result)).solvers[s].took != Some(w)
  {
    SolveTakesIff(before, w, k, [Register(v, k)] + after, s, result);
  }

  // ---- the object -------------------------------------------------------

  class Awaiter {
    var callbacks: map<Key, nat>
    var waiters: map<nat, Waiter>
    var solvers: map<nat, Solver>
    var firings: seq<(nat, nat)>

    ghost function Snapshot(): State
      reads this
    {
      State(callbacks, waiters, solvers, firings)
    }

    constructor ()
      ensures Snapshot() == EMPTY
    {
      callbacks, waiters, solvers, firings := map[], map[], map[], [];
    }

    /** Await up to blocking. */
    method Begin(w: nat, key: Key)
      requires Due(Snapshot(), Register(w, key))
      modifies this
      ensures Snapshot() == Next(old(Snapshot()), Register(w, key))
    {
      waiters := waiters[w := Waiter(key, None_, false, false, Waiting, None)];
      callbacks := callbacks[key := w];
    }

    method EndContext(w: nat)
      requires Due(Snapshot(), Expire(w))
      modifies this
      ensures Snapshot() == Next(old(Snapshot()), Expire(w))
    {
      waiters := waiters[w := waiters[w].(expired := true)];
    }

    /** Await from unblocking to loading the result. */
    method Load(w: nat) returns (result: VerifyResult)
      requires Due(Snapshot(), Wake(w))
      modifies this
      ensures Snapshot() == Next(old(Snapshot()), Wake(w))
      ensures waiters[w].stage == Woken(result, waiters[w].cancelled)
    {
      result := waiters[w].cell;
      waiters := waiters[w := waiters[w].(stage := Woken(result, waiters[w].cancelled))];
    }

    /** Await's deferred cleanup. */
    method Cleanup(w: nat)
      requires Due(Snapshot(), Leave(w))
      modifies this
      ensures Snapshot() == Next(old(Snapshot()), Leave(w))
    {
      callbacks := callbacks - {waiters[w].key};
      waiters := waiters[w := waiters[w].(stage := Left(waiters[w].stage.result, waiters[w].stage.byCallback))];
    }

    /** Solve up to calling the callback. */
    method GetAndDel(s: nat, key: Key, result: VerifyResult)
      requires Inv(Snapshot()) && Due(Snapshot(), Take(s, key, result))
      modifies this
      ensures Snapshot() == Next(old(Snapshot()), Take(s, key, result))
    {
      assert GoodCallback(Snapshot(), key);
      if key in callbacks {
        var w := callbacks[key];
        waiters := waiters[w := waiters[w].(takenBy := Some(s))];
        solvers := solvers[s := Solver(key, result, Some(w), NotYet)];
      } else {
        solvers := solvers[s := Solver(key, result, None, NotYet)];
      }
      callbacks := callbacks - {key};
    }

    /** The callback's first statement. */
    method Store(s: nat)
      requires Due(Snapshot(), StoreResult(s))
      modifies this
      ensures Snapshot() == Next(old(Snapshot()), StoreResult(s))
    {
      var w := solvers[s].took.value;
      waiters := waiters[w := waiters[w].(cell := solvers[s].result)];
      solvers := solvers[s := solvers[s].(fired := Stored)];
      firings := firings + [(s, w)];
    }

    /** The callback's second statement. */
    method CancelContext(s: nat)
      requires Due(Snapshot(), Cancel(s))
      modifies this
      ensures Snapshot() == Next(old(Snapshot()), Cancel(s))
    {
      var w := solvers[s].took.value;
      waiters := waiters[w := waiters[w].(cancelled := true)];
      solvers := solvers[s := solvers[s].(fired := Cancelled)];
    }
  }
}
