/** The promise-chain lock that serialises updates of `failureState`, and the failure counter it protects. */
module FailureLock {
  import opened Sequences

  datatype FailureState = FailureState(consecutive: nat, first: Option<int>, last: Option<int>)

  datatype Review = ConsecutiveFailures | LongOutage

  datatype Evaluation = Evaluation(state: FailureState, review: Option<Review>)

  const NO_FAILURES := FailureState(0, None, None)

  const OUTAGE_MS := 10 * 60_000

  function Current(s: Option<FailureState>): FailureState {
    if s.Some? then s.value else NO_FAILURES
  }

  /** `evaluateNotificationFailure`: a delivery resets, a failure counts. */
  function Evaluate(current: Option<FailureState>, delivered: bool, at: int): Evaluation {
    if delivered then Evaluation(NO_FAILURES, None)
    else
      var previous := Current(current);
      var first := if previous.first.Some? then previous.first.value else at;
      var state := FailureState(previous.consecutive + 1, Some(first), Some(at));
      Evaluation(state,
                 if state.consecutive >= 3 then Some(ConsecutiveFailures)
                 else if at - first >= OUTAGE_MS then Some(LongOutage)
                 else None)
  }

  /** How one tracked dispatch ends. */
  datatype Outcome = Delivered(at: int) | ProviderFailed(at: int) | CooldownSkipped | Threw

  /** The state a dispatch hands back for its outcome; a throwing dispatch hands back nothing. */
  function NextState(current: Option<FailureState>, o: Outcome): Option<FailureState> {
    match o
    case Delivered(at) => Some(Evaluate(current, true, at).state)
    case ProviderFailed(at) => Some(Evaluate(current, false, at).state)
    case CooldownSkipped => Some(Current(current))
    case Threw => current
  }

  /** One dispatch after another, with nobody in between. */
  function Fold(s: Option<FailureState>, outcomes: seq<Outcome>): Option<FailureState> {
    if outcomes == [] then s
    else NextState(Fold(s, outcomes[..|outcomes| - 1]), outcomes[|outcomes| - 1])
  }

  lemma FoldStep(s: Option<FailureState>, outcomes: seq<Outcome>, o: Outcome)
    ensures Fold(s, outcomes + [o]) == NextState(Fold(s, outcomes), o)
  {
    assert (outcomes + [o])[..|outcomes|] == outcomes;
  }

  // ----- what the fold means -----

  /** The times of the provider failures since the last delivery. Skips and exceptions leave no trace. */
  function FailureRun(outcomes: seq<Outcome>): seq<int> {
    if outcomes == [] then []
    else
      var before := FailureRun(outcomes[..|outcomes| - 1]);
      match outcomes[|outcomes| - 1]
      case Delivered(_) => []
      case ProviderFailed(at) => before + [at]
      case CooldownSkipped => before
      case Threw => before
  }

  function Summary(times: seq<int>): FailureState {
    if times == [] then NO_FAILURES else FailureState(|times|, Some(times[0]), Some(times[|times| - 1]))
  }

  /** The accumulated state is the length and the ends of the current failure run. */
  lemma {:induction false} FoldSummary(outcomes: seq<Outcome>)
    ensures Current(Fold(None, outcomes)) == Summary(FailureRun(outcomes))
  {
    if outcomes != [] {
      FoldSummary(outcomes[..|outcomes| - 1]);
    }
  }

  /** A review is asked for exactly when the run that ends in this failure has three members
      or spans ten minutes. */
  lemma ReviewExactly(outcomes: seq<Outcome>, at: int)
    ensures var run := FailureRun(outcomes + [ProviderFailed(at)]);
            var e := Evaluate(Fold(None, outcomes), false, at);
            && run != [] && run[|run| - 1] == at
            && (e.review.Some? <==> |run| >= 3 || at - run[0] >= 600_000)
            && (e.review == Some(ConsecutiveFailures) <==> |run| >= 3)
  {
    FoldSummary(outcomes);
    assert (outcomes + [ProviderFailed(at)])[..|outcomes|] == outcomes;
  }

  // ----- the lock -----

  datatype Phase =
    | Waiting
    | Entered
    | Evaluated(outcome: Outcome, next: FailureState)
    | Leaving(outcome: Outcome)
    | Released(outcome: Outcome)

  /** One call: the chained promise it waits for, if any was registered when it arrived, and how far it got. */
  datatype Call = Call(waitsFor: Option<nat>, phase: Phase)

  /** Calls in arrival order; `tail` is the promise registered for the options object; `settled` holds the calls
      whose chained promise has settled. */
  datatype World = World(calls: seq<Call>, tail: Option<nat>, settled: set<nat>, failureState: Option<FailureState>)

  datatype Action =
    | Arrive
    | Settle(i: nat)
    | Enter(i: nat)
    | Compute(i: nat, outcome: Outcome)
    | Write(i: nat)
    | Abort(i: nat)
    | Release(i: nat)

  ghost predicate MayPass(w: World, i: nat)
    requires i < |w.calls|
  {
    w.calls[i].waitsFor.None? || w.calls[i].waitsFor.value in w.settled
  }

  ghost predicate Enabled(w: World, a: Action) {
    match a
    case Arrive => true
    case Settle(i) => i < |w.calls| && w.calls[i].phase.Released? && i !in w.settled && MayPass(w, i)
    case Enter(i) => i < |w.calls| && w.calls[i].phase.Waiting? && MayPass(w, i)
    case Compute(i, o) => i < |w.calls| && w.calls[i].phase.Entered? && o != Threw
    case Write(i) => i < |w.calls| && w.calls[i].phase.Evaluated?
    case Abort(i) => i < |w.calls| && (w.calls[i].phase.Entered? || w.calls[i].phase.Evaluated?)
    case Release(i) => i < |w.calls| && w.calls[i].phase.Leaving?
  }

  ghost function SetPhase(w: World, i: nat, p: Phase): World
    requires i < |w.calls|
  {
    w.(calls := w.calls[i := w.calls[i].(phase := p)])
  }

  /** One step. Releasing removes the registered promise only if it is still the caller's own. */
  ghost function Step(w: World, a: Action): World
    requires Enabled(w, a)
  {
    match a
    case Arrive => w.(calls := w.calls + [Call(w.tail, Waiting)], tail := Some(|w.calls|))
    case Settle(i) => w.(settled := w.settled + {i})
    case Enter(i) => SetPhase(w, i, Entered)
    case Compute(i, o) => SetPhase(w, i, Evaluated(o, Current(NextState(w.failureState, o))))
    case Write(i) =>
      SetPhase(w, i, Leaving(w.calls[i].phase.outcome)).(failureState := Some(w.calls[i].phase.next))
    case Abort(i) => SetPhase(w, i, Leaving(Threw))
    case Release(i) =>
      var w' := SetPhase(w, i, Released(w.calls[i].phase.outcome));
      if w.tail == Some(i) then w'.(tail := None) else w'
  }

  ghost function Start(s: Option<FailureState>): World {
    World([], None, {}, s)
  }

  ghost predicate Legal(w: World, run: seq<Action>)
    decreases |run|
  {
    run == [] || (Enabled(w, run[0]) && Legal(Step(w, run[0]), run[1..]))
  }

  ghost function After(w: World, run: seq<Action>): World
    requires Legal(w, run)
    decreases |run|
  {
    if run == [] then w else After(Step(w, run[0]), run[1..])
  }

  ghost predicate InCriticalSection(p: Phase) {
    p.Entered? || p.Evaluated? || p.Leaving?
  }

  /** Outcomes of the first `k` calls, which have all released. */
  ghost function Outcomes(w: World, k: nat): seq<Outcome>
    requires k <= |w.calls| && forall i | 0 <= i < k :: w.calls[i].phase.Released?
  {
    seq(k, i requires 0 <= i < k => w.calls[i].phase.outcome)
  }

  /** The first `k` calls have released, the calls after `k` still wait, and only call `k` may be inside. */
  ghost predicate Frontier(w: World, k: nat) {
    && k <= |w.calls|
    && (forall i | 0 <= i < k :: w.calls[i].phase.Released?)
    && (k < |w.calls| ==> !w.calls[k].phase.Released?)
    && (forall i | k < i < |w.calls| :: w.calls[i].phase.Waiting?)
  }

  ghost predicate Chained(w: World, k: nat) {
    && (forall i | 0 <= i < |w.calls| :: w.calls[i].waitsFor.None? || w.calls[i].waitsFor == Some(i - 1))
    && (forall i | 0 <= i < |w.calls| && w.calls[i].waitsFor.None? :: i <= k)
    && (forall i | i in w.settled :: i < k)
    && (w.tail == if k == |w.calls| then None else Some(|w.calls| - 1))
  }

  /** What the shared state holds while call `k` is at the front. */
  ghost predicate Accumulated(w: World, k: nat, s: Option<FailureState>)
    requires Frontier(w, k)
  {
    var before := Fold(s, Outcomes(w, k));
    if k < |w.calls| && w.calls[k].phase.Leaving? then
      w.failureState == NextState(before, w.calls[k].phase.outcome)
    else
      && w.failureState == before
      && (k < |w.calls| && w.calls[k].phase.Evaluated? ==>
            NextState(before, w.calls[k].phase.outcome) == Some(w.calls[k].phase.next))
  }

  ghost predicate Invariant(w: World, k: nat, s: Option<FailureState>) {
    Frontier(w, k) && Chained(w, k) && Accumulated(w, k, s)
  }

  /** Only the call at the front can pass the lock. */
  lemma OnlyFrontPasses(w: World, k: nat, i: nat)
    requires Frontier(w, k) && Chained(w, k) && i < |w.calls| && w.calls[i].phase.Waiting? && MayPass(w, i)
    ensures i == k
  {}

  lemma SameOutcomes(w: World, w': World, k: nat)
    requires k <= |w.calls| && k <= |w'.calls|
    requires forall i | 0 <= i < k :: w.calls[i].phase.Released? && w'.calls[i].phase == w.calls[i].phase
    ensures Outcomes(w', k) == Outcomes(w, k)
  {}

  lemma ReleaseKeepsInvariant(w: World, k: nat, s: Option<FailureState>)
    requires Invariant(w, k, s) && Enabled(w, Release(k))
    ensures Invariant(Step(w, Release(k)), k + 1, s)
  {
    var w' := Step(w, Release(k));
    assert forall i | 0 <= i < |w.calls| && i != k :: w'.calls[i] == w.calls[i];
    SameOutcomes(w, w', k);
    assert Outcomes(w', k + 1) == Outcomes(w, k) + [w.calls[k].phase.outcome];
    FoldStep(s, Outcomes(w, k), w.calls[k].phase.outcome);
  }

  lemma ArriveKeepsInvariant(w: World, k: nat, s: Option<FailureState>)
    requires Invariant(w, k, s)
    ensures Invariant(Step(w, Arrive), k, s)
  {
    SameOutcomes(w, Step(w, Arrive), k);
  }

  lemma StepKeepsInvariant(w: World, a: Action, k: nat, s: Option<FailureState>) returns (k': nat)
    requires Invariant(w, k, s) && Enabled(w, a)
    ensures Invariant(Step(w, a), k', s)
  {
    var w' := Step(w, a);
    k' := k;
    match a
    case Arrive =>
      ArriveKeepsInvariant(w, k, s);
    case Settle(i) =>
    case Enter(i) =>
      OnlyFrontPasses(w, k, i);
      SameOutcomes(w, w', k);
    case Compute(i, o) =>
      assert i == k;
      SameOutcomes(w, w', k);
    case Write(i) =>
      assert i == k;
      SameOutcomes(w, w', k);
    case Abort(i) =>
      assert i == k;
      SameOutcomes(w, w', k);
    case Release(i) =>
      assert i == k;
      k' := k + 1;
      ReleaseKeepsInvariant(w, k, s);
  }

  lemma {:induction false} RunKeepsInvariant(w: World, run: seq<Action>, k: nat, s: Option<FailureState>)
    returns (k': nat)
    requires Invariant(w, k, s) && Legal(w, run)
    ensures Invariant(After(w, run), k', s)
    decreases |run|
  {
    hide Invariant, Step, Enabled;
    if run == [] {
      k' := k;
    } else {
      var m := StepKeepsInvariant(w, run[0], k, s);
      k' := RunKeepsInvariant(Step(w, run[0]), run[1..], m, s);
    }
  }

  /** In every run at most one call is between entering and releasing, and calls pass in arrival order,
      although the registered promise is deleted whenever the last caller leaves. */
  lemma MutualExclusionInOrder(s: Option<FailureState>, run: seq<Action>)
    requires Legal(Start(s), run)
    ensures var w := After(Start(s), run);
            forall i, j | 0 <= i < j < |w.calls| && !w.calls[j].phase.Waiting? :: w.calls[i].phase.Released?
  {
    var k := RunKeepsInvariant(Start(s), run, 0, s);
  }

  ghost predicate Finished(w: World) {
    forall i | 0 <= i < |w.calls| :: w.calls[i].phase.Released?
  }

  /** In every reachable state there is a prefix of the arrivals that has finished; outside a critical section the
      shared state is exactly the sequential fold of that prefix's outcomes in arrival order. */
  lemma FailureStateIsFold(s: Option<FailureState>, run: seq<Action>) returns (k: nat)
    requires Legal(Start(s), run)
    ensures var w := After(Start(s), run);
            && Frontier(w, k)
            && ((forall i | 0 <= i < |w.calls| :: !InCriticalSection(w.calls[i].phase)) ==>
                  w.failureState == Fold(s, Outcomes(w, k)))
            && (Finished(w) ==> k == |w.calls|)
  {
    k := RunKeepsInvariant(Start(s), run, 0, s);
  }

  /** Starting from no state, once every call has finished the counter is the current failure run of the
      outcomes in arrival order: cooldown skips and throwing dispatches changed nothing. */
  lemma FailureStateMeaning(run: seq<Action>)
    requires Legal(Start(None), run) && Finished(After(Start(None), run))
    ensures var w := After(Start(None), run);
            Current(w.failureState) == Summary(FailureRun(Outcomes(w, |w.calls|)))
  {
    var k := FailureStateIsFold(None, run);
    FoldSummary(Outcomes(After(Start(None), run), k));
  }

  /** Nobody waits for ever: while some call is unfinished, some call can move or some promise can settle. */
  lemma LockMakesProgress(s: Option<FailureState>, run: seq<Action>)
    requires Legal(Start(s), run) && !Finished(After(Start(s), run))
    ensures exists a :: a != Arrive && Enabled(After(Start(s), run), a)
  {
    var k := RunKeepsInvariant(Start(s), run, 0, s);
    var w := After(Start(s), run);
    match w.calls[k].phase
    case Waiting =>
      if MayPass(w, k) {
        assert Enabled(w, Enter(k));
      } else {
        var i := FirstUnsettled(w, k, k - 1);
        assert Enabled(w, Settle(i));
      }
    case Entered => assert Enabled(w, Abort(k));
    case Evaluated(_, _) => assert Enabled(w, Write(k));
    case Leaving(_) => assert Enabled(w, Release(k));
  }

  /** Following unsettled promises back ends at one that can settle now. */
  lemma FirstUnsettled(w: World, k: nat, j: nat) returns (i: nat)
    requires Frontier(w, k) && Chained(w, k) && j < k && j !in w.settled
    ensures Enabled(w, Settle(i))
    decreases j
  {
    if MayPass(w, j) {
      i := j;
    } else {
      i := FirstUnsettled(w, k, j - 1);
    }
  }

  /** Steps that a call still has before it is released. */
  function StepsLeft(p: Phase): nat {
    match p
    case Waiting => 4
    case Entered => 3
    case Evaluated(_, _) => 2
    case Leaving(_) => 1
    case Released(_) => 0
  }

  /** What is left to do: steps of unfinished calls, and promises still to settle. */
  ghost function Work(calls: seq<Call>, settled: set<nat>): nat {
    if calls == [] then 0
    else
      var n := |calls| - 1;
      Work(calls[..n], settled) + StepsLeft(calls[n].phase) + if n in settled then 0 else 1
  }

  lemma {:induction false} WorkOfPhase(calls: seq<Call>, settled: set<nat>, i: nat, p: Phase)
    requires i < |calls|
    ensures Work(calls[i := calls[i].(phase := p)], settled) + StepsLeft(calls[i].phase)
         == Work(calls, settled) + StepsLeft(p)
  {
    var n := |calls| - 1;
    var changed := calls[i := calls[i].(phase := p)];
    if i < n {
      assert changed[..n] == calls[..n][i := calls[..n][i].(phase := p)];
      WorkOfPhase(calls[..n], settled, i, p);
    } else {
      assert changed[..n] == calls[..n];
    }
  }

  lemma {:induction false} WorkOfSettling(calls: seq<Call>, settled: set<nat>, i: nat)
    requires i !in settled
    ensures Work(calls, settled + {i}) == Work(calls, settled) - if i < |calls| then 1 else 0
  {
    if calls != [] {
      WorkOfSettling(calls[..|calls| - 1], settled, i);
    }
  }

  /** Every step other than an arrival leaves less to do. */
  lemma StepLeavesLess(w: World, a: Action)
    requires Enabled(w, a) && a != Arrive
    ensures Work(Step(w, a).calls, Step(w, a).settled) < Work(w.calls, w.settled)
  {
    hide Work;
    match a
    case Settle(i) => WorkOfSettling(w.calls, w.settled, i);
    case Enter(i) => WorkOfPhase(w.calls, w.settled, i, Entered);
    case Compute(i, o) =>
      WorkOfPhase(w.calls, w.settled, i, Evaluated(o, Current(NextState(w.failureState, o))));
    case Write(i) => WorkOfPhase(w.calls, w.settled, i, Leaving(w.calls[i].phase.outcome));
    case Abort(i) => WorkOfPhase(w.calls, w.settled, i, Leaving(Threw));
    case Release(i) => WorkOfPhase(w.calls, w.settled, i, Released(w.calls[i].phase.outcome));
  }

  lemma {:induction false} RunLeavesLess(w: World, rest: seq<Action>)
    requires Legal(w, rest) && Arrive !in rest
    ensures |rest| + Work(After(w, rest).calls, After(w, rest).settled) <= Work(w.calls, w.settled)
    decreases |rest|
  {
    hide Work, Step, Enabled;
    if rest != [] {
      assert rest[0] in rest;
      StepLeavesLess(w, rest[0]);
      RunLeavesLess(Step(w, rest[0]), rest[1..]);
    }
  }

  lemma {:induction false} RunThenRest(w: World, run: seq<Action>, rest: seq<Action>)
    requires Legal(w, run) && Legal(After(w, run), rest)
    ensures Legal(w, run + rest) && After(w, run + rest) == After(After(w, run), rest)
    decreases |run|
  {
    hide Step, Enabled;
    if run == [] {
      assert run + rest == rest;
    } else {
      assert (run + rest)[1..] == run[1..] + rest && (run + rest)[0] == run[0];
      RunThenRest(Step(w, run[0]), run[1..], rest);
    }
  }

  /** The lock drains: once arrivals stop, after any run, at most as many steps follow as there is work left, and
      where none can follow every call has finished. */
  lemma LockDrains(s: Option<FailureState>, run: seq<Action>, rest: seq<Action>)
    requires Legal(Start(s), run) && Legal(After(Start(s), run), rest) && Arrive !in rest
    ensures var w := After(Start(s), run); |rest| <= Work(w.calls, w.settled)
    ensures var end := After(After(Start(s), run), rest);
            (forall a | Enabled(end, a) :: a == Arrive) ==> Finished(end)
  {
    hide Work, Step, Enabled, Finished, Legal, After;
    RunLeavesLess(After(Start(s), run), rest);
    RunThenRest(Start(s), run, rest);
    if !Finished(After(Start(s), run + rest)) {
      LockMakesProgress(s, run + rest);
    }
  }
}
