/** `runExitPaperRuntime`: the exit workflow against ports that may answer anything or throw.
    Port calls are recorded as effects; a port's answer may depend on every call made before it. */
module ExitRuntime {
  import opened Sequences
  import opened ExitOrders
  import opened DecimalText

  datatype EvidenceKind = StrategyDecision | ExecutionResult | PnlStatus

  /** The execution status that evidence reports. */
  datatype ReportedStatus =
    | ReportedFilled | ReportedPartiallyFilled | ReportedOpen | ReportedCanceled | ReportedRejected | ReportedFailed

  datatype Reason =
    | DecisionMade | ExecutionReported(status: ReportedStatus) | PnlReported | DustClosed | BelowMinNotionalClosed
    | SizingFailed | ConstructionFailed | SubmitFailed | ExecutionRejectedByEngine | TerminalFailure
    | CancelLeftOpen | CancelFailed | PersistenceUnavailable

  /** One ledger item, reduced to what can be checked: its kind, its reason, whether it asks for manual review, and
      the quantities it reports. */
  datatype Evidence = Evidence(
    kind: EvidenceKind, reason: Reason, manualReview: bool, filled: Option<real>, remaining: Option<NumText>)

  datatype SubmitAnswer = SubmitThrows | SubmitRejected | SubmitAccepted(order: BrokerOrder)

  datatype CancelAnswer = CancelThrows | CancelReturns(order: BrokerOrder)

  datatype PortCall =
    | Submit(intent: ExitIntent)
    | CancelOrder(id: string)
    | Persist(order: BrokerOrder)
    | WriteEvidence(items: seq<Evidence>)
    | AlertAfterSubmit
    | AlertAfterCancel

  /** The answers of the ports, given the calls made so far. */
  datatype Environment = Environment(
    submit: seq<PortCall> -> SubmitAnswer, cancel: seq<PortCall> -> CancelAnswer,
    persistSucceeds: seq<PortCall> -> bool, writeSucceeds: seq<PortCall> -> bool)

  datatype Input = Input(
    kind: DecisionKind, sizing: Sizing, scope: Scope, policy: Policy, key: string,
    decisionTimeValid: bool, submitTimeValid: bool,
    persistenceConfigured: bool, writerConfigured: bool, alertsConfigured: bool)

  datatype RunStatus =
    | NoExitIntent | ExecutionRejected | ExecutionSubmitted | RemainingCancelRequoteCreated | RemainingCancelFailed

  datatype PersistenceStatus = NotApplicable | PersistenceNotConfigured | PersistenceRecorded | Unavailable

  datatype WriteStatus = WriterNotConfigured | WriteRecorded | WriteUnavailable

  /** `Raised` is an exception out of the workflow: an invalid date met while naming an evidence item. */
  datatype Outcome =
    | Raised
    | Returned(status: RunStatus, canceledOrder: Option<BrokerOrder>, remainingIntent: Option<ExitIntent>,
               evidence: seq<Evidence>, persistence: PersistenceStatus, written: WriteStatus)

  predicate Triggered(kind: DecisionKind) { kind == Reduce || kind == Exit }

  predicate TerminalFailureStatus(s: BrokerStatus) { s == Rejected || s == Failed }

  predicate OpenStatus(s: BrokerStatus) { s == Submitted || s == Accepted || s == PartiallyFilled }

  /** `hasOpenRemainingQuantity`: an unreadable remainder counts as open. */
  predicate HasOpenRemaining(order: BrokerOrder) {
    OpenStatus(order.status) && (order.remaining.Malformed? || order.remaining.value > 0.0)
  }

  function EvidenceStatus(s: BrokerStatus): ReportedStatus {
    match s
    case Filled => ReportedFilled
    case PartiallyFilled => ReportedPartiallyFilled
    case Submitted => ReportedOpen
    case Accepted => ReportedOpen
    case Canceled => ReportedCanceled
    case Rejected => ReportedRejected
    case _ => ReportedFailed
  }

  function FilledQuantity(intent: ExitIntent, order: BrokerOrder): real {
    if TerminalFailureStatus(order.status) then 0.0 else FilledPart(intent.quantity, order.remaining)
  }

  function ReportedRemaining(intent: ExitIntent, order: BrokerOrder): NumText {
    if TerminalFailureStatus(order.status) then Num(intent.quantity) else order.remaining
  }

  function RemainingPosition(scope: Scope, filled: real): NumText {
    if scope.total.Malformed? then scope.total
    else if scope.total.value - filled <= 0.0 then Num(0.0)
    else Num(scope.total.value - filled)
  }

  function ReviewItem(reason: Reason): Evidence {
    Evidence(ExecutionResult, reason, true, None, None)
  }

  function ExecutionItem(status: ReportedStatus, filled: real, remaining: NumText): Evidence {
    var review := status == ReportedRejected || status == ReportedFailed;
    Evidence(ExecutionResult, ExecutionReported(status), review, Some(filled), Some(remaining))
  }

  /** `evaluateRemainingBelowMinOrderNotional`: unreadable numbers decide nothing. */
  predicate BelowMinimum(intent: ExitIntent, remaining: NumText, policy: Policy) {
    remaining.Num? && policy.minOrderNotional.Num?
    && Notional(intent.price, remaining.value) < policy.minOrderNotional.value
  }

  // ----- ordering effects -----

  function Rank(c: PortCall): nat {
    match c
    case Submit(_) => 0
    case AlertAfterSubmit => 1
    case CancelOrder(_) => 2
    case AlertAfterCancel => 3
    case Persist(_) => 4
    case WriteEvidence(_) => 5
  }

  predicate IsAlert(c: PortCall) { c.AlertAfterSubmit? || c.AlertAfterCancel? }

  /** Calls come in workflow order, and only alerts may repeat: submit, cancel, persist and the evidence writer are
      each called at most once. */
  ghost predicate Disciplined(calls: seq<PortCall>) {
    forall i, j | 0 <= i < j < |calls| ::
      Rank(calls[i]) < Rank(calls[j]) || (Rank(calls[i]) == Rank(calls[j]) && IsAlert(calls[j]))
  }

  /** A disciplined history in which nothing beyond `rank` has been called. */
  ghost predicate Upto(calls: seq<PortCall>, rank: nat) {
    Disciplined(calls) && forall i | 0 <= i < |calls| :: Rank(calls[i]) <= rank
  }

  lemma Extend(calls: seq<PortCall>, rank: nat, c: PortCall)
    requires Upto(calls, rank) && (rank < Rank(c) || (rank == Rank(c) && IsAlert(c)))
    ensures Upto(calls + [c], Rank(c))
  {}

  /** In a disciplined history a port with lasting effects occurs at one place only. */
  lemma AtMostOnce(calls: seq<PortCall>, i: nat, j: nat)
    requires Disciplined(calls) && i < |calls| && j < |calls| && !IsAlert(calls[i])
    ensures Rank(calls[i]) == Rank(calls[j]) ==> i == j
  {}

  ghost predicate Called(calls: seq<PortCall>, rank: nat) {
    exists i | 0 <= i < |calls| :: Rank(calls[i]) == rank
  }

  lemma CalledAppend(calls: seq<PortCall>, c: PortCall, rank: nat)
    ensures Called(calls + [c], rank) <==> Called(calls, rank) || Rank(c) == rank
  {
    var after := calls + [c];
    if Called(calls, rank) {
      var i :| 0 <= i < |calls| && Rank(calls[i]) == rank;
      assert after[i] == calls[i];
    }
    if Rank(c) == rank {
      assert after[|calls|] == c;
    }
    if Called(after, rank) && Rank(c) != rank {
      var i :| 0 <= i < |after| && Rank(after[i]) == rank;
      assert i < |calls| && calls[i] == after[i];
    }
  }

  ghost predicate NeedsReview(items: seq<Evidence>) {
    exists i | 0 <= i < |items| :: items[i].manualReview
  }

  // ----- the steps around the ports -----

  /** `appendExitEvidenceSafely`: called once, last, with the list that is returned. */
  method WriteEvidenceSafely(input: Input, env: Environment, calls: seq<PortCall>, items: seq<Evidence>)
    returns (status: WriteStatus, after: seq<PortCall>)
    requires Upto(calls, 4)
    ensures Disciplined(after)
    ensures after == if input.writerConfigured then calls + [WriteEvidence(items)] else calls
    ensures status == if !input.writerConfigured then WriterNotConfigured
                      else if env.writeSucceeds(calls) then WriteRecorded else WriteUnavailable
  {
    if !input.writerConfigured {
      return WriterNotConfigured, calls;
    }
    after := calls + [WriteEvidence(items)];
    Extend(calls, 4, WriteEvidence(items));
    status := if env.writeSucceeds(calls) then WriteRecorded else WriteUnavailable;
  }

  /** `persistExitExecutionSafely`: a failure becomes manual review evidence, never a second attempt. */
  method PersistSafely(input: Input, env: Environment, calls: seq<PortCall>, order: BrokerOrder, items: seq<Evidence>)
    returns (status: PersistenceStatus, after: seq<PortCall>, items': seq<Evidence>)
    requires Upto(calls, 3)
    ensures Upto(after, 4)
    ensures after == if input.persistenceConfigured then calls + [Persist(order)] else calls
    ensures status == if !input.persistenceConfigured then PersistenceNotConfigured
                      else if env.persistSucceeds(calls) then PersistenceRecorded else Unavailable
    ensures items <= items'
    ensures items' == if status == Unavailable then items + [ReviewItem(PersistenceUnavailable)] else items
    ensures status == Unavailable || NeedsReview(items) ==> NeedsReview(items')
  {
    items' := items;
    if !input.persistenceConfigured {
      return PersistenceNotConfigured, calls, items;
    }
    after := calls + [Persist(order)];
    Extend(calls, 3, Persist(order));
    if env.persistSucceeds(calls) {
      status := PersistenceRecorded;
    } else {
      items' := items + [ReviewItem(PersistenceUnavailable)];
      assert items'[|items|].manualReview;
      status := Unavailable;
    }
  }

  /** Live-operations alerts are best effort: their result never reaches the workflow. */
  method AlertSafely(input: Input, calls: seq<PortCall>, c: PortCall) returns (after: seq<PortCall>)
    requires IsAlert(c) && Upto(calls, Rank(c))
    ensures Upto(after, Rank(c))
    ensures after == if input.alertsConfigured then calls + [c] else calls
  {
    after := calls;
    if input.alertsConfigured {
      after := calls + [c];
      Extend(calls, Rank(c), c);
    }
  }

  // ----- what every run satisfies -----

  ghost function Submission(input: Input): Option<ExitIntent> {
    CreateSubmission(input.kind, input.sizing, input.scope, input.key)
  }

  /** The requote of what an order left: the same price and effect under a key of its own. */
  function RequoteOf(intent: ExitIntent, id: string, quantity: real): ExitIntent {
    ExitIntent(quantity, intent.price, intent.price * quantity, intent.key + "-requote-" + id + "-1", intent.effect,
               if intent.effect == ExitPosition then intent.scope.(total := Num(quantity)) else intent.scope,
               Some(intent.key))
  }

  lemma RequoteIsOf(intent: ExitIntent, id: string, remaining: NumText)
    requires CreateRemaining(intent, remaining, id, 1, None).Some?
    ensures remaining.Num?
    ensures CreateRemaining(intent, remaining, id, 1, None).value == RequoteOf(intent, id, remaining.value)
  {
    assert DigitText(1) == "1";
  }

  /** A requote exists only after a cancel confirmed with nothing left, for a remainder above dust and worth at least
      the minimum order; what the first order filled and the requote together are the submitted quantity. */
  ghost predicate RequoteJustified(input: Input, order: BrokerOrder, canceled: Option<BrokerOrder>, requote: ExitIntent)
    requires Submission(input).Some?
  {
    var submitted := Submission(input).value;
    && OpenStatus(order.status)
    && canceled.Some? && canceled.value.status == Canceled && IsZero(canceled.value.remaining)
    && order.remaining == Num(requote.quantity) && requote.quantity > 0.0
    && (input.policy.dustThreshold.Num? ==> requote.quantity > input.policy.dustThreshold.value)
    && (input.policy.minOrderNotional.Num? ==>
          Notional(submitted.price, requote.quantity) >= input.policy.minOrderNotional.value)
    && requote == RequoteOf(submitted, order.id, requote.quantity)
    && FilledQuantity(submitted, order) + requote.quantity == submitted.quantity
  }

  /** Results that a human has to look at. */
  predicate MustReview(s: RunStatus) { s == ExecutionRejected || s == RemainingCancelFailed }

  /** Every effect of the run is one the workflow allows. */
  ghost predicate SafeEffects(input: Input, env: Environment, calls: seq<PortCall>) {
    && Disciplined(calls)
    && (forall i | 0 <= i < |calls| && calls[i].Submit? ::
          Triggered(input.kind) && input.sizing.valid && Submission(input) == Some(calls[i].intent))
    && (forall i | 0 <= i < |calls| && calls[i].CancelOrder? ::
          && env.submit([]).SubmitAccepted? && HasOpenRemaining(env.submit([]).order)
          && calls[i].id == env.submit([]).order.id)
    && (Called(calls, 2) || Called(calls, 4) ==> Called(calls, 0) && env.submit([]).SubmitAccepted?)
  }

  /** The result reports its failures and is written out exactly as returned. */
  ghost predicate SafeResult(input: Input, env: Environment, outcome: Outcome, calls: seq<PortCall>)
    requires outcome.Returned?
  {
    && (input.writerConfigured ==> calls != [] && calls[|calls| - 1] == WriteEvidence(outcome.evidence))
    && (!input.writerConfigured ==> forall i | 0 <= i < |calls| :: !calls[i].WriteEvidence?)
    && (MustReview(outcome.status) || outcome.persistence == Unavailable ==> NeedsReview(outcome.evidence))
    && (outcome.remainingIntent.Some? <==> outcome.status == RemainingCancelRequoteCreated)
    && (outcome.remainingIntent.Some? ==>
          && env.submit([]).SubmitAccepted? && Submission(input).Some?
          && RequoteJustified(input, env.submit([]).order, outcome.canceledOrder, outcome.remainingIntent.value))
    && (outcome.status == NoExitIntent ==> !Called(calls, 0))
    && (Called(calls, 0) && env.submit([]).SubmitAccepted? ==>
          && (Called(calls, 4) <==> input.persistenceConfigured)
          && (Called(calls, 2) <==> HasOpenRemaining(env.submit([]).order)))
  }

  /** The first evidence about an accepted order reports its quantities and the position they leave. */
  ghost predicate ReportsOrder(input: Input, intent: ExitIntent, order: BrokerOrder, evidence: seq<Evidence>) {
    && |evidence| >= 3
    && evidence[1] == ExecutionItem(EvidenceStatus(order.status), FilledQuantity(intent, order),
                                    ReportedRemaining(intent, order))
    && evidence[2] == Evidence(PnlStatus, PnlReported, false, None,
                               Some(RemainingPosition(input.scope, FilledQuantity(intent, order))))
  }

  /** The remainder is worth a new order: readable, above dust, not below the minimum notional. */
  ghost predicate WorthRequoting(input: Input, intent: ExitIntent, order: BrokerOrder) {
    && order.remaining.Num? && !Dust(order.remaining, input.policy.dustThreshold)
    && !BelowMinimum(intent, order.remaining, input.policy)
  }

  predicate Confirmed(canceled: BrokerOrder) { canceled.status == Canceled && IsZero(canceled.remaining) }

  /** The answer of the cancel decides between failure, requote and a closed order. */
  ghost predicate CancelDecides(input: Input, submitted: SubmitAnswer, outcome: Outcome, answer: CancelAnswer)
    requires outcome.Returned?
  {
    match answer
    case CancelThrows => outcome.status == RemainingCancelFailed && outcome.canceledOrder.None?
    case CancelReturns(canceled) =>
      && outcome.canceledOrder == Some(canceled)
      && (outcome.status == RemainingCancelFailed <==> !Confirmed(canceled))
      && submitted.SubmitAccepted? && Submission(input).Some?
      && (Confirmed(canceled) ==>
            (outcome.remainingIntent.Some? <==> WorthRequoting(input, Submission(input).value, submitted.order)))
  }

  /** The status follows from what the ports answered. */
  ghost predicate ExactStatus(input: Input, env: Environment, outcome: Outcome, calls: seq<PortCall>)
    requires outcome.Returned?
  {
    var answer := env.submit([]);
    var intent := Submission(input);
    && (outcome.status == NoExitIntent <==> !Triggered(input.kind))
    && (outcome.status == ExecutionRejected <==>
          Triggered(input.kind)
          && (!input.sizing.valid || intent.None? || !answer.SubmitAccepted?
              || TerminalFailureStatus(answer.order.status)))
    && (Called(calls, 0) <==> Triggered(input.kind) && input.sizing.valid && intent.Some?)
    && (Called(calls, 0) && answer.SubmitAccepted? ==>
          intent.Some? && ReportsOrder(input, intent.value, answer.order, outcome.evidence))
    && (outcome.canceledOrder.Some? || outcome.status == RemainingCancelFailed ==> Called(calls, 2))
  }

  /** The cancelled order and the persisted snapshot are the ones the broker answered. */
  ghost predicate ExactRecords(input: Input, env: Environment, outcome: Outcome, calls: seq<PortCall>)
    requires outcome.Returned?
  {
    && (forall i | 0 <= i < |calls| && calls[i].CancelOrder? ::
          CancelDecides(input, env.submit([]), outcome, env.cancel(calls[..i])))
    && (forall i | 0 <= i < |calls| && calls[i].Persist? ::
          env.submit([]).SubmitAccepted? && calls[i].order == FinalSnapshot(outcome, env.submit([]).order))
  }

  function FinalSnapshot(outcome: Outcome, order: BrokerOrder): BrokerOrder
    requires outcome.Returned?
  {
    if outcome.canceledOrder.Some? then outcome.canceledOrder.value else order
  }

  ghost predicate ExactResult(input: Input, env: Environment, outcome: Outcome, calls: seq<PortCall>)
    requires outcome.Returned?
  {
    ExactStatus(input, env, outcome, calls) && ExactRecords(input, env, outcome, calls)
  }

  /** The calls made before the end of a path: an order may be submitted, and only its own open remainder cancelled. */
  ghost predicate SafeSoFar(input: Input, env: Environment, calls: seq<PortCall>) {
    && Upto(calls, 3)
    && (forall i | 0 <= i < |calls| && calls[i].Submit? ::
          Triggered(input.kind) && input.sizing.valid && Submission(input) == Some(calls[i].intent))
    && (forall i | 0 <= i < |calls| && calls[i].CancelOrder? ::
          && env.submit([]).SubmitAccepted? && HasOpenRemaining(env.submit([]).order)
          && calls[i].id == env.submit([]).order.id)
    && (Called(calls, 2) ==> Called(calls, 0) && env.submit([]).SubmitAccepted?)
  }

  /** A path may end here: its status, its snapshot and its requote fit the calls made. */
  ghost predicate MayEnd(
      input: Input, env: Environment, calls: seq<PortCall>, items: seq<Evidence>, status: RunStatus,
      hasSnapshot: bool, canceledOrder: Option<BrokerOrder>, requote: Option<ExitIntent>) {
    && (MustReview(status) ==> NeedsReview(items))
    && (hasSnapshot <==> Called(calls, 0) && env.submit([]).SubmitAccepted?)
    && (hasSnapshot ==> (Called(calls, 2) <==> HasOpenRemaining(env.submit([]).order)))
    && (requote.Some? <==> status == RemainingCancelRequoteCreated)
    && (requote.Some? ==>
          && hasSnapshot && Submission(input).Some?
          && RequoteJustified(input, env.submit([]).order, canceledOrder, requote.value))
    && (status == NoExitIntent ==> !Called(calls, 0))
  }

  /** What the end of a path adds. */
  function EndCalls(input: Input, snapshot: Option<BrokerOrder>, items: seq<Evidence>): seq<PortCall> {
    (if snapshot.Some? && input.persistenceConfigured then [Persist(snapshot.value)] else [])
    + (if input.writerConfigured then [WriteEvidence(items)] else [])
  }

  lemma EndCallsFacts(input: Input, snapshot: Option<BrokerOrder>, items: seq<Evidence>)
    ensures var tail := EndCalls(input, snapshot, items);
            && (forall i | 0 <= i < |tail| :: tail[i].Persist? || tail[i].WriteEvidence?)
            && (forall i | 0 <= i < |tail| && tail[i].Persist? :: snapshot == Some(tail[i].order))
            && (Called(tail, 4) <==> snapshot.Some? && input.persistenceConfigured)
            && (input.writerConfigured ==> tail != [] && tail[|tail| - 1] == WriteEvidence(items))
            && (!input.writerConfigured ==> forall i | 0 <= i < |tail| :: tail[i].Persist?)
  {
    var tail := EndCalls(input, snapshot, items);
    if snapshot.Some? && input.persistenceConfigured {
      assert tail[0] == Persist(snapshot.value);
    }
  }

  lemma EndingKeepsEffects(
      input: Input, env: Environment, calls: seq<PortCall>, tail: seq<PortCall>, hasSnapshot: bool)
    requires SafeSoFar(input, env, calls) && Disciplined(calls + tail)
    requires forall i | 0 <= i < |tail| :: tail[i].Persist? || tail[i].WriteEvidence?
    requires Called(tail, 4) ==> hasSnapshot
    requires hasSnapshot ==> Called(calls, 0) && env.submit([]).SubmitAccepted?
    ensures SafeEffects(input, env, calls + tail)
  {
    hide Submission, HasOpenRemaining, Disciplined;
    var after := calls + tail;
    CalledKept(calls, tail);
    hide Called;
    forall i | 0 <= i < |after|
      ensures after[i].Submit? || after[i].CancelOrder? ==> i < |calls| && after[i] == calls[i]
    {
      if i >= |calls| {
        assert after[i] == tail[i - |calls|];
      }
    }
  }

  /** Persisting and writing at the end of a path keep it safe. */
  lemma EndingIsSafe(
      input: Input, env: Environment, calls: seq<PortCall>, snapshot: Option<BrokerOrder>, outcome: Outcome)
    requires outcome.Returned? && SafeSoFar(input, env, calls)
    requires outcome.persistence == Unavailable ==> NeedsReview(outcome.evidence)
    requires MayEnd(input, env, calls, outcome.evidence, outcome.status, snapshot.Some?, outcome.canceledOrder,
                    outcome.remainingIntent)
    requires Disciplined(calls + EndCalls(input, snapshot, outcome.evidence))
    ensures var after := calls + EndCalls(input, snapshot, outcome.evidence);
            SafeEffects(input, env, after) && SafeResult(input, env, outcome, after)
  {
    var tail := EndCalls(input, snapshot, outcome.evidence);
    EndCallsFacts(input, snapshot, outcome.evidence);
    EndingKeepsEffects(input, env, calls, tail, snapshot.Some?);
    CalledKept(calls, tail);
    hide RequoteJustified, Submission, HasOpenRemaining, SafeEffects, EndCalls, Called, Disciplined, NeedsReview;
    var after := calls + tail;
    if input.writerConfigured {
      assert after[|after| - 1] == tail[|tail| - 1];
    } else {
      forall i | 0 <= i < |after|
        ensures !after[i].WriteEvidence?
      {
        if i < |calls| {
          assert Rank(calls[i]) <= 3;
        } else {
          assert after[i] == tail[i - |calls|];
        }
      }
    }
  }

  /** Calls before the end stay called, and the tail adds only its own. */
  lemma CalledKept(before: seq<PortCall>, tail: seq<PortCall>)
    requires Upto(before, 3) && forall i | 0 <= i < |tail| :: Rank(tail[i]) >= 4
    ensures forall rank: nat | rank <= 3 :: Called(before + tail, rank) <==> Called(before, rank)
    ensures Called(before + tail, 4) <==> Called(tail, 4)
  {
    var after := before + tail;
    forall rank: nat | rank <= 3
      ensures Called(after, rank) <==> Called(before, rank)
    {
      if Called(before, rank) {
        var i :| 0 <= i < |before| && Rank(before[i]) == rank;
        assert after[i] == before[i];
      }
    }
    if Called(tail, 4) {
      var i :| 0 <= i < |tail| && Rank(tail[i]) == 4;
      assert after[|before| + i] == tail[i];
    }
    if Called(after, 4) {
      var i :| 0 <= i < |after| && Rank(after[i]) == 4;
      assert tail[i - |before|] == after[i];
    }
  }

  /** The end of every path: persist the final snapshot if there is one, then write the evidence. */
  method Finish(
      input: Input, env: Environment, calls: seq<PortCall>, items: seq<Evidence>, status: RunStatus,
      snapshot: Option<BrokerOrder>, canceledOrder: Option<BrokerOrder>, requote: Option<ExitIntent>)
    returns (outcome: Outcome, after: seq<PortCall>)
    requires SafeSoFar(input, env, calls)
    requires MayEnd(input, env, calls, items, status, snapshot.Some?, canceledOrder, requote)
    ensures SafeEffects(input, env, after)
    ensures outcome.Returned? && SafeResult(input, env, outcome, after)
    ensures outcome.status == status && outcome.canceledOrder == canceledOrder && outcome.remainingIntent == requote
    ensures outcome.evidence == items + PersistenceReview(outcome.persistence)
    ensures outcome.persistence == NotApplicable <==> snapshot.None?
    ensures outcome.persistence == PersistenceNotConfigured <==> snapshot.Some? && !input.persistenceConfigured
    ensures outcome.written == WriterNotConfigured <==> !input.writerConfigured
    ensures after == calls + EndCalls(input, snapshot, outcome.evidence)
  {
    hide RequoteJustified, Submission, HasOpenRemaining, SafeEffects, SafeResult;
    var persistence, items', middle := NotApplicable, items, calls;
    if snapshot.Some? {
      persistence, middle, items' := PersistSafely(input, env, calls, snapshot.value, items);
    }
    var written;
    written, after := WriteEvidenceSafely(input, env, middle, items');
    outcome := Returned(status, canceledOrder, requote, items', persistence, written);
    assert after == calls + EndCalls(input, snapshot, items');
    EndingIsSafe(input, env, calls, snapshot, outcome);
  }

  /** What a failed persistence adds to the evidence. */
  function PersistenceReview(status: PersistenceStatus): seq<Evidence> {
    if status == Unavailable then [ReviewItem(PersistenceUnavailable)] else []
  }

  /** The workflow raises for an invalid decision time, or for an invalid submit time met while naming a failure that
      precedes a broker order. */
  ghost predicate Raises(input: Input, env: Environment) {
    || !input.decisionTimeValid
    || (!input.submitTimeValid && Triggered(input.kind)
        && (!input.sizing.valid || Submission(input).None? || env.submit([]).SubmitThrows?))
  }

  lemma NothingIsSafe(input: Input, env: Environment)
    ensures SafeSoFar(input, env, []) && SafeEffects(input, env, [])
    ensures forall rank: nat :: !Called([], rank)
  {}

  lemma SubmitIsSafe(input: Input, env: Environment, intent: ExitIntent)
    requires Triggered(input.kind) && input.sizing.valid && Submission(input) == Some(intent)
    ensures SafeSoFar(input, env, [Submit(intent)]) && SafeEffects(input, env, [Submit(intent)])
  {
    OnlySubmitCalled(intent);
  }

  lemma SubmissionNeeds(input: Input)
    ensures Submission(input).Some? ==> Triggered(input.kind) && input.sizing.valid
  {}

  lemma OnlySubmitCalled(intent: ExitIntent)
    ensures Upto([Submit(intent)], 0) && Upto([Submit(intent)], 3)
    ensures forall rank: nat :: Called([Submit(intent)], rank) <==> rank == 0
  {
    assert [Submit(intent)][0] == Submit(intent);
    assert Called([Submit(intent)], 0);
  }

  // ----- the evidence a run must leave -----

  function Review(reason: Reason): Evidence { Evidence(ExecutionResult, reason, true, None, None) }

  predicate Refused(order: BrokerOrder) { order.status == Rejected || order.status == Failed }

  /** Submitted, accepted or partially filled, with a remainder that is positive or cannot be read. */
  predicate LeftOpen(order: BrokerOrder) {
    && (order.status == Submitted || order.status == Accepted || order.status == PartiallyFilled)
    && (order.remaining.Malformed? || order.remaining.value > 0.0)
  }

  function ReportOf(status: BrokerStatus): ReportedStatus {
    if status == Filled then ReportedFilled
    else if status == PartiallyFilled then ReportedPartiallyFilled
    else if status == Submitted || status == Accepted then ReportedOpen
    else if status == Canceled then ReportedCanceled
    else if status == Rejected then ReportedRejected
    else ReportedFailed
  }

  /** The request less what the broker says is left; nothing if that cannot be read. */
  function FilledBy(quantity: real, remaining: NumText): real {
    if remaining.Num? then quantity - remaining.value else 0.0
  }

  /** What is reported about an accepted order: its status and quantities, and the position its fill leaves. A refused
      order filled nothing. */
  function OrderReport(input: Input, intent: ExitIntent, order: BrokerOrder): seq<Evidence> {
    var filled := if Refused(order) then 0.0 else FilledBy(intent.quantity, order.remaining);
    var status := ReportOf(order.status);
    var position := if input.scope.total.Malformed? then input.scope.total
                    else Num(if input.scope.total.value > filled then input.scope.total.value - filled else 0.0);
    [Evidence(ExecutionResult, ExecutionReported(status), status == ReportedRejected || status == ReportedFailed,
              Some(filled), Some(if Refused(order) then Num(intent.quantity) else order.remaining)),
     Evidence(PnlStatus, PnlReported, false, None, Some(position))]
  }

  /** What is reported about the cancelled remainder of an order that was left open. */
  function CancelReport(input: Input, intent: ExitIntent, order: BrokerOrder, answer: CancelAnswer): seq<Evidence> {
    match answer
    case CancelThrows => [Review(CancelFailed)]
    case CancelReturns(canceled) =>
      if canceled.status != Canceled || canceled.remaining != Num(0.0) then [Review(CancelLeftOpen)]
      else
        var filled := FilledBy(intent.quantity, order.remaining);
        var dust, minimum := input.policy.dustThreshold, input.policy.minOrderNotional;
        [Evidence(ExecutionResult, ExecutionReported(ReportedCanceled), false, Some(filled), Some(canceled.remaining))]
        + (if order.remaining.Num? && dust.Num? && order.remaining.value <= dust.value then
             [Evidence(ExecutionResult, DustClosed, false, Some(filled), Some(order.remaining))]
           else if order.remaining.Num? && minimum.Num? && intent.price * order.remaining.value < minimum.value then
             [Evidence(ExecutionResult, BelowMinNotionalClosed, false, Some(filled), Some(order.remaining))]
           else [])
  }

  /** The evidence of a run, from the answers of the ports alone. */
  ghost function ExpectedEvidence(input: Input, answer: SubmitAnswer, cancel: Option<CancelAnswer>): seq<Evidence> {
    [Evidence(StrategyDecision, DecisionMade, false, None, None)] + (
      if input.kind == Hold || input.kind == Block then []
      else if !input.sizing.valid then [Review(SizingFailed)]
      else if Submission(input).None? then [Review(ConstructionFailed)]
      else match answer
        case SubmitThrows => [Review(SubmitFailed)]
        case SubmitRejected =>
          [Evidence(ExecutionResult, ExecutionReported(ReportedRejected), true, Some(0.0),
                    Some(input.sizing.executable)),
           Review(ExecutionRejectedByEngine)]
        case SubmitAccepted(order) =>
          var intent := Submission(input).value;
          OrderReport(input, intent, order) + (
            if Refused(order) then [Review(TerminalFailure)]
            else if LeftOpen(order) && cancel.Some? then CancelReport(input, intent, order, cancel.value)
            else []))
  }

  /** The evidence is what the answers call for, the cancel answer included where a cancel was called, and then a review
      item if persistence failed. */
  ghost predicate EvidenceAsExpected(input: Input, env: Environment, outcome: Outcome, calls: seq<PortCall>)
    requires outcome.Returned?
  {
    var answer, review := env.submit([]), PersistenceReview(outcome.persistence);
    && (forall i | 0 <= i < |calls| && calls[i].CancelOrder? ::
          outcome.evidence == ExpectedEvidence(input, answer, Some(env.cancel(calls[..i]))) + review)
    && ((forall i | 0 <= i < |calls| :: !calls[i].CancelOrder?) ==>
          outcome.evidence == ExpectedEvidence(input, answer, None) + review)
  }

  lemma ReportAgrees(input: Input, intent: ExitIntent, order: BrokerOrder)
    ensures OrderReport(input, intent, order)
         == [ExecutionItem(EvidenceStatus(order.status), FilledQuantity(intent, order),
                           ReportedRemaining(intent, order)),
             Evidence(PnlStatus, PnlReported, false, None,
                      Some(RemainingPosition(input.scope, FilledQuantity(intent, order))))]
    ensures Refused(order) <==> TerminalFailureStatus(order.status)
    ensures LeftOpen(order) <==> HasOpenRemaining(order)
  {}

  lemma NoCancelAtEnd(input: Input, snapshot: Option<BrokerOrder>, items: seq<Evidence>)
    ensures forall i | 0 <= i < |EndCalls(input, snapshot, items)| :: !EndCalls(input, snapshot, items)[i].CancelOrder?
  {}

  /** The evidence of a path that cancels nothing. */
  lemma WithoutCancelExpected(
      input: Input, env: Environment, outcome: Outcome, before: seq<PortCall>, snapshot: Option<BrokerOrder>,
      items: seq<Evidence>)
    requires outcome.Returned? && forall i | 0 <= i < |before| :: !before[i].CancelOrder?
    requires outcome.evidence == items + PersistenceReview(outcome.persistence)
    requires items == ExpectedEvidence(input, env.submit([]), None)
    ensures EvidenceAsExpected(input, env, outcome, before + EndCalls(input, snapshot, outcome.evidence))
  {
    hide ExpectedEvidence, PersistenceReview, EndCalls;
    NoCancelAtEnd(input, snapshot, outcome.evidence);
  }

  /** The evidence of a path whose one cancel comes right after `before`. */
  lemma WithCancelExpected(
      input: Input, env: Environment, outcome: Outcome, before: seq<PortCall>, calls: seq<PortCall>, intent: ExitIntent,
      id: string, snapshot: Option<BrokerOrder>, items: seq<Evidence>)
    requires outcome.Returned? && OnlySubmitted(before, intent) && before + [CancelOrder(id)] <= calls
    requires SubmittedAndCancelled(calls, intent, id)
    requires outcome.evidence == items + PersistenceReview(outcome.persistence)
    requires items == ExpectedEvidence(input, env.submit([]), Some(env.cancel(before)))
    ensures EvidenceAsExpected(input, env, outcome, calls + EndCalls(input, snapshot, outcome.evidence))
  {
    hide ExpectedEvidence, PersistenceReview, EndCalls, OnlySubmitted, SubmittedAndCancelled;
    var tail := EndCalls(input, snapshot, outcome.evidence);
    EndCallsFacts(input, snapshot, outcome.evidence);
    CancelPlace(before, calls, tail, intent, id);
    var n := |before|;
    assert calls[n] == CancelOrder(id);
    assert (calls + tail)[n].CancelOrder?;
  }

  /** The evidence up to the report about an accepted order. */
  function Reported(input: Input, intent: ExitIntent, order: BrokerOrder): seq<Evidence> {
    [Evidence(StrategyDecision, DecisionMade, false, None, None)] + OrderReport(input, intent, order)
  }

  lemma AcceptedExpected(
      input: Input, intent: ExitIntent, order: BrokerOrder, cancel: Option<CancelAnswer>, items: seq<Evidence>)
    requires Triggered(input.kind) && input.sizing.valid && Submission(input) == Some(intent)
    requires items == Reported(input, intent, order) + (
      if TerminalFailureStatus(order.status) then [ReviewItem(TerminalFailure)]
      else if HasOpenRemaining(order) && cancel.Some? then CancelReport(input, intent, order, cancel.value)
      else [])
    ensures items == ExpectedEvidence(input, SubmitAccepted(order), cancel)
  {
    hide Submission, OrderReport, CancelReport;
  }

  lemma CancelledExpected(
      input: Input, intent: ExitIntent, order: BrokerOrder, answer: CancelAnswer, items: seq<Evidence>)
    requires Triggered(input.kind) && input.sizing.valid && Submission(input) == Some(intent)
    requires HasOpenRemaining(order)
    requires items == Reported(input, intent, order) + CancelReport(input, intent, order, answer)
    ensures items == ExpectedEvidence(input, SubmitAccepted(order), Some(answer))
  {
    hide Submission, Reported, CancelReport, ExpectedEvidence;
    AcceptedExpected(input, intent, order, Some(answer), items);
  }

  /** What is reported about a confirmed cancel, by the checks the workflow makes. */
  lemma ConfirmedReport(input: Input, intent: ExitIntent, order: BrokerOrder, canceled: BrokerOrder)
    requires HasOpenRemaining(order) && Confirmed(canceled)
    ensures var r := EvaluateRemaining(order, intent, input.policy.dustThreshold);
            CancelReport(input, intent, order, CancelReturns(canceled))
            == [ExecutionItem(ReportedCanceled, r.filled, canceled.remaining)]
               + (if r.isDust then [Evidence(ExecutionResult, DustClosed, false, Some(r.filled), Some(r.remaining))]
                  else [])
               + (if r.requiresNewIntent && BelowMinimum(intent, r.remaining, input.policy) then
                    [Evidence(ExecutionResult, BelowMinNotionalClosed, false, Some(r.filled), Some(r.remaining))]
                  else [])
  {}

  /** The exit workflow. For every input and every behaviour of the ports: its effects and its result are safe, and it
      raises exactly when one of the two dates it prints is invalid, with at most the submission done by then. */
  method RunExitPaperRuntime(input: Input, env: Environment) returns (outcome: Outcome, calls: seq<PortCall>)
    ensures SafeEffects(input, env, calls)
    ensures outcome.Returned? ==> SafeResult(input, env, outcome, calls) && ExactResult(input, env, outcome, calls)
    ensures outcome.Returned? ==> EvidenceAsExpected(input, env, outcome, calls)
    ensures outcome.Raised? <==> Raises(input, env)
    ensures outcome.Raised? ==> |calls| <= 1 && forall i | 0 <= i < |calls| :: calls[i].Submit?
  {
    hide SafeEffects, SafeResult, ExactResult, RequoteJustified, SafeSoFar, EndCalls, CreateSubmission;
    calls := [];
    NothingIsSafe(input, env);
    if !input.decisionTimeValid {
      return Raised, calls;
    }
    var items := [Evidence(StrategyDecision, DecisionMade, false, None, None)];

    if !input.sizing.valid && Triggered(input.kind) {
      if !input.submitTimeValid {
        return Raised, calls;
      }
      items := items + [ReviewItem(SizingFailed)];
      assert items[1].manualReview;
      outcome, calls := Finish(input, env, calls, items, ExecutionRejected, None, None, None);
      ExactWithoutCancel(input, env, outcome, [], None);
      WithoutCancelExpected(input, env, outcome, [], None, items);
      return;
    }

    var submission := CreateSubmission(input.kind, input.sizing, input.scope, input.key);
    SubmissionNeeds(input);
    if submission.None? {
      var status := NoExitIntent;
      if Triggered(input.kind) {
        if !input.submitTimeValid {
          return Raised, calls;
        }
        items := items + [ReviewItem(ConstructionFailed)];
        assert items[1].manualReview;
        status := ExecutionRejected;
      }
      outcome, calls := Finish(input, env, calls, items, status, None, None, None);
      ExactWithoutCancel(input, env, outcome, [], None);
      WithoutCancelExpected(input, env, outcome, [], None, items);
      return;
    }

    var intent := submission.value;
    var answer := env.submit(calls);
    calls := [Submit(intent)];
    OnlySubmitCalled(intent);
    SubmitIsSafe(input, env, intent);
    hide Called;
    if answer.SubmitThrows? {
      if !input.submitTimeValid {
        return Raised, calls;
      }
      items := items + [ReviewItem(SubmitFailed)];
      assert items[1].manualReview;
      outcome, calls := Finish(input, env, calls, items, ExecutionRejected, None, None, None);
      ExactWithoutCancel(input, env, outcome, [Submit(intent)], None);
      WithoutCancelExpected(input, env, outcome, [Submit(intent)], None, items);
      return;
    }
    if answer.SubmitRejected? {
      items := items
        + [ExecutionItem(ReportedRejected, 0.0, input.sizing.executable), ReviewItem(ExecutionRejectedByEngine)];
      assert items[2].manualReview;
      outcome, calls := Finish(input, env, calls, items, ExecutionRejected, None, None, None);
      ExactWithoutCancel(input, env, outcome, [Submit(intent)], None);
      WithoutCancelExpected(input, env, outcome, [Submit(intent)], None, items);
      return;
    }
    outcome, calls := AfterAcceptance(input, env, items, intent, answer.order);
  }

  /** A path that cancels nothing is exact if its status is. */
  lemma ExactWithoutCancel(
      input: Input, env: Environment, outcome: Outcome, calls: seq<PortCall>, snapshot: Option<BrokerOrder>)
    requires outcome.Returned? && SafeSoFar(input, env, calls) && !Called(calls, 2)
    requires outcome.canceledOrder.None? && outcome.status != RemainingCancelFailed
    requires snapshot.Some? ==> env.submit([]) == SubmitAccepted(snapshot.value)
    requires outcome.status == NoExitIntent <==> !Triggered(input.kind)
    requires outcome.status == ExecutionRejected <==>
               Triggered(input.kind) && (!input.sizing.valid || Submission(input).None?
                                         || !env.submit([]).SubmitAccepted?
                                         || TerminalFailureStatus(env.submit([]).order.status))
    requires Called(calls, 0) <==> Triggered(input.kind) && input.sizing.valid && Submission(input).Some?
    requires Called(calls, 0) && env.submit([]).SubmitAccepted? ==>
               ReportsOrder(input, Submission(input).value, env.submit([]).order, outcome.evidence)
    ensures ExactResult(input, env, outcome, calls + EndCalls(input, snapshot, outcome.evidence))
  {
    var tail := EndCalls(input, snapshot, outcome.evidence);
    var after := calls + tail;
    EndCallsFacts(input, snapshot, outcome.evidence);
    CalledKept(calls, tail);
    assert forall i | 0 <= i < |calls| :: Rank(calls[i]) != 2;
    hide Submission, ReportsOrder, EndCalls, Called, HasOpenRemaining;
    forall i | 0 <= i < |after|
      ensures !after[i].CancelOrder?
      ensures after[i].Persist? ==> snapshot == Some(after[i].order)
    {
      if i < |calls| {
        assert Rank(calls[i]) <= 3 && Rank(calls[i]) != 2 && after[i] == calls[i];
      } else {
        assert after[i] == tail[i - |calls|];
      }
    }
  }

  /** A path that cancels is exact if the answer of the cancel decides its status. */
  lemma ExactWithCancel(
      input: Input, env: Environment, outcome: Outcome, before: seq<PortCall>, calls: seq<PortCall>, intent: ExitIntent,
      order: BrokerOrder, snapshot: BrokerOrder)
    requires env.submit([]) == SubmitAccepted(order) && HasOpenRemaining(order)
    requires Triggered(input.kind) && input.sizing.valid && Submission(input) == Some(intent)
    requires outcome.Returned? && OnlySubmitted(before, intent) && before + [CancelOrder(order.id)] <= calls
    requires SubmittedAndCancelled(calls, intent, order.id)
    requires ReportsOrder(input, intent, order, outcome.evidence)
    requires outcome.status != NoExitIntent && outcome.status != ExecutionRejected
    requires snapshot == FinalSnapshot(outcome, order)
    requires CancelDecides(input, env.submit([]), outcome, env.cancel(before))
    ensures ExactResult(input, env, outcome, calls + EndCalls(input, Some(snapshot), outcome.evidence))
  {
    hide ReportsOrder, EndCalls, CancelDecides;
    var tail := EndCalls(input, Some(snapshot), outcome.evidence);
    EndCallsFacts(input, Some(snapshot), outcome.evidence);
    CancelStatus(input, env, outcome, calls, tail, intent, order);
    CancelRecords(input, env, outcome, before, calls, tail, intent, order);
    hide ExactStatus, ExactRecords;
  }

  lemma CancelStatus(
      input: Input, env: Environment, outcome: Outcome, calls: seq<PortCall>, tail: seq<PortCall>, intent: ExitIntent,
      order: BrokerOrder)
    requires env.submit([]) == SubmitAccepted(order) && HasOpenRemaining(order)
    requires Triggered(input.kind) && input.sizing.valid && Submission(input) == Some(intent)
    requires outcome.Returned? && SubmittedAndCancelled(calls, intent, order.id)
    requires ReportsOrder(input, intent, order, outcome.evidence)
    requires outcome.status != NoExitIntent && outcome.status != ExecutionRejected
    requires forall i | 0 <= i < |tail| :: tail[i].Persist? || tail[i].WriteEvidence?
    ensures ExactStatus(input, env, outcome, calls + tail)
  {
    hide Submission, ReportsOrder, Called, Upto;
    CalledKept(calls, tail);
  }

  lemma CancelRecords(
      input: Input, env: Environment, outcome: Outcome, before: seq<PortCall>, calls: seq<PortCall>,
      tail: seq<PortCall>,
      intent: ExitIntent, order: BrokerOrder)
    requires env.submit([]) == SubmitAccepted(order)
    requires outcome.Returned? && OnlySubmitted(before, intent) && before + [CancelOrder(order.id)] <= calls
    requires SubmittedAndCancelled(calls, intent, order.id)
    requires CancelDecides(input, env.submit([]), outcome, env.cancel(before))
    requires forall i | 0 <= i < |tail| :: tail[i].Persist? || tail[i].WriteEvidence?
    requires forall i | 0 <= i < |tail| && tail[i].Persist? :: tail[i].order == FinalSnapshot(outcome, order)
    ensures ExactRecords(input, env, outcome, calls + tail)
  {
    hide CancelDecides, OnlySubmitted, SubmittedAndCancelled, FinalSnapshot;
    CancelPlace(before, calls, tail, intent, order.id);
  }

  /** The one cancel comes right after the calls before it, and only the tail persists. */
  lemma CancelPlace(before: seq<PortCall>, calls: seq<PortCall>, tail: seq<PortCall>, intent: ExitIntent, id: string)
    requires OnlySubmitted(before, intent) && before + [CancelOrder(id)] <= calls
    requires SubmittedAndCancelled(calls, intent, id)
    requires forall i | 0 <= i < |tail| :: tail[i].Persist? || tail[i].WriteEvidence?
    ensures var after := calls + tail;
            forall i | 0 <= i < |after| ::
              && (after[i].CancelOrder? ==> after[..i] == before)
              && (after[i].Persist? ==> i >= |calls| && after[i] == tail[i - |calls|])
  {
    hide Called, Upto;
    var after := calls + tail;
    assert calls[|before|] == CancelOrder(id);
    assert after[..|before|] == before;
    forall i | 0 <= i < |after|
      ensures after[i].CancelOrder? ==> after[..i] == before
      ensures after[i].Persist? ==> i >= |calls| && after[i] == tail[i - |calls|]
    {
      if i < |calls| {
        assert after[i] == calls[i];
        if calls[i].CancelOrder? {
          CancelUnique(calls, intent, id, i, |before|);
        }
      }
    }
  }

  lemma CancelUnique(calls: seq<PortCall>, intent: ExitIntent, id: string, i: nat, j: nat)
    requires SubmittedAndCancelled(calls, intent, id) && i < |calls| && j < |calls|
    requires calls[i].CancelOrder? && calls[j].CancelOrder?
    ensures i == j
  {
    AtMostOnce(calls, i, j);
  }

  /** Submitted once, with nothing but alerts since. */
  ghost predicate OnlySubmitted(calls: seq<PortCall>, intent: ExitIntent) {
    && Upto(calls, 1) && Called(calls, 0)
    && forall i | 0 <= i < |calls| :: calls[i] == Submit(intent) || calls[i] == AlertAfterSubmit
  }

  /** Submitted and then cancelled, with nothing but alerts besides. */
  ghost predicate SubmittedAndCancelled(calls: seq<PortCall>, intent: ExitIntent, id: string) {
    && Upto(calls, 3) && Called(calls, 0) && Called(calls, 2)
    && forall i | 0 <= i < |calls| ::
         calls[i] == Submit(intent) || calls[i] == AlertAfterSubmit || calls[i] == CancelOrder(id)
         || calls[i] == AlertAfterCancel
  }

  lemma SubmittedIsSafe(input: Input, env: Environment, calls: seq<PortCall>, intent: ExitIntent)
    requires OnlySubmitted(calls, intent)
    requires Triggered(input.kind) && input.sizing.valid && Submission(input) == Some(intent)
    ensures SafeSoFar(input, env, calls) && !Called(calls, 2)
  {
    hide Submission, HasOpenRemaining;
  }

  lemma CancelledIsSafe(input: Input, env: Environment, calls: seq<PortCall>, intent: ExitIntent)
    requires env.submit([]).SubmitAccepted? && HasOpenRemaining(env.submit([]).order)
    requires SubmittedAndCancelled(calls, intent, env.submit([]).order.id)
    requires Triggered(input.kind) && input.sizing.valid && Submission(input) == Some(intent)
    ensures SafeSoFar(input, env, calls)
  {
    hide Submission, HasOpenRemaining;
  }

  /** The broker gave back a snapshot: report it, then stop, or cancel what is still open. */
  method AfterAcceptance(
      input: Input, env: Environment, items0: seq<Evidence>, intent: ExitIntent, order: BrokerOrder)
    returns (outcome: Outcome, calls: seq<PortCall>)
    requires env.submit([]) == SubmitAccepted(order) && Triggered(input.kind) && input.sizing.valid
    requires Submission(input) == Some(intent)
    requires items0 == [Evidence(StrategyDecision, DecisionMade, false, None, None)]
    ensures SafeEffects(input, env, calls)
    ensures outcome.Returned? && SafeResult(input, env, outcome, calls) && ExactResult(input, env, outcome, calls)
    ensures EvidenceAsExpected(input, env, outcome, calls)
  {
    hide SafeEffects, SafeResult, ExactResult, RequoteJustified, SafeSoFar, Submission, EndCalls, ExpectedEvidence,
         EvidenceAsExpected, OrderReport, PersistenceReview;
    calls := [Submit(intent)];
    OnlySubmitCalled(intent);
    var filled := FilledQuantity(intent, order);
    var items := items0 + [
      ExecutionItem(EvidenceStatus(order.status), filled, ReportedRemaining(intent, order)),
      Evidence(PnlStatus, PnlReported, false, None, Some(RemainingPosition(input.scope, filled)))];
    assert ReportsOrder(input, intent, order, items);
    ReportAgrees(input, intent, order);
    assert items == Reported(input, intent, order);
    assert OnlySubmitted(calls, intent);
    hide OnlySubmitted, Reported, ReportsOrder, Called, FilledQuantity, ReportedRemaining, RemainingPosition,
         EvidenceStatus;

    if TerminalFailureStatus(order.status) {
      items := items + [ReviewItem(TerminalFailure)];
      assert items[|items| - 1].manualReview;
      SubmittedIsSafe(input, env, calls, intent);
      ghost var before := calls;
      outcome, calls := Finish(input, env, calls, items, ExecutionRejected, Some(order), None, None);
      ReportKept(input, intent, order, items, outcome.evidence);
      ExactWithoutCancel(input, env, outcome, before, Some(order));
      AcceptedExpected(input, intent, order, None, items);
      NoCancelSoFar(before, intent);
      WithoutCancelExpected(input, env, outcome, before, Some(order), items);
      return;
    }

    calls := AlertSubmitted(input, calls, intent);
    if order.status == Filled || order.status == PartiallyFilled {
      calls := AlertSubmitted(input, calls, intent);
    }
    SubmittedIsSafe(input, env, calls, intent);

    if !HasOpenRemaining(order) {
      ghost var before := calls;
      outcome, calls := Finish(input, env, calls, items, ExecutionSubmitted, Some(order), None, None);
      ReportKept(input, intent, order, items, outcome.evidence);
      ExactWithoutCancel(input, env, outcome, before, Some(order));
      AcceptedExpected(input, intent, order, None, items);
      NoCancelSoFar(before, intent);
      WithoutCancelExpected(input, env, outcome, before, Some(order), items);
      return;
    }
    outcome, calls := CancelAndRequote(input, env, calls, items, intent, order);
  }

  /** The order still has an open remainder: cancel it, and requote what is worth quoting. */
  method CancelAndRequote(
      input: Input, env: Environment, calls0: seq<PortCall>, items0: seq<Evidence>, intent: ExitIntent,
      order: BrokerOrder)
    returns (outcome: Outcome, calls: seq<PortCall>)
    requires env.submit([]) == SubmitAccepted(order) && HasOpenRemaining(order)
    requires Triggered(input.kind) && input.sizing.valid && Submission(input) == Some(intent)
    requires OnlySubmitted(calls0, intent) && ReportsOrder(input, intent, order, items0)
    requires items0 == Reported(input, intent, order)
    ensures SafeEffects(input, env, calls)
    ensures outcome.Returned? && SafeResult(input, env, outcome, calls) && ExactResult(input, env, outcome, calls)
    ensures EvidenceAsExpected(input, env, outcome, calls)
  {
    hide SafeEffects, SafeResult, ExactResult, RequoteJustified, SafeSoFar, Submission, HasOpenRemaining, Called, Upto,
         CreateRemaining, BelowMinimum, EvaluateRemaining, IsZero, EndCalls, ReportsOrder, WorthRequoting,
         OnlySubmitted, ExpectedEvidence, EvidenceAsExpected, Reported, CancelReport, PersistenceReview;
    hide SubmittedAndCancelled;
    var remaining := EvaluateRemaining(order, intent, input.policy.dustThreshold);
    var answer := env.cancel(calls0);
    calls := calls0 + [CancelOrder(order.id)];
    CancelCalled(calls0, intent, order.id);

    if answer.CancelThrows? {
      var items := items0 + [ReviewItem(CancelFailed)];
      assert items[|items0|].manualReview;
      CancelledIsSafe(input, env, calls, intent);
      ghost var before := calls;
      outcome, calls := Finish(input, env, calls, items, RemainingCancelFailed, Some(order), None, None);
      ReportKept(input, intent, order, items0, outcome.evidence);
      ExactWithCancel(input, env, outcome, calls0, before, intent, order, order);
      RefusedReport(input, intent, order, answer, CancelFailed);
      CancelledExpected(input, intent, order, answer, items);
      WithCancelExpected(input, env, outcome, calls0, before, intent, order.id, Some(order), items);
      return;
    }

    var canceled := answer.order;
    calls := AlertCancelled(input, calls, intent, order.id);
    if canceled.status != Canceled || !IsZero(canceled.remaining) {
      var items := items0 + [ReviewItem(CancelLeftOpen)];
      assert items[|items0|].manualReview;
      CancelledIsSafe(input, env, calls, intent);
      ghost var before := calls;
      outcome, calls := Finish(input, env, calls, items, RemainingCancelFailed, Some(canceled), Some(canceled), None);
      ReportKept(input, intent, order, items0, outcome.evidence);
      ExactWithCancel(input, env, outcome, calls0, before, intent, order, canceled);
      RefusedReport(input, intent, order, answer, CancelLeftOpen);
      CancelledExpected(input, intent, order, answer, items);
      WithCancelExpected(input, env, outcome, calls0, before, intent, order.id, Some(canceled), items);
      return;
    }

    calls := AlertCancelled(input, calls, intent, order.id);
    CancelledIsSafe(input, env, calls, intent);
    var items := items0 + [ExecutionItem(ReportedCanceled, remaining.filled, canceled.remaining)];
    if remaining.isDust {
      items := items
        + [Evidence(ExecutionResult, DustClosed, false, Some(remaining.filled), Some(remaining.remaining))];
    }
    var requote := None;
    if remaining.requiresNewIntent {
      if BelowMinimum(intent, remaining.remaining, input.policy) {
        items := items + [Evidence(ExecutionResult, BelowMinNotionalClosed, false, Some(remaining.filled),
                                   Some(remaining.remaining))];
      } else {
        requote := CreateRemaining(intent, remaining.remaining, order.id, 1, None);
      }
    }
    var status := if requote.Some? then RemainingCancelRequoteCreated else ExecutionSubmitted;
    if requote.Some? {
      RequoteIsJustified(input, intent, order, canceled);
    }
    ghost var before := calls;
    RequoteIffWorth(input, intent, order);
    outcome, calls := Finish(input, env, calls, items, status, Some(canceled), Some(canceled), requote);
    ReportKept(input, intent, order, items0, outcome.evidence);
    ExactWithCancel(input, env, outcome, calls0, before, intent, order, canceled);
    ConfirmedReport(input, intent, order, canceled);
    CancelledExpected(input, intent, order, answer, items);
    WithCancelExpected(input, env, outcome, calls0, before, intent, order.id, Some(canceled), items);
  }

  lemma NoCancelSoFar(calls: seq<PortCall>, intent: ExitIntent)
    requires OnlySubmitted(calls, intent)
    ensures forall i | 0 <= i < |calls| :: !calls[i].CancelOrder?
  {}

  /** What is reported about a cancel that threw or was not confirmed. */
  lemma RefusedReport(input: Input, intent: ExitIntent, order: BrokerOrder, answer: CancelAnswer, reason: Reason)
    requires reason == if answer.CancelThrows? then CancelFailed else CancelLeftOpen
    requires answer.CancelReturns? ==> !Confirmed(answer.order)
    ensures CancelReport(input, intent, order, answer) == [ReviewItem(reason)]
  {}

  lemma ReportKept(input: Input, intent: ExitIntent, order: BrokerOrder, items: seq<Evidence>, more: seq<Evidence>)
    requires ReportsOrder(input, intent, order, items) && items <= more
    ensures ReportsOrder(input, intent, order, more)
  {}

  lemma RequoteIffWorth(input: Input, intent: ExitIntent, order: BrokerOrder)
    requires Submission(input) == Some(intent) && HasOpenRemaining(order)
    ensures var r := EvaluateRemaining(order, intent, input.policy.dustThreshold);
            (r.requiresNewIntent && !BelowMinimum(intent, r.remaining, input.policy)
             && CreateRemaining(intent, r.remaining, order.id, 1, None).Some?)
            <==> WorthRequoting(input, intent, order)
  {
    hide RequoteKey, Notional;
  }

  method AlertSubmitted(input: Input, calls: seq<PortCall>, intent: ExitIntent) returns (after: seq<PortCall>)
    requires OnlySubmitted(calls, intent)
    ensures OnlySubmitted(after, intent)
    ensures after == if input.alertsConfigured then calls + [AlertAfterSubmit] else calls
  {
    CalledAppend(calls, AlertAfterSubmit, 0);
    after := AlertSafely(input, calls, AlertAfterSubmit);
  }

  lemma CancelCalled(calls: seq<PortCall>, intent: ExitIntent, id: string)
    requires OnlySubmitted(calls, intent)
    ensures SubmittedAndCancelled(calls + [CancelOrder(id)], intent, id)
  {
    Extend(calls, 1, CancelOrder(id));
    CalledAppend(calls, CancelOrder(id), 0);
    CalledAppend(calls, CancelOrder(id), 2);
  }

  method AlertCancelled(input: Input, calls: seq<PortCall>, intent: ExitIntent, id: string)
    returns (after: seq<PortCall>)
    requires SubmittedAndCancelled(calls, intent, id)
    ensures SubmittedAndCancelled(after, intent, id)
    ensures after == if input.alertsConfigured then calls + [AlertAfterCancel] else calls
  {
    CalledAppend(calls, AlertAfterCancel, 0);
    CalledAppend(calls, AlertAfterCancel, 2);
    after := AlertSafely(input, calls, AlertAfterCancel);
  }

  lemma RequoteIsJustified(input: Input, intent: ExitIntent, order: BrokerOrder, canceled: BrokerOrder)
    requires Submission(input) == Some(intent) && HasOpenRemaining(order)
    requires canceled.status == Canceled && IsZero(canceled.remaining)
    requires var r := EvaluateRemaining(order, intent, input.policy.dustThreshold);
             && r.requiresNewIntent && !BelowMinimum(intent, r.remaining, input.policy)
             && CreateRemaining(intent, r.remaining, order.id, 1, None).Some?
    ensures var r := EvaluateRemaining(order, intent, input.policy.dustThreshold);
            RequoteJustified(input, order, Some(canceled),
                             CreateRemaining(intent, r.remaining, order.id, 1, None).value)
  {
    RequoteIsOf(intent, order.id, EvaluateRemaining(order, intent, input.policy.dustThreshold).remaining);
    hide RequoteKey, CreateSubmission, Notional, RequoteOf;
  }

  /** The quantities that the evidence reports about an answer add up to the request exactly when the broker refused the
      order or its remainder is readable; the reported position is then what the fill leaves, but never negative. */
  lemma EvidenceConservesQuantity(input: Input, intent: ExitIntent, order: BrokerOrder)
    ensures var filled, remaining := FilledQuantity(intent, order), ReportedRemaining(intent, order);
            && ((remaining.Num? && filled + remaining.value == intent.quantity)
                <==> (TerminalFailureStatus(order.status) || order.remaining.Num?))
            && (TerminalFailureStatus(order.status) || order.remaining.Malformed? ==> filled == 0.0)
            && (order.remaining.Num? && !TerminalFailureStatus(order.status) ==>
                  (0.0 <= filled <= intent.quantity <==> 0.0 <= order.remaining.value <= intent.quantity))
            && (input.scope.total.Num? ==>
                  RemainingPosition(input.scope, filled)
                    == Num(if filled <= input.scope.total.value then input.scope.total.value - filled else 0.0))
  {}

  // ----- every run by name -----

  ghost predicate HasSubmit(calls: seq<PortCall>) { exists i | 0 <= i < |calls| :: calls[i].Submit? }

  ghost predicate HasCancel(calls: seq<PortCall>) { exists i | 0 <= i < |calls| :: calls[i].CancelOrder? }

  ghost predicate HasPersist(calls: seq<PortCall>) { exists i | 0 <= i < |calls| :: calls[i].Persist? }

  lemma CalledByName(calls: seq<PortCall>)
    ensures HasSubmit(calls) <==> Called(calls, 0)
    ensures HasCancel(calls) <==> Called(calls, 2)
    ensures HasPersist(calls) <==> Called(calls, 4)
  {
    hide Rank;
    RankByName();
    if Called(calls, 0) {
      var i :| 0 <= i < |calls| && Rank(calls[i]) == 0;
      assert calls[i].Submit?;
    }
    if Called(calls, 2) {
      var i :| 0 <= i < |calls| && Rank(calls[i]) == 2;
      assert calls[i].CancelOrder?;
    }
    if Called(calls, 4) {
      var i :| 0 <= i < |calls| && Rank(calls[i]) == 4;
      assert calls[i].Persist?;
    }
  }

  lemma RankByName()
    ensures forall c :: Rank(c) == 0 <==> c.Submit?
    ensures forall c :: Rank(c) == 2 <==> c.CancelOrder?
    ensures forall c :: Rank(c) == 4 <==> c.Persist?
  {}

  /** The order of effects: the submission comes first, a cancel after nothing but the submission and its alerts, the
      evidence is written last, and none of the four lasting effects happens twice. */
  lemma EffectsInOrder(input: Input, env: Environment, calls: seq<PortCall>, i: nat, j: nat)
    requires SafeEffects(input, env, calls) && i < j < |calls|
    ensures !calls[j].Submit? && !calls[i].WriteEvidence?
    ensures calls[j].AlertAfterSubmit? || calls[j].CancelOrder? ==> calls[i].Submit? || calls[i].AlertAfterSubmit?
    ensures calls[j].AlertAfterCancel? ==> !calls[i].Persist?
    ensures calls[j].Persist? ==> !calls[i].Persist?
  {
    hide Submission, HasOpenRemaining, Called;
  }

  /** The exit workflow by the names of decisions and broker statuses: what is submitted, cancelled and persisted, and
      which status is returned. In particular no run returns with a live order of positive or unreadable remainder
      whose cancel was not attempted. */
  lemma RunByStatus(input: Input, env: Environment, outcome: Outcome, calls: seq<PortCall>)
    requires SafeEffects(input, env, calls) && outcome.Returned?
    requires SafeResult(input, env, outcome, calls) && ExactResult(input, env, outcome, calls)
    ensures var answer := env.submit([]);
            var triggered := input.kind == Reduce || input.kind == Exit;
            var accepted := HasSubmit(calls) && answer.SubmitAccepted?;
            && (outcome.status == NoExitIntent <==> input.kind == Hold || input.kind == Block)
            && (HasSubmit(calls) <==> triggered && input.sizing.valid && Submission(input).Some?)
            && (outcome.status == ExecutionRejected <==>
                  triggered && (!HasSubmit(calls) || answer.SubmitThrows? || answer.SubmitRejected?
                                || answer.order.status == Rejected || answer.order.status == Failed))
            && (HasCancel(calls) <==>
                  && accepted
                  && (|| answer.order.status == Submitted || answer.order.status == Accepted
                      || answer.order.status == PartiallyFilled)
                  && (answer.order.remaining.Malformed? || answer.order.remaining.value > 0.0))
            && (HasPersist(calls) <==> accepted && input.persistenceConfigured)
  {
    hide CancelDecides, RequoteJustified, ReportsOrder, Submission, NeedsReview, Called, Disciplined;
    CalledByName(calls);
  }

  /** What the cancel answers decides the rest, by name: it fails exactly when it throws or does not confirm a cancelled
      order with nothing left; and a confirmed one is requoted exactly when the remainder is readable, above the dust
      threshold and worth the minimum. The requote is then the remainder at the old price under a derived key. */
  lemma RunByCancel(input: Input, env: Environment, outcome: Outcome, calls: seq<PortCall>, i: nat)
    requires SafeEffects(input, env, calls) && outcome.Returned?
    requires SafeResult(input, env, outcome, calls) && ExactResult(input, env, outcome, calls)
    requires i < |calls| && calls[i].CancelOrder?
    ensures env.submit([]).SubmitAccepted? && Submission(input).Some?
    ensures var order, intent := env.submit([]).order, Submission(input).value;
            var answer := env.cancel(calls[..i]);
            var dust, minimum := input.policy.dustThreshold, input.policy.minOrderNotional;
            var confirmed :=
              answer.CancelReturns? && answer.order.status == Canceled && answer.order.remaining == Num(0.0);
            && calls[i].id == order.id
            && outcome.canceledOrder == (if answer.CancelThrows? then None else Some(answer.order))
            && (outcome.status == RemainingCancelFailed <==> !confirmed)
            && (outcome.status == RemainingCancelRequoteCreated <==>
                  && confirmed && order.remaining.Num?
                  && (dust.Num? ==> order.remaining.value > dust.value)
                  && (minimum.Num? ==> intent.price * order.remaining.value >= minimum.value))
            && (outcome.remainingIntent.Some? <==> outcome.status == RemainingCancelRequoteCreated)
            && (outcome.remainingIntent.Some? ==>
                  outcome.remainingIntent.value
                  == ExitIntent(order.remaining.value, intent.price, intent.price * order.remaining.value,
                                intent.key + "-requote-" + order.id + "-1", intent.effect,
                                if intent.effect == ExitPosition then intent.scope.(total := order.remaining)
                                else intent.scope,
                                Some(intent.key)))
  {
    hide ReportsOrder, Submission, NeedsReview, Called, Disciplined;
    var order, intent := env.submit([]).order, Submission(input).value;
    assert CancelDecides(input, env.submit([]), outcome, env.cancel(calls[..i]));
    assert calls[i].id == order.id;
    assert HasOpenRemaining(order);
    if outcome.remainingIntent.Some? {
      var requote := outcome.remainingIntent.value;
      assert RequoteJustified(input, order, outcome.canceledOrder, requote);
      assert requote == RequoteOf(intent, order.id, order.remaining.value);
      assert requote.scope ==
        if intent.effect == ExitPosition then intent.scope.(total := order.remaining) else intent.scope;
    }
  }

  /** Without a cancel nothing is requoted, and the result is the one the submission alone gives. */
  lemma RunWithoutCancel(input: Input, env: Environment, outcome: Outcome, calls: seq<PortCall>)
    requires SafeEffects(input, env, calls) && outcome.Returned?
    requires SafeResult(input, env, outcome, calls) && ExactResult(input, env, outcome, calls)
    requires !HasCancel(calls)
    ensures outcome.canceledOrder.None? && outcome.remainingIntent.None?
    ensures outcome.status in {NoExitIntent, ExecutionRejected, ExecutionSubmitted}
  {
    hide CancelDecides, ReportsOrder, Submission, NeedsReview, Called, Disciplined;
    CalledByName(calls);
  }

  /** What is persisted is the cancel's answer if it gave one, and the submitted order otherwise. */
  lemma RunPersists(input: Input, env: Environment, outcome: Outcome, calls: seq<PortCall>, i: nat)
    requires SafeEffects(input, env, calls) && outcome.Returned? && ExactResult(input, env, outcome, calls)
    requires i < |calls| && calls[i].Persist?
    ensures env.submit([]).SubmitAccepted?
    ensures calls[i].order == if outcome.canceledOrder.Some? then outcome.canceledOrder.value else env.submit([]).order
  {
    hide CancelDecides, ReportsOrder, Submission, Called, Disciplined;
  }
}
