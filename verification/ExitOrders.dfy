/** Sizing, submission and requoting of exit orders. Numeric text is a value or malformed; values are exact reals. */
module ExitOrders {
  import opened Sequences
  import opened DecimalText

  /** Numeric text as `parseFinancialDecimal` sees it. */
  datatype NumText = Num(value: real) | Malformed

  datatype Scope = Scope(market: string, strategyId: string, total: NumText)

  datatype Policy = Policy(dustThreshold: NumText, minOrderNotional: NumText, tickSize: NumText)

  datatype SizingInput = SizingInput(
    market: string, strategyId: string, quantity: NumText, scope: Scope, policy: Policy, currentPrice: NumText,
    price: NumText)

  datatype Rejection =
    | ScopeMismatch | ParseError | PolicyInvalid | PriceInvalid | TickMismatch | NoPosition | QuantityInvalid
    | PositionExceeded | BelowMinNotional | DustRemainder | RemainingBelowMinNotional

  /** `rejection` is absent exactly on valid sizings that this module makes; callers may pass any record. */
  datatype Sizing = Sizing(
    quantity: NumText, price: NumText, executable: NumText, dust: NumText, valid: bool, rejection: Option<Rejection>)

  function Invalid(input: SizingInput, reason: Rejection): Sizing {
    Sizing(input.quantity, input.price, Num(0.0), Num(0.0), false, Some(reason))
  }

  predicate OnTick(price: real, tick: real)
    requires tick > 0.0
  {
    (price / tick).Floor as real * tick == price
  }

  function Notional(price: real, quantity: real): real { price * quantity }

  /** `evaluateExitSizing`: the checks in their source order; nothing is clamped. */
  function EvaluateSizing(input: SizingInput): Sizing {
    if input.market != input.scope.market || input.strategyId != input.scope.strategyId then
      Invalid(input, ScopeMismatch)
    else if input.quantity.Malformed? || input.scope.total.Malformed? || input.policy.dustThreshold.Malformed?
            || input.policy.minOrderNotional.Malformed? || input.policy.tickSize.Malformed?
            || input.currentPrice.Malformed? || input.price.Malformed? then
      Invalid(input, ParseError)
    else
      var quantity, total := input.quantity.value, input.scope.total.value;
      var dust, minimum := input.policy.dustThreshold.value, input.policy.minOrderNotional.value;
      var tick := input.policy.tickSize.value;
      var current, price := input.currentPrice.value, input.price.value;
      if minimum <= 0.0 || dust < 0.0 || tick <= 0.0 then Invalid(input, PolicyInvalid)
      else if current <= 0.0 || price <= 0.0 then Invalid(input, PriceInvalid)
      else if !OnTick(price, tick) then Invalid(input, TickMismatch)
      else if total <= 0.0 then Invalid(input, NoPosition)
      else if quantity <= 0.0 then Invalid(input, QuantityInvalid)
      else if quantity > total then Invalid(input, PositionExceeded)
      else
        var rest := total - quantity;
        if Notional(price, quantity) < minimum then Invalid(input, BelowMinNotional)
        else if 0.0 < rest <= dust then
          Sizing(input.quantity, input.price, Num(0.0), Num(rest), false, Some(DustRemainder))
        else if rest > 0.0 && Notional(current, rest) < minimum then Invalid(input, RemainingBelowMinNotional)
        else Sizing(input.quantity, input.price, input.quantity, Num(0.0), true, None)
  }

  /** A price on the tick is an integer number of ticks, and every such number is on the tick. */
  lemma OnTickIsMultiple(price: real, tick: real) returns (count: int)
    requires tick > 0.0 && OnTick(price, tick)
    ensures price == count as real * tick
  {
    count := (price / tick).Floor;
  }

  lemma MultipleIsOnTick(count: int, tick: real)
    requires tick > 0.0
    ensures OnTick(count as real * tick, tick)
  {
    assert (count as real * tick) / tick == count as real;
  }

  /** Sizing is valid exactly under sound prices and policy, on the tick, for a quantity within the position that is
      worth the minimum order and leaves either nothing or a position that can itself be sold later; it then passes the
      request through unchanged, and otherwise nothing is executable. Only a dust remainder is reported as dust. */
  lemma SizingExact(input: SizingInput)
    ensures var s := EvaluateSizing(input);
            && (s.valid <==>
                  && input.market == input.scope.market && input.strategyId == input.scope.strategyId
                  && input.quantity.Num? && input.scope.total.Num? && input.policy.dustThreshold.Num?
                  && input.policy.minOrderNotional.Num? && input.policy.tickSize.Num?
                  && input.currentPrice.Num? && input.price.Num?
                  && var quantity, total := input.quantity.value, input.scope.total.value;
                     var dust, minimum := input.policy.dustThreshold.value, input.policy.minOrderNotional.value;
                     var tick, price := input.policy.tickSize.value, input.price.value;
                     var current, rest := input.currentPrice.value, total - quantity;
                     && minimum > 0.0 && dust >= 0.0 && tick > 0.0 && current > 0.0 && price > 0.0
                     && OnTick(price, tick)
                     && 0.0 < quantity <= total
                     && price * quantity >= minimum
                     && (rest == 0.0 || (rest > dust && current * rest >= minimum)))
            && s.quantity == input.quantity && s.price == input.price
            && s.executable == (if s.valid then input.quantity else Num(0.0))
            && s.rejection.None? == s.valid
            && (s.rejection != Some(DustRemainder) ==> s.dust == Num(0.0))
            && (s.rejection == Some(DustRemainder) ==>
                  && input.scope.total.Num? && input.quantity.Num?
                  && s.dust == Num(input.scope.total.value - input.quantity.value))
  {
    hide OnTick;
  }

  /** Every rejection names a fault that the request has. */
  lemma RejectionMeaning(input: SizingInput)
    requires EvaluateSizing(input).rejection.Some?
    ensures var numbers := {input.quantity, input.scope.total, input.policy.dustThreshold,
                            input.policy.minOrderNotional, input.policy.tickSize, input.currentPrice, input.price};
            var reason := EvaluateSizing(input).rejection.value;
            && (reason == ScopeMismatch ==>
                  input.market != input.scope.market || input.strategyId != input.scope.strategyId)
            && (reason == ParseError ==> Malformed in numbers)
            && (reason != ScopeMismatch && reason != ParseError ==>
                  && Malformed !in numbers
                  && var quantity, total := input.quantity.value, input.scope.total.value;
                     var dust, minimum := input.policy.dustThreshold.value, input.policy.minOrderNotional.value;
                     var tick, price := input.policy.tickSize.value, input.price.value;
                     var current := input.currentPrice.value;
                     && (reason == PolicyInvalid ==> minimum <= 0.0 || dust < 0.0 || tick <= 0.0)
                     && (reason == PriceInvalid ==> current <= 0.0 || price <= 0.0)
                     && (reason == TickMismatch ==> tick > 0.0 && !OnTick(price, tick))
                     && (reason == NoPosition ==> total <= 0.0)
                     && (reason == QuantityInvalid ==> quantity <= 0.0 < total)
                     && (reason == PositionExceeded ==> quantity > total > 0.0)
                     && (reason == BelowMinNotional ==> price * quantity < minimum)
                     && (reason == DustRemainder ==> 0.0 < total - quantity <= dust)
                     && (reason == RemainingBelowMinNotional ==>
                           total - quantity > dust && current * (total - quantity) < minimum))
  {
    hide OnTick;
  }

  // ----- submission -----

  datatype DecisionKind = Hold | Block | Reduce | Exit

  datatype Effect = ReducePosition | ExitPosition

  /** An exit order intent; its quantity and price are always positive numbers. */
  datatype ExitIntent = ExitIntent(
    quantity: real, price: real, notional: real, key: string, effect: Effect, scope: Scope, parent: Option<string>)

  predicate FullExit(executable: NumText, total: NumText) {
    executable.Num? && total.Num? && executable.value == total.value
  }

  function PositiveNotional(price: NumText, quantity: NumText): Option<real> {
    if price.Num? && quantity.Num? && price.value > 0.0 && quantity.value > 0.0
    then Some(Notional(price.value, quantity.value)) else None
  }

  /** `createExitSubmission`; `key` is the idempotency key after trimming. */
  function CreateSubmission(kind: DecisionKind, sizing: Sizing, scope: Scope, key: string): Option<ExitIntent> {
    if !sizing.valid then None
    else if kind != Reduce && kind != Exit then None
    else if kind == Exit && !FullExit(sizing.executable, scope.total) then None
    else if key == "" then None
    else
      match PositiveNotional(sizing.price, sizing.executable)
      case None => None
      case Some(notional) =>
        Some(ExitIntent(sizing.executable.value, sizing.price.value, notional, key,
                        if kind == Exit then ExitPosition else ReducePosition, scope, None))
  }

  /** A submission exists exactly for a valid sizing of a triggered decision with a key, a positive price and a positive
      quantity, which for a full exit is the whole position; it is for that quantity at that price. */
  lemma SubmissionExact(kind: DecisionKind, sizing: Sizing, scope: Scope, key: string)
    ensures var s := CreateSubmission(kind, sizing, scope, key);
            && (s.Some? <==>
                  && sizing.valid && (kind == Reduce || kind == Exit) && key != ""
                  && sizing.price.Num? && sizing.price.value > 0.0
                  && sizing.executable.Num? && sizing.executable.value > 0.0
                  && (kind == Exit ==> sizing.executable == scope.total))
            && (s.Some? ==>
                  && sizing.price.Num? && sizing.executable.Num?
                  && s.value.quantity == sizing.executable.value && s.value.price == sizing.price.value
                  && s.value.notional == sizing.price.value * sizing.executable.value
                  && s.value.key == key && s.value.scope == scope && s.value.parent.None?
                  && (s.value.effect == ExitPosition <==> kind == Exit))
  {}

  // ----- requoting -----

  datatype BrokerStatus =
    | Created | Validated | RiskApproved | RiskRejected | Submitted | Accepted | PartiallyFilled | Filled
    | CancelRequested | Canceled | Rejected | Expired | Failed | ManualReviewRequired

  datatype BrokerOrder = BrokerOrder(id: string, status: BrokerStatus, remaining: NumText)

  datatype Remaining = Remaining(
    filled: real, remaining: NumText, isDust: bool, cancelRequired: bool, requiresNewIntent: bool)

  predicate IsZero(n: NumText) { n.Num? && n.value == 0.0 }

  function FilledPart(requested: real, remaining: NumText): real {
    if remaining.Num? then requested - remaining.value else 0.0
  }

  predicate Dust(remaining: NumText, threshold: NumText) {
    remaining.Num? && threshold.Num? && 0.0 < remaining.value <= threshold.value
  }

  /** `evaluatePartialFillRemaining` with its default of requoting after a cancel. */
  function EvaluateRemaining(order: BrokerOrder, intent: ExitIntent, dustThreshold: NumText): Remaining {
    var filled := FilledPart(intent.quantity, order.remaining);
    if IsZero(order.remaining) then Remaining(filled, Num(0.0), false, false, false)
    else if Dust(order.remaining, dustThreshold) then Remaining(filled, order.remaining, true, true, false)
    else Remaining(filled, order.remaining, false, true, true)
  }

  function RequoteKey(key: string, lineage: string, sequence: nat): string {
    key + "-requote-" + lineage + "-" + DigitText(sequence)
  }

  /** `createRemainingExitIntent` with an explicit lineage, as its one caller gives it. */
  function CreateRemaining(
      original: ExitIntent, remaining: NumText, lineage: string, sequence: nat, newPrice: Option<NumText>)
    : Option<ExitIntent>
  {
    if IsZero(remaining) then None
    else
      var price := if newPrice.Some? then newPrice.value else Num(original.price);
      match PositiveNotional(price, remaining)
      case None => None
      case Some(notional) =>
        Some(ExitIntent(remaining.value, price.value, notional, RequoteKey(original.key, lineage, sequence),
                        original.effect,
                        if original.effect == ExitPosition then original.scope.(total := remaining) else original.scope,
                        Some(original.key)))
  }

  // ----- chains of requotes -----

  /** One round: what the broker left unfilled when the order was cancelled, and how it was requoted. */
  datatype Round = Round(order: BrokerOrder, sequence: nat, newPrice: Option<NumText>)

  /** The broker's answer is an open order whose remainder lies between nothing and the request. */
  predicate HonestRound(live: ExitIntent, round: Round) {
    && (round.order.status == Submitted || round.order.status == Accepted || round.order.status == PartiallyFilled)
    && round.order.remaining.Num? && 0.0 <= round.order.remaining.value <= live.quantity
  }

  /** The intents of a chain, newest last, with what the rounds filled. */
  datatype Chain = Chain(intents: seq<ExitIntent>, filled: real)

  /** Plays the rounds; a round that asks for no new intent, or cannot make one, ends the chain early. */
  function Play(chain: Chain, rounds: seq<Round>, dustThreshold: NumText): (r: Option<Chain>)
    requires chain.intents != []
    ensures r.Some? ==> r.value.intents != []
    decreases |rounds|
  {
    if rounds == [] then Some(chain)
    else
      var live := chain.intents[|chain.intents| - 1];
      var r := EvaluateRemaining(rounds[0].order, live, dustThreshold);
      if !HonestRound(live, rounds[0]) || !r.requiresNewIntent then None
      else
        match CreateRemaining(live, r.remaining, rounds[0].order.id, rounds[0].sequence, rounds[0].newPrice)
        case None => None
        case Some(next) => Play(Chain(chain.intents + [next], chain.filled + r.filled), rounds[1..], dustThreshold)
  }

  predicate ScopeRespected(i: ExitIntent) {
    && i.quantity > 0.0 && i.price > 0.0 && i.notional == Notional(i.price, i.quantity) && i.scope.total.Num?
    && (i.effect == ExitPosition ==> i.quantity == i.scope.total.value)
    && (i.effect == ReducePosition ==> i.quantity <= i.scope.total.value)
  }

  /** Everything a chain keeps: the original quantity is split between fills and the live intent, every intent stays
      inside its own scope, and each intent names its parent by a strictly longer key. */
  ghost predicate ChainInvariant(c: Chain, quantity: real, total: real) {
    && c.intents != []
    && c.filled >= 0.0
    && c.filled + c.intents[|c.intents| - 1].quantity == quantity <= total
    && (forall i | 0 <= i < |c.intents| :: ScopeRespected(c.intents[i]))
    && (forall i | 0 < i < |c.intents| ::
          c.intents[i].parent == Some(c.intents[i - 1].key) && |c.intents[i - 1].key| < |c.intents[i].key|)
  }

  lemma RequoteKeyLonger(key: string, lineage: string, sequence: nat)
    ensures |key| < |RequoteKey(key, lineage, sequence)|
  {}

  lemma {:induction false} PlayKeepsInvariant(
      c: Chain, rounds: seq<Round>, dustThreshold: NumText, quantity: real, total: real)
    requires ChainInvariant(c, quantity, total) && Play(c, rounds, dustThreshold).Some?
    ensures var d := Play(c, rounds, dustThreshold).value;
            && ChainInvariant(d, quantity, total)
            && c.intents <= d.intents && c.filled <= d.filled
            && |d.intents| == |c.intents| + |rounds|
    decreases |rounds|
  {
    hide Notional, RequoteKey;
    if rounds != [] {
      var live := c.intents[|c.intents| - 1];
      var r := EvaluateRemaining(rounds[0].order, live, dustThreshold);
      var next := CreateRemaining(live, r.remaining, rounds[0].order.id, rounds[0].sequence, rounds[0].newPrice).value;
      RequoteKeyLonger(live.key, rounds[0].order.id, rounds[0].sequence);
      var c' := Chain(c.intents + [next], c.filled + r.filled);
      assert ScopeRespected(live);
      assert ScopeRespected(next);
      assert ChainInvariant(c', quantity, total);
      PlayKeepsInvariant(c', rounds[1..], dustThreshold, quantity, total);
    }
  }

  lemma {:induction false} KeysGrow(c: Chain, quantity: real, total: real, i: nat, j: nat)
    requires ChainInvariant(c, quantity, total) && i < j < |c.intents|
    ensures |c.intents[i].key| < |c.intents[j].key|
    decreases j - i
  {
    assert |c.intents[j - 1].key| < |c.intents[j].key|;
    if i < j - 1 {
      KeysGrow(c, quantity, total, i, j - 1);
    }
  }

  /** Starting from any valid sizing, however many partial fills and requotes follow: fills plus the live intent make
      up the executable quantity, together they never exceed the position, every exit intent covers its scope exactly
      and every reduce intent stays within it, and no idempotency key is used twice. */
  lemma RequoteChainConserves(
      input: SizingInput, kind: DecisionKind, key: string, rounds: seq<Round>, dustThreshold: NumText)
    requires EvaluateSizing(input).valid
    requires CreateSubmission(kind, EvaluateSizing(input), input.scope, key).Some?
    requires var first := CreateSubmission(kind, EvaluateSizing(input), input.scope, key).value;
             Play(Chain([first], 0.0), rounds, dustThreshold).Some?
    ensures var first := CreateSubmission(kind, EvaluateSizing(input), input.scope, key).value;
            var c := Play(Chain([first], 0.0), rounds, dustThreshold).value;
            var live := c.intents[|c.intents| - 1];
            && c.filled + live.quantity == input.quantity.value <= input.scope.total.value
            && live.quantity <= input.scope.total.value - c.filled
            && (forall i | 0 <= i < |c.intents| :: ScopeRespected(c.intents[i]) && c.intents[i].effect == first.effect)
            && (forall i, j | 0 <= i < j < |c.intents| :: c.intents[i].key != c.intents[j].key)
            && (kind == Exit ==> c.filled + live.scope.total.value == input.scope.total.value)
  {
    SizingExact(input);
    hide EvaluateSizing, Notional, OnTick, Play;
    var first := CreateSubmission(kind, EvaluateSizing(input), input.scope, key).value;
    var start := Chain([first], 0.0);
    PlayKeepsInvariant(start, rounds, dustThreshold, input.quantity.value, input.scope.total.value);
    PlayKeepsEffect(start, rounds, dustThreshold, first.effect);
    var c := Play(start, rounds, dustThreshold).value;
    forall i, j | 0 <= i < j < |c.intents|
      ensures c.intents[i].key != c.intents[j].key
    {
      KeysGrow(c, input.quantity.value, input.scope.total.value, i, j);
    }
    assert ScopeRespected(c.intents[|c.intents| - 1]);
  }

  /** Nothing is lost where a chain ends either: after any number of requotes, the fills of all rounds, the last one
      included, and what its order left unfilled make up the executable quantity, whether or not that remainder is
      quoted again. */
  lemma ChainEndConserves(
      input: SizingInput, kind: DecisionKind, key: string, rounds: seq<Round>, dustThreshold: NumText, last: Round)
    requires EvaluateSizing(input).valid
    requires CreateSubmission(kind, EvaluateSizing(input), input.scope, key).Some?
    requires var first := CreateSubmission(kind, EvaluateSizing(input), input.scope, key).value;
             var c := Play(Chain([first], 0.0), rounds, dustThreshold);
             c.Some? && HonestRound(c.value.intents[|c.value.intents| - 1], last)
    ensures var first := CreateSubmission(kind, EvaluateSizing(input), input.scope, key).value;
            var c := Play(Chain([first], 0.0), rounds, dustThreshold).value;
            var r := EvaluateRemaining(last.order, c.intents[|c.intents| - 1], dustThreshold);
            && r.remaining.Num? && r.filled >= 0.0
            && c.filled + r.filled + r.remaining.value == input.quantity.value <= input.scope.total.value
            && (r.requiresNewIntent || r.isDust || r.remaining.value == 0.0)
  {
    hide EvaluateSizing, CreateSubmission, Play;
    RequoteChainConserves(input, kind, key, rounds, dustThreshold);
  }

  lemma {:induction false} PlayKeepsEffect(c: Chain, rounds: seq<Round>, dustThreshold: NumText, e: Effect)
    requires c.intents != [] && (forall i | 0 <= i < |c.intents| :: c.intents[i].effect == e)
    requires Play(c, rounds, dustThreshold).Some?
    ensures var d := Play(c, rounds, dustThreshold).value;
            d.intents != [] && forall i | 0 <= i < |d.intents| :: d.intents[i].effect == e
    decreases |rounds|
  {
    hide Notional, RequoteKey;
    if rounds != [] {
      var live := c.intents[|c.intents| - 1];
      var r := EvaluateRemaining(rounds[0].order, live, dustThreshold);
      var next := CreateRemaining(live, r.remaining, rounds[0].order.id, rounds[0].sequence, rounds[0].newPrice).value;
      PlayKeepsEffect(Chain(c.intents + [next], c.filled + r.filled), rounds[1..], dustThreshold, e);
    }
  }

  /** A round goes on with a new intent exactly when a remainder is left, it is not dust, and the price to quote is a
      positive number: the replacement price if there is one, the old price otherwise. */
  lemma ChainStopsIff(live: ExitIntent, round: Round, dustThreshold: NumText)
    requires HonestRound(live, round)
    ensures var r := EvaluateRemaining(round.order, live, dustThreshold);
            var price := if round.newPrice.Some? then round.newPrice.value else Num(live.price);
            (r.requiresNewIntent
             && CreateRemaining(live, r.remaining, round.order.id, round.sequence, round.newPrice).Some?)
            <==> (round.order.remaining.value > 0.0 && price.Num? && price.value > 0.0
                  && (dustThreshold.Num? ==> round.order.remaining.value > dustThreshold.value))
  {
    hide Notional, RequoteKey;
  }
}
