/** Paper fills: a limit order matched greedily against one order book snapshot. Decimals are exact reals. */
module PaperFill {
  import opened Sequences
  import opened Reals

  datatype Side = Buy | Sell

  datatype TimeInForce = Gtc | Ioc | Fok | PostOnly

  datatype Level = Level(price: real, size: real)

  datatype Orderbook = Orderbook(
    exchangeId: string, market: string, asks: seq<Level>, bids: seq<Level>, receivedAt: int)

  datatype OrderType = Limit(price: real) | Market

  datatype Intent = Intent(
    exchangeId: string, market: string, side: Side, orderType: OrderType, quantity: real,
    timeInForce: Option<TimeInForce>, postOnly: bool)

  datatype TakerPolicy = Reject | Pending

  /** Times in nanoseconds, latency in milliseconds. */
  datatype Options = Options(
    submittedAt: Option<int>, latencyMs: real, takerPolicy: TakerPolicy, defaultTimeInForce: TimeInForce,
    takerFeeBps: real)

  datatype Fill = Fill(price: real, quantity: real, notional: real, fee: real)

  datatype Depth = Depth(
    fills: seq<Fill>, filled: real, notional: real, fee: real, average: Option<real>, slippageBps: Option<real>)

  datatype Status =
    | Filled | PartiallyFilled | Unfilled | PostOnlyRejected | PostOnlyPending | IocCanceled | FokCanceled | Rejected

  datatype OrderStatus = OrderFilled | OrderPartiallyFilled | OrderAccepted | OrderCanceled | OrderRejected

  datatype Reason =
    | CrossedFull | CrossedPartial | NotCrossed | WouldTakeRejected | WouldTakePending | IocFilledAndCanceled
    | IocUnfilledCanceled | FokNotFilled | MarketDisabled | LatencySnapshotMissing | SnapshotMissing | IntentMismatch

  datatype SimulationResult = SimulationResult(
    status: Status, orderStatus: OrderStatus, reason: Reason, requested: real, filled: real, open: real,
    canceled: real, fills: seq<Fill>, depth: Option<Depth>)

  // ----- fees -----

  /** The fee of a notional at a rate in basis points. */
  function FeeOn(notional: real, feeBps: real): real { notional * feeBps / 10000.0 }

  lemma FeeOnAdd(a: real, b: real, feeBps: real)
    ensures FeeOn(a + b, feeBps) == FeeOn(a, feeBps) + FeeOn(b, feeBps)
  {
    assert (a + b) * feeBps == a * feeBps + b * feeBps;
  }

  // ----- one price scale for both sides -----

  /** What one unit costs the order: buyers pay the price, sellers forgo it. Lower is better on both sides. */
  function Cost(side: Side, price: real): real {
    if side == Buy then price else -price
  }

  predicate Eligible(side: Side, limit: real, l: Level) {
    if side == Buy then l.price <= limit else l.price >= limit
  }

  /** The comparator of `sortAsks` and `sortBids`. */
  function NoWorse(side: Side): (Level, Level) -> bool {
    (a: Level, b: Level) => if side == Buy then a.price <= b.price else a.price >= b.price
  }

  function BookSide(side: Side, book: Orderbook): seq<Level> {
    if side == Buy then book.asks else book.bids
  }

  function Best(side: Side, levels: seq<Level>): seq<Level> {
    Sort(levels, NoWorse(side))
  }

  lemma BestSorted(side: Side, levels: seq<Level>)
    ensures SortedBy(Best(side, levels), NoWorse(side))
    ensures multiset(Best(side, levels)) == multiset(levels)
  {
    SortSorted(levels, NoWorse(side));
  }

  // ----- the walk -----

  function MakeFill(l: Level, quantity: real, feeBps: real): Fill {
    var notional := Mul(quantity, l.price);
    Fill(l.price, quantity, notional, FeeOn(notional, feeBps))
  }

  /** The fills of a walk down `levels` until the limit or the quantity stops it. */
  function Walk(levels: seq<Level>, side: Side, limit: real, remaining: real, feeBps: real): seq<Fill> {
    if levels == [] || !Eligible(side, limit, levels[0]) || remaining <= 0.0 then []
    else
      var quantity := Min(remaining, levels[0].size);
      [MakeFill(levels[0], quantity, feeBps)] + Walk(levels[1..], side, limit, remaining - quantity, feeBps)
  }

  function QuantityOf(f: Fill): real { f.quantity }
  function NotionalOf(f: Fill): real { f.notional }
  function FeeOf(f: Fill): real { f.fee }

  function Slippage(side: Side, requested: real, average: real): real
    requires requested != 0.0
  {
    Quotient(if side == Buy then average - requested else requested - average, requested) * 10000.0
  }

  function Summarize(fills: seq<Fill>, side: Side, limit: real): Depth {
    var filled, notional := SumOf(fills, QuantityOf), SumOf(fills, NotionalOf);
    var average := if filled > 0.0 then Some(Quotient(notional, filled)) else None;
    Depth(fills, filled, notional, SumOf(fills, FeeOf), average,
          if average.Some? && limit != 0.0 then Some(Slippage(side, limit, average.value)) else None)
  }

  function DepthOf(side: Side, limit: real, quantity: real, levels: seq<Level>, feeBps: real): Depth {
    Summarize(Walk(Best(side, levels), side, limit, quantity, feeBps), side, limit)
  }

  /** `calculateExecutableDepth`: the loop with its running totals computes the walk. */
  method CalculateExecutableDepth(side: Side, limit: real, quantity: real, book: Orderbook, feeBps: real)
    returns (depth: Depth)
    ensures depth == DepthOf(side, limit, quantity, BookSide(side, book), feeBps)
  {
    hide Best, Mul, FeeOn, Quotient, Slippage, BookSide;
    var levels := Best(side, BookSide(side, book));
    var remaining, filled, notional, fee := quantity, 0.0, 0.0, 0.0;
    var fills: seq<Fill> := [];
    var i := 0;
    while i < |levels|
      invariant 0 <= i <= |levels|
      invariant Walk(levels, side, limit, quantity, feeBps) == fills + Walk(levels[i..], side, limit, remaining, feeBps)
      invariant filled == SumOf(fills, QuantityOf) && notional == SumOf(fills, NotionalOf)
      invariant fee == SumOf(fills, FeeOf)
    {
      var level := levels[i];
      if !Eligible(side, limit, level) || remaining <= 0.0 {
        assert levels[i..][0] == level;
        break;
      }
      var fillQuantity := Min(remaining, level.size);
      var fillNotional := Mul(fillQuantity, level.price);
      var fillFee := FeeOn(fillNotional, feeBps);
      filled := filled + fillQuantity;
      notional := notional + fillNotional;
      fee := fee + fillFee;
      assert levels[i..][1..] == levels[i + 1..];
      ghost var before := fills;
      ghost var rest := Walk(levels[i + 1..], side, limit, remaining - fillQuantity, feeBps);
      fills := fills + [Fill(level.price, fillQuantity, fillNotional, fillFee)];
      assert before + ([MakeFill(level, fillQuantity, feeBps)] + rest) == fills + rest;
      remaining := remaining - fillQuantity;
      SumOfConcat(before, [MakeFill(level, fillQuantity, feeBps)], QuantityOf);
      SumOfConcat(before, [MakeFill(level, fillQuantity, feeBps)], NotionalOf);
      SumOfConcat(before, [MakeFill(level, fillQuantity, feeBps)], FeeOf);
      i := i + 1;
    }
    assert Walk(levels[i..], side, limit, remaining, feeBps) == [];
    assert Walk(levels, side, limit, quantity, feeBps) == fills;
    var average := None;
    var slippage := None;
    if filled > 0.0 {
      average := Some(Quotient(notional, filled));
      if limit != 0.0 {
        slippage := Some(Slippage(side, limit, average.value));
      }
    }
    depth := Depth(fills, filled, notional, fee, average, slippage);
  }

  // ----- how much is filled -----

  function SizeOf(l: Level): real { l.size }

  function EligibleAt(side: Side, limit: real): Level -> bool {
    (l: Level) => Eligible(side, limit, l)
  }

  /** Total size on offer within the limit. */
  function Available(side: Side, limit: real, levels: seq<Level>): real {
    SumOf(Filter(levels, EligibleAt(side, limit)), SizeOf)
  }

  ghost predicate Nonnegative(levels: seq<Level>) {
    forall l | l in levels :: l.size >= 0.0
  }

  lemma {:induction false} NoneEligible(side: Side, limit: real, levels: seq<Level>)
    requires SortedBy(levels, NoWorse(side)) && (levels == [] || !Eligible(side, limit, levels[0]))
    ensures Filter(levels, EligibleAt(side, limit)) == []
  {
    if levels != [] {
      if |levels| > 1 {
        assert NoWorse(side)(levels[0], levels[1]);
      }
      NoneEligible(side, limit, levels[1..]);
    }
  }

  lemma {:induction false} SumNonnegative(levels: seq<Level>)
    requires Nonnegative(levels)
    ensures SumOf(levels, SizeOf) >= 0.0
  {
    if levels != [] {
      assert levels[0] in levels;
      assert forall l | l in levels[1..] :: l in levels;
      SumNonnegative(levels[1..]);
    }
  }

  lemma {:induction false} WalkFills(levels: seq<Level>, side: Side, limit: real, remaining: real, feeBps: real)
    requires SortedBy(levels, NoWorse(side)) && Nonnegative(levels) && remaining >= 0.0
    ensures SumOf(Walk(levels, side, limit, remaining, feeBps), QuantityOf)
         == Min(remaining, Available(side, limit, levels))
  {
    if levels == [] || !Eligible(side, limit, levels[0]) {
      NoneEligible(side, limit, levels);
    } else {
      assert levels[0] in levels;
      assert forall l | l in levels[1..] :: l in levels;
      var rest := Filter(levels[1..], EligibleAt(side, limit));
      FilterMembers(levels[1..], EligibleAt(side, limit));
      SumNonnegative(rest);
      assert Filter(levels, EligibleAt(side, limit)) == [levels[0]] + rest;
      SumOfConcat([levels[0]], rest, SizeOf);
      if remaining > 0.0 {
        var quantity := Min(remaining, levels[0].size);
        WalkFills(levels[1..], side, limit, remaining - quantity, feeBps);
      }
    }
  }

  lemma AvailablePermutation(side: Side, limit: real, a: seq<Level>, b: seq<Level>)
    requires multiset(a) == multiset(b)
    ensures Available(side, limit, a) == Available(side, limit, b)
  {
    FilterPermutation(a, b, EligibleAt(side, limit));
    SumOfPermutation(Filter(a, EligibleAt(side, limit)), Filter(b, EligibleAt(side, limit)), SizeOf);
  }

  /** The filled quantity is the smaller of the request and the size on offer within the limit,
      whatever the order of the levels in the snapshot. */
  lemma FilledIsMinimum(side: Side, limit: real, quantity: real, levels: seq<Level>, feeBps: real)
    requires Nonnegative(levels) && quantity >= 0.0
    ensures DepthOf(side, limit, quantity, levels, feeBps).filled == Min(quantity, Available(side, limit, levels))
  {
    var best := Best(side, levels);
    BestSorted(side, levels);
    SameElements(best, levels);
    WalkFills(best, side, limit, quantity, feeBps);
    AvailablePermutation(side, limit, best, levels);
  }

  // ----- optimality -----

  /** An allocation takes at most each level's size, and only from levels within the limit. */
  ghost predicate Feasible(side: Side, limit: real, levels: seq<Level>, alloc: seq<real>) {
    && |alloc| == |levels|
    && forall i | 0 <= i < |levels| ::
         0.0 <= alloc[i] <= levels[i].size && (alloc[i] > 0.0 ==> Eligible(side, limit, levels[i]))
  }

  ghost function Total(alloc: seq<real>): real {
    if alloc == [] then 0.0 else alloc[0] + Total(alloc[1..])
  }

  /** Money that changes hands under an allocation. */
  ghost function Money(levels: seq<Level>, alloc: seq<real>): real
    requires |alloc| == |levels|
  {
    if levels == [] then 0.0 else Mul(alloc[0], levels[0].price) + Money(levels[1..], alloc[1..])
  }

  /** What a level saves against paying `dual` per unit: the dual price of its capacity. */
  ghost function Saving(side: Side, limit: real, dual: real): Level -> real {
    (l: Level) => if Eligible(side, limit, l) then Mul(l.size, Min(0.0, Cost(side, l.price) - dual)) else 0.0
  }

  lemma TermBound(x: real, size: real, gap: real)
    requires 0.0 <= x <= size
    ensures Mul(x, gap) >= Mul(size, Min(0.0, gap))
  {
    hide Mul;
    if gap < 0.0 {
      MulMonotone(-gap, x, size);
      MulCommutes(-gap, x);
      MulCommutes(-gap, size);
      MulNegate(x, gap);
      MulNegate(size, gap);
    } else {
      MulZero(size);
      MulZero(x);
      MulMonotone(x, 0.0, gap);
    }
  }

  lemma CostOfProduct(side: Side, quantity: real, price: real)
    ensures Cost(side, Mul(quantity, price)) == Mul(quantity, Cost(side, price))
  {
    MulNegate(quantity, price);
  }

  /** Weak duality: at any unit price `dual`, no allocation beats the dual bound. */
  lemma {:induction false} DualBound(side: Side, limit: real, levels: seq<Level>, alloc: seq<real>, dual: real)
    requires Feasible(side, limit, levels, alloc)
    ensures Cost(side, Money(levels, alloc)) >= Mul(dual, Total(alloc)) + SumOf(levels, Saving(side, limit, dual))
  {
    hide Mul;
    if levels == [] {
      MulZero(dual);
    } else {
      var l, x := levels[0], alloc[0];
      DualBound(side, limit, levels[1..], alloc[1..], dual);
      var gap := Cost(side, l.price) - dual;
      TermBound(x, l.size, gap);
      MulZero(gap);
      MulAdd(x, Cost(side, l.price), dual);
      MulCommutes(x, dual);
      MulAdd(dual, x, Total(alloc[1..]));
      CostOfProduct(side, x, l.price);
      assert Mul(x, gap) >= Saving(side, limit, dual)(l);
    }
  }

  lemma {:induction false} NoSaving(side: Side, limit: real, levels: seq<Level>, dual: real)
    requires forall l | l in levels :: !Eligible(side, limit, l) || Cost(side, l.price) >= dual
    ensures SumOf(levels, Saving(side, limit, dual)) == 0.0
  {
    if levels != [] {
      assert levels[0] in levels;
      assert forall l | l in levels[1..] :: l in levels;
      NoSaving(side, limit, levels[1..], dual);
      hide Mul;
      MulZero(levels[0].size);
    }
  }

  /** The dual equation of one walk. */
  ghost predicate AttainsDual(
      side: Side, limit: real, levels: seq<Level>, remaining: real, feeBps: real, dual: real) {
    var fills := Walk(levels, side, limit, remaining, feeBps);
    var bound := Mul(dual, SumOf(fills, QuantityOf)) + SumOf(levels, Saving(side, limit, dual));
    Cost(side, SumOf(fills, NotionalOf)) == bound
  }

  lemma HeadNoWorse(side: Side, levels: seq<Level>, x: Level)
    requires SortedBy(levels, NoWorse(side)) && levels != [] && x in levels
    ensures Cost(side, levels[0].price) <= Cost(side, x.price)
  {
    var j :| 0 <= j < |levels| && levels[j] == x;
    assert j == 0 || NoWorse(side)(levels[0], levels[j]);
  }

  /** The walk stops at once: nothing is within the limit. */
  lemma StopAttainsDual(side: Side, limit: real, levels: seq<Level>, remaining: real, feeBps: real)
    requires SortedBy(levels, NoWorse(side)) && (levels == [] || !Eligible(side, limit, levels[0]))
    ensures AttainsDual(side, limit, levels, remaining, feeBps, Cost(side, limit))
  {
    hide Mul;
    MulZero(Cost(side, limit));
    NoneEligible(side, limit, levels);
    FilterMembers(levels, EligibleAt(side, limit));
    assert forall l | l in levels :: EligibleAt(side, limit)(l) ==> l in Filter(levels, EligibleAt(side, limit));
    NoSaving(side, limit, levels, Cost(side, limit));
  }

  /** The walk ends on its first level. */
  lemma LastAttainsDual(side: Side, limit: real, levels: seq<Level>, remaining: real, feeBps: real)
    requires SortedBy(levels, NoWorse(side)) && levels != [] && Eligible(side, limit, levels[0])
    requires 0.0 < remaining <= levels[0].size
    ensures AttainsDual(side, limit, levels, remaining, feeBps, Cost(side, levels[0].price))
  {
    hide Mul, FeeOn;
    var l := levels[0];
    forall x | x in levels
      ensures Cost(side, x.price) >= Cost(side, l.price)
    {
      HeadNoWorse(side, levels, x);
    }
    NoSaving(side, limit, levels, Cost(side, l.price));
    assert Walk(levels[1..], side, limit, 0.0, feeBps) == [];
    var fills := Walk(levels, side, limit, remaining, feeBps);
    assert fills == [MakeFill(l, remaining, feeBps)];
    assert SumOf(fills, QuantityOf) == remaining + SumOf(fills[1..], QuantityOf);
    assert SumOf(fills, NotionalOf) == Mul(remaining, l.price) + SumOf(fills[1..], NotionalOf);
    CostOfProduct(side, remaining, l.price);
    MulCommutes(remaining, Cost(side, l.price));
  }

  /** The greedy walk attains the dual bound at the price of the level it stops on. */
  lemma {:induction false} GreedyAttainsDual(
      side: Side, limit: real, levels: seq<Level>, remaining: real, feeBps: real) returns (dual: real)
    requires SortedBy(levels, NoWorse(side)) && Nonnegative(levels) && remaining > 0.0
    ensures levels != [] && Eligible(side, limit, levels[0]) ==> dual >= Cost(side, levels[0].price)
    ensures levels == [] || !Eligible(side, limit, levels[0]) ==> dual == Cost(side, limit)
    ensures AttainsDual(side, limit, levels, remaining, feeBps, dual)
  {
    hide Mul, AttainsDual;
    if levels == [] || !Eligible(side, limit, levels[0]) {
      dual := Cost(side, limit);
      StopAttainsDual(side, limit, levels, remaining, feeBps);
    } else {
      var l, rest := levels[0], levels[1..];
      assert l in levels;
      assert forall x | x in rest :: x in levels;
      if remaining <= l.size {
        dual := Cost(side, l.price);
        LastAttainsDual(side, limit, levels, remaining, feeBps);
      } else {
        dual := GreedyAttainsDual(side, limit, rest, remaining - l.size, feeBps);
        if rest != [] {
          HeadNoWorse(side, levels, rest[0]);
        }
        assert levels == [l] + rest;
        GreedyTerm(side, limit, l, rest, remaining, feeBps, dual);
      }
    }
  }

  /** A level that is taken whole adds the same amount to both sides of the dual equation. */
  lemma GreedyTerm(side: Side, limit: real, l: Level, rest: seq<Level>, remaining: real, feeBps: real, dual: real)
    requires Eligible(side, limit, l) && 0.0 <= l.size < remaining && dual >= Cost(side, l.price)
    requires AttainsDual(side, limit, rest, remaining - l.size, feeBps, dual)
    ensures AttainsDual(side, limit, [l] + rest, remaining, feeBps, dual)
  {
    hide Mul, FeeOn;
    var levels := [l] + rest;
    assert levels[1..] == rest;
    var tail := Walk(rest, side, limit, remaining - l.size, feeBps);
    var fills := Walk(levels, side, limit, remaining, feeBps);
    var first := MakeFill(l, l.size, feeBps);
    assert fills == [first] + tail;
    assert fills[0] == first && fills[1..] == tail;
    var gap := Cost(side, l.price) - dual;
    assert Saving(side, limit, dual)(l) == Mul(l.size, gap);
    MulAdd(l.size, Cost(side, l.price), dual);
    MulCommutes(l.size, dual);
    CostOfProduct(side, l.size, l.price);
    MulAdd(dual, l.size, SumOf(tail, QuantityOf));
  }

  /** No other way to take the same quantity from the levels within the limit costs a buyer less or earns a
      seller more, whatever the order of the levels in the snapshot. */
  lemma GreedyIsOptimal(
      side: Side, limit: real, quantity: real, levels: seq<Level>, feeBps: real, alloc: seq<real>)
    requires Nonnegative(levels) && quantity > 0.0
    requires Feasible(side, limit, levels, alloc)
    requires Total(alloc) == DepthOf(side, limit, quantity, levels, feeBps).filled
    ensures side == Buy ==> DepthOf(side, limit, quantity, levels, feeBps).notional <= Money(levels, alloc)
    ensures side == Sell ==> DepthOf(side, limit, quantity, levels, feeBps).notional >= Money(levels, alloc)
  {
    hide Mul, Best, Walk, Quotient, Slippage, FeeOn;
    var best := Best(side, levels);
    BestSorted(side, levels);
    SameElements(best, levels);
    var dual := GreedyAttainsDual(side, limit, best, quantity, feeBps);
    SumOfPermutation(best, levels, Saving(side, limit, dual));
    DualBound(side, limit, levels, alloc, dual);
  }

  lemma CostsNoMore(side: Side, limit: real, quantity: real, a: seq<Level>, b: seq<Level>, feeBps: real)
    requires Nonnegative(a) && quantity > 0.0 && multiset(a) == multiset(b)
    ensures Cost(side, DepthOf(side, limit, quantity, a, feeBps).notional)
         <= Cost(side, DepthOf(side, limit, quantity, b, feeBps).notional)
  {
    hide Mul, Best, Walk, Quotient, Slippage, FeeOn, Min, Available;
    SameElements(a, b);
    var bestA, bestB := Best(side, a), Best(side, b);
    BestSorted(side, a);
    BestSorted(side, b);
    SameElements(bestA, a);
    SameElements(bestB, b);
    FilledIsMinimum(side, limit, quantity, a, feeBps);
    FilledIsMinimum(side, limit, quantity, b, feeBps);
    AvailablePermutation(side, limit, a, b);
    var dual := GreedyAttainsDual(side, limit, bestA, quantity, feeBps);
    SumOfPermutation(bestA, bestB, Saving(side, limit, dual));
    var alloc := WalkAllocation(side, limit, bestB, quantity, feeBps);
    DualBound(side, limit, bestB, alloc, dual);
  }

  lemma FeasibleCons(side: Side, limit: real, levels: seq<Level>, x: real, rest: seq<real>)
    requires levels != [] && 0.0 <= x <= levels[0].size && (x > 0.0 ==> Eligible(side, limit, levels[0]))
    requires Feasible(side, limit, levels[1..], rest)
    ensures Feasible(side, limit, levels, [x] + rest)
    ensures Total([x] + rest) == x + Total(rest)
    ensures Money(levels, [x] + rest) == Mul(x, levels[0].price) + Money(levels[1..], rest)
  {
    hide Mul;
    var alloc := [x] + rest;
    assert alloc[1..] == rest;
    forall i | 0 <= i < |levels|
      ensures 0.0 <= alloc[i] <= levels[i].size && (alloc[i] > 0.0 ==> Eligible(side, limit, levels[i]))
    {
      if i > 0 {
        assert levels[i] == levels[1..][i - 1] && alloc[i] == rest[i - 1];
      }
    }
  }

  /** The walk itself is a feasible allocation. */
  lemma {:induction false} WalkAllocation(side: Side, limit: real, levels: seq<Level>, remaining: real, feeBps: real)
    returns (alloc: seq<real>)
    requires Nonnegative(levels) && remaining >= 0.0
    ensures Feasible(side, limit, levels, alloc)
    ensures var fills := Walk(levels, side, limit, remaining, feeBps);
            Total(alloc) == SumOf(fills, QuantityOf) && Money(levels, alloc) == SumOf(fills, NotionalOf)
  {
    hide Mul, FeeOn;
    if levels == [] {
      alloc := [];
    } else {
      assert levels[0] in levels;
      assert forall l | l in levels[1..] :: l in levels;
      if !Eligible(side, limit, levels[0]) || remaining <= 0.0 {
        alloc := seq(|levels|, _ => 0.0);
        ZeroAllocation(levels, alloc);
        assert forall i | 0 <= i < |levels| :: levels[i] in levels;
      } else {
        hide Feasible, Total, Money;
        var quantity := Min(remaining, levels[0].size);
        var rest := WalkAllocation(side, limit, levels[1..], remaining - quantity, feeBps);
        alloc := [quantity] + rest;
        FeasibleCons(side, limit, levels, quantity, rest);
        var fills := Walk(levels, side, limit, remaining, feeBps);
        assert fills[0] == MakeFill(levels[0], quantity, feeBps);
        assert fills[1..] == Walk(levels[1..], side, limit, remaining - quantity, feeBps);
      }
    }
  }

  lemma {:induction false} ZeroAllocation(levels: seq<Level>, alloc: seq<real>)
    requires |alloc| == |levels| && forall i | 0 <= i < |alloc| :: alloc[i] == 0.0
    ensures Total(alloc) == 0.0 && Money(levels, alloc) == 0.0
  {
    if levels != [] {
      hide Mul;
      MulZero(levels[0].price);
      ZeroAllocation(levels[1..], alloc[1..]);
    }
  }

  /** Shuffling the levels of a snapshot changes neither the quantity, the notional nor the fee. */
  lemma TotalsPermutation(side: Side, limit: real, quantity: real, a: seq<Level>, b: seq<Level>, feeBps: real)
    requires Nonnegative(a) && quantity > 0.0 && multiset(a) == multiset(b)
    ensures var x, y := DepthOf(side, limit, quantity, a, feeBps), DepthOf(side, limit, quantity, b, feeBps);
            x.filled == y.filled && x.notional == y.notional && x.fee == y.fee
  {
    hide DepthOf, Min, Available, FeeOn;
    SameElements(a, b);
    CostsNoMore(side, limit, quantity, a, b, feeBps);
    CostsNoMore(side, limit, quantity, b, a, feeBps);
    FilledIsMinimum(side, limit, quantity, a, feeBps);
    FilledIsMinimum(side, limit, quantity, b, feeBps);
    AvailablePermutation(side, limit, a, b);
    FeesAreRate(side, limit, quantity, a, feeBps);
    FeesAreRate(side, limit, quantity, b, feeBps);
  }

  lemma {:induction false} WalkFees(levels: seq<Level>, side: Side, limit: real, remaining: real, feeBps: real)
    ensures var fills := Walk(levels, side, limit, remaining, feeBps);
            SumOf(fills, FeeOf) == FeeOn(SumOf(fills, NotionalOf), feeBps)
  {
    if levels != [] && Eligible(side, limit, levels[0]) && remaining > 0.0 {
      hide Mul, FeeOn;
      var quantity := Min(remaining, levels[0].size);
      WalkFees(levels[1..], side, limit, remaining - quantity, feeBps);
      var first := MakeFill(levels[0], quantity, feeBps);
      var rest := Walk(levels[1..], side, limit, remaining - quantity, feeBps);
      var fills := Walk(levels, side, limit, remaining, feeBps);
      assert fills[0] == first && fills[1..] == rest;
      FeeOnAdd(first.notional, SumOf(rest, NotionalOf), feeBps);
    }
  }

  lemma FeesAreRate(side: Side, limit: real, quantity: real, levels: seq<Level>, feeBps: real)
    ensures var d := DepthOf(side, limit, quantity, levels, feeBps); d.fee == FeeOn(d.notional, feeBps)
  {
    hide FeeOn;
    WalkFees(Best(side, levels), side, limit, quantity, feeBps);
  }

  /** The total fee is the fee rate in basis points applied once to the total notional, for every input. */
  lemma FeeIsRate(side: Side, limit: real, quantity: real, levels: seq<Level>, feeBps: real)
    ensures var d := DepthOf(side, limit, quantity, levels, feeBps); d.fee == d.notional * feeBps / 10_000.0
  {
    hide DepthOf;
    FeesAreRate(side, limit, quantity, levels, feeBps);
  }

  // ----- every fill, by itself -----

  /** A fill taken from a level: at its price, within its size and the limit, with its own notional and fee. */
  ghost predicate TakenFrom(f: Fill, l: Level, side: Side, limit: real, feeBps: real) {
    && f.price == l.price && (side == Buy ==> f.price <= limit) && (side == Sell ==> f.price >= limit)
    && 0.0 <= f.quantity <= l.size && f.notional == f.quantity * f.price && f.fee == f.notional * feeBps / 10_000.0
  }

  lemma {:induction false} WalkTakes(levels: seq<Level>, side: Side, limit: real, remaining: real, feeBps: real)
    requires Nonnegative(levels) && remaining >= 0.0
    ensures var fills := Walk(levels, side, limit, remaining, feeBps);
            |fills| <= |levels| && forall i | 0 <= i < |fills| :: TakenFrom(fills[i], levels[i], side, limit, feeBps)
  {
    hide TakenFrom;
    if levels != [] && Eligible(side, limit, levels[0]) && remaining > 0.0 {
      assert levels[0] in levels && forall l | l in levels[1..] :: l in levels;
      var quantity := Min(remaining, levels[0].size);
      WalkTakes(levels[1..], side, limit, remaining - quantity, feeBps);
      MadeFill(levels[0], quantity, side, limit, feeBps);
      var rest := Walk(levels[1..], side, limit, remaining - quantity, feeBps);
      assert Walk(levels, side, limit, remaining, feeBps) == [MakeFill(levels[0], quantity, feeBps)] + rest;
      assert forall i | 0 <= i < |rest| :: levels[1..][i] == levels[i + 1];
    }
  }

  lemma MadeFill(l: Level, quantity: real, side: Side, limit: real, feeBps: real)
    requires Eligible(side, limit, l) && 0.0 <= quantity <= l.size
    ensures TakenFrom(MakeFill(l, quantity, feeBps), l, side, limit, feeBps)
  {}

  /** Fill by fill: the fills go through the levels from the best price on, one fill a level. */
  lemma FillsAreReal(side: Side, limit: real, quantity: real, levels: seq<Level>, feeBps: real)
    returns (best: seq<Level>)
    requires Nonnegative(levels) && quantity >= 0.0
    ensures multiset(best) == multiset(levels)
    ensures forall i, j | 0 <= i < j < |best| ::
              if side == Buy then best[i].price <= best[j].price else best[i].price >= best[j].price
    ensures var fills := DepthOf(side, limit, quantity, levels, feeBps).fills;
            |fills| <= |best| && forall i | 0 <= i < |fills| :: TakenFrom(fills[i], best[i], side, limit, feeBps)
  {
    hide Walk, TakenFrom, Sort;
    best := Best(side, levels);
    BestSorted(side, levels);
    SameElements(best, levels);
    WalkTakes(best, side, limit, quantity, feeBps);
    assert forall i, j | 0 <= i < j < |best| :: NoWorse(side)(best[i], best[j]);
  }

  /** The average price is notional over quantity, and slippage is its signed distance from the limit in basis points:
      above the limit for a buyer, below it for a seller. */
  lemma AverageAndSlippage(side: Side, limit: real, quantity: real, levels: seq<Level>, feeBps: real)
    requires limit != 0.0
    ensures var d := DepthOf(side, limit, quantity, levels, feeBps);
            && (d.average.Some? <==> d.filled > 0.0) && (d.slippageBps.Some? <==> d.filled > 0.0)
            && (d.filled > 0.0 ==>
                  && d.average.value * d.filled == d.notional
                  && d.slippageBps.value * limit
                     == (if side == Buy then d.average.value - limit else limit - d.average.value) * 10_000.0)
  {
    hide Walk, Best, SumOf;
    var d := DepthOf(side, limit, quantity, levels, feeBps);
    if d.filled > 0.0 {
      QuotientTimes(d.notional, d.filled);
      var diff := if side == Buy then d.average.value - limit else limit - d.average.value;
      QuotientTimes(diff, limit);
      ScaleProduct(Quotient(diff, limit), limit, 10_000.0);
    }
  }

  lemma QuotientTimes(a: real, b: real)
    requires b != 0.0
    ensures Quotient(a, b) * b == a
  {}

  lemma ScaleProduct(a: real, b: real, c: real)
    ensures a * c * b == a * b * c
  {}

  lemma {:induction false} WalkWithinLimit(levels: seq<Level>, side: Side, limit: real, remaining: real, feeBps: real)
    requires Nonnegative(levels) && remaining >= 0.0
    ensures var fills := Walk(levels, side, limit, remaining, feeBps);
            Cost(side, SumOf(fills, NotionalOf)) <= Mul(Cost(side, limit), SumOf(fills, QuantityOf))
  {
    hide Mul, FeeOn;
    MulZero(Cost(side, limit));
    if levels != [] && Eligible(side, limit, levels[0]) && remaining > 0.0 {
      var l := levels[0];
      assert l in levels;
      assert forall x | x in levels[1..] :: x in levels;
      var quantity := Min(remaining, l.size);
      WalkWithinLimit(levels[1..], side, limit, remaining - quantity, feeBps);
      var rest := Walk(levels[1..], side, limit, remaining - quantity, feeBps);
      var fills := Walk(levels, side, limit, remaining, feeBps);
      assert fills[0] == MakeFill(l, quantity, feeBps) && fills[1..] == rest;
      CostOfProduct(side, quantity, l.price);
      MulMonotone(quantity, Cost(side, l.price), Cost(side, limit));
      MulCommutes(quantity, Cost(side, limit));
      MulAdd(Cost(side, limit), quantity, SumOf(rest, QuantityOf));
    }
  }

  /** A fill is never worse than the limit: signed slippage is never positive. */
  lemma SlippageNeverPositive(side: Side, limit: real, quantity: real, levels: seq<Level>, feeBps: real)
    requires Nonnegative(levels) && quantity > 0.0 && limit > 0.0
    ensures var d := DepthOf(side, limit, quantity, levels, feeBps);
            && (d.filled > 0.0 ==> d.slippageBps.Some? && d.slippageBps.value <= 0.0)
            && (d.filled <= 0.0 ==> d.slippageBps.None? && d.average.None?)
  {
    hide Mul, Best, Walk, Quotient, FeeOn;
    var best := Best(side, levels);
    BestSorted(side, levels);
    SameElements(best, levels);
    WalkWithinLimit(best, side, limit, quantity, feeBps);
    var d := DepthOf(side, limit, quantity, levels, feeBps);
    if d.filled > 0.0 {
      MulCommutes(Cost(side, limit), d.filled);
      CostOfProduct(side, d.filled, limit);
      MulCommutes(limit, d.filled);
      QuotientBound(d.notional, d.filled, limit);
      var diff := if side == Buy then d.average.value - limit else limit - d.average.value;
      MulZero(limit);
      QuotientBound(diff, limit, 0.0);
    }
  }

  // ----- choosing the snapshot -----

  function LatencyNanos(latencyMs: real): int {
    (if latencyMs > 0.0 then latencyMs * 1000000.0 else 0.0).Floor
  }

  /** The first snapshot received once the latency has passed, or the first one when no submit time is given. */
  function SelectOrderbook(books: seq<Orderbook>, options: Options): Option<Orderbook> {
    if books == [] then None
    else if options.submittedAt.None?
            || books[0].receivedAt >= options.submittedAt.value + LatencyNanos(options.latencyMs)
    then Some(books[0])
    else SelectOrderbook(books[1..], options)
  }

  // ----- the outcome -----

  function NoFill(status: Status, orderStatus: OrderStatus, reason: Reason, requested: real): SimulationResult {
    var closes := orderStatus == OrderCanceled || orderStatus == OrderRejected;
    SimulationResult(status, orderStatus, reason, requested, 0.0, if closes then 0.0 else requested,
                     if closes then requested else 0.0, [], None)
  }

  function WithFill(
      status: Status, orderStatus: OrderStatus, reason: Reason, requested: real, depth: Depth, open: real,
      canceled: real): SimulationResult {
    SimulationResult(status, orderStatus, reason, requested, depth.filled, open, canceled, depth.fills, Some(depth))
  }

  /** `isLimitOrderImmediatelyExecutable`: the best level alone is looked at. */
  predicate WouldTake(side: Side, limit: real, levels: seq<Level>) {
    var best := Best(side, levels);
    best != [] && Eligible(side, limit, best[0])
  }

  function TimeInForceOf(intent: Intent, options: Options): TimeInForce {
    if intent.timeInForce.Some? then intent.timeInForce.value else options.defaultTimeInForce
  }

  function Simulate(intent: Intent, books: seq<Orderbook>, options: Options): SimulationResult {
    var requested := intent.quantity;
    var selected := SelectOrderbook(books, options);
    if intent.orderType.Market? then NoFill(Rejected, OrderRejected, MarketDisabled, requested)
    else if selected.None? then NoFill(Unfilled, OrderAccepted, LatencySnapshotMissing, requested)
    else
      var book := selected.value;
      if book.exchangeId != intent.exchangeId || book.market != intent.market then
        NoFill(Rejected, OrderRejected, IntentMismatch, requested)
      else if book.asks == [] && book.bids == [] then NoFill(Unfilled, OrderAccepted, SnapshotMissing, requested)
      else
        var limit, tif, levels := intent.orderType.price, TimeInForceOf(intent, options), BookSide(intent.side, book);
        if (intent.postOnly || tif == PostOnly) && WouldTake(intent.side, limit, levels) then
          if options.takerPolicy == Pending then NoFill(PostOnlyPending, OrderAccepted, WouldTakePending, requested)
          else NoFill(PostOnlyRejected, OrderRejected, WouldTakeRejected, requested)
        else
          Decide(requested, tif, DepthOf(intent.side, limit, requested, levels, options.takerFeeBps))
  }

  /** What the executable depth means for the order. */
  function Decide(requested: real, tif: TimeInForce, depth: Depth): SimulationResult {
    var open := requested - depth.filled;
    if tif == Fok && open != 0.0 then NoFill(FokCanceled, OrderCanceled, FokNotFilled, requested)
    else if tif == Ioc && open != 0.0 then
      if depth.filled <= 0.0 then NoFill(IocCanceled, OrderCanceled, IocUnfilledCanceled, requested)
      else WithFill(IocCanceled, OrderCanceled, IocFilledAndCanceled, requested, depth, 0.0, open)
    else if depth.filled <= 0.0 then NoFill(Unfilled, OrderAccepted, NotCrossed, requested)
    else if open == 0.0 then WithFill(Filled, OrderFilled, CrossedFull, requested, depth, 0.0, 0.0)
    else WithFill(PartiallyFilled, OrderPartiallyFilled, CrossedPartial, requested, depth, open, 0.0)
  }

  /** Where the taker check sees nothing to take, the depth walk takes nothing. */
  lemma TakerCheckAgrees(side: Side, limit: real, quantity: real, levels: seq<Level>, feeBps: real)
    requires !WouldTake(side, limit, levels)
    ensures DepthOf(side, limit, quantity, levels, feeBps).fills == []
    ensures DepthOf(side, limit, quantity, levels, feeBps).filled == 0.0
  {}

  /** On every path: the quantity is split exactly, the fills add up to the filled part, fill-or-kill fills all or
      nothing, immediate-or-cancel leaves nothing open, and a post-only order never fills under either policy. */
  lemma OutcomeConservation(intent: Intent, books: seq<Orderbook>, options: Options)
    ensures var r := Simulate(intent, books, options);
            && r.filled + r.open + r.canceled == intent.quantity
            && r.requested == intent.quantity
            && r.filled == SumOf(r.fills, QuantityOf)
            && (TimeInForceOf(intent, options) == Fok ==>
                  r.filled == 0.0 || (r.filled == intent.quantity && r.status == Filled))
            && (TimeInForceOf(intent, options) == Ioc && r.status == IocCanceled ==> r.open == 0.0)
            && (intent.postOnly || TimeInForceOf(intent, options) == PostOnly ==> r.fills == [] && r.filled == 0.0)
            && (r.orderStatus == OrderRejected || r.orderStatus == OrderAccepted ==> r.fills == [])
            && (r.depth.Some? ==> r.depth.value.fee == r.depth.value.notional * options.takerFeeBps / 10_000.0)
  {
    hide DepthOf, FeeOn, WouldTake, SelectOrderbook, SumOf;
    NoFillsSum();
    if intent.orderType.Limit? && SelectOrderbook(books, options).Some? {
      var levels := BookSide(intent.side, SelectOrderbook(books, options).value);
      FeeIsRate(intent.side, intent.orderType.price, intent.quantity, levels, options.takerFeeBps);
      DepthSums(intent.side, intent.orderType.price, intent.quantity, levels, options.takerFeeBps);
      if !WouldTake(intent.side, intent.orderType.price, levels) {
        TakerCheckAgrees(intent.side, intent.orderType.price, intent.quantity, levels, options.takerFeeBps);
      }
    }
  }

  lemma NoFillsSum()
    ensures SumOf([], QuantityOf) == 0.0
  {}

  lemma DepthSums(side: Side, limit: real, quantity: real, levels: seq<Level>, feeBps: real)
    ensures var d := DepthOf(side, limit, quantity, levels, feeBps); d.filled == SumOf(d.fills, QuantityOf)
  {}

  // ----- the outcome, from the book's own levels -----

  function SizeWithin(side: Side, limit: real): Level -> real {
    (l: Level) => if (if side == Buy then l.price <= limit else l.price >= limit) then l.size else 0.0
  }

  /** The size that the opposite side of a book offers within a limit: asks up to it, or bids down to it. */
  function OnOffer(side: Side, limit: real, book: Orderbook): real {
    SumOf(if side == Buy then book.asks else book.bids, SizeWithin(side, limit))
  }

  /** Whether the opposite side of a book has a level within a limit. */
  ghost predicate Crosses(side: Side, limit: real, book: Orderbook) {
    if side == Buy then exists l | l in book.asks :: l.price <= limit else exists l | l in book.bids :: l.price >= limit
  }

  lemma {:induction false} AvailableIsOffer(side: Side, limit: real, levels: seq<Level>)
    ensures Available(side, limit, levels) == SumOf(levels, SizeWithin(side, limit))
  {
    hide Filter, SumOf;
    if levels == [] {
      FilterEmpty(EligibleAt(side, limit));
      SumOfNothing(SizeOf);
      SumOfNothing(SizeWithin(side, limit));
    } else {
      AvailableIsOffer(side, limit, levels[1..]);
      FilterHead(levels, EligibleAt(side, limit));
      SumOfFirst(levels, SizeWithin(side, limit));
      var rest := Filter(levels[1..], EligibleAt(side, limit));
      SumOfConcat([levels[0]], rest, SizeOf);
      SumOfSingle(levels[0], SizeOf);
      assert [] + rest == rest;
    }
  }

  lemma SumOfNothing<T(!new)>(f: T -> real)
    ensures SumOf([], f) == 0.0
  {}

  lemma SumOfFirst<T(!new)>(s: seq<T>, f: T -> real)
    requires s != []
    ensures SumOf(s, f) == f(s[0]) + SumOf(s[1..], f)
  {}

  lemma SumOfSingle<T(!new)>(x: T, f: T -> real)
    ensures SumOf([x], f) == f(x)
  {}

  /** The best level is within the limit exactly when some level is. */
  lemma TakesIffCrosses(side: Side, limit: real, book: Orderbook)
    ensures WouldTake(side, limit, BookSide(side, book)) <==> Crosses(side, limit, book)
  {
    hide Sort;
    var levels := BookSide(side, book);
    var best := Best(side, levels);
    BestSorted(side, levels);
    SameElements(best, levels);
    if Crosses(side, limit, book) {
      var l :| l in levels && (if side == Buy then l.price <= limit else l.price >= limit);
      var i :| 0 <= i < |best| && best[i] == l;
      assert i == 0 || NoWorse(side)(best[0], best[i]);
    }
    if best != [] {
      assert best[0] in levels;
    }
  }

  ghost predicate IsPostOnly(intent: Intent, options: Options) {
    intent.postOnly || intent.timeInForce == Some(PostOnly)
    || (intent.timeInForce.None? && options.defaultTimeInForce == PostOnly)
  }

  ghost predicate Asks(intent: Intent, options: Options, tif: TimeInForce) {
    intent.timeInForce == Some(tif) || (intent.timeInForce.None? && options.defaultTimeInForce == tif)
  }

  /** Orders that never reach the book: market orders, a missing snapshot, a foreign snapshot, an empty snapshot. */
  lemma UnmatchedOutcomes(intent: Intent, books: seq<Orderbook>, options: Options)
    ensures var r, book := Simulate(intent, books, options), SelectOrderbook(books, options);
            && (intent.orderType.Market? ==>
                  r.status == Rejected && r.reason == MarketDisabled && r.canceled == intent.quantity)
            && (intent.orderType.Limit? && book.None? ==>
                  r.status == Unfilled && r.reason == LatencySnapshotMissing && r.open == intent.quantity)
            && (intent.orderType.Limit? && book.Some?
                && (book.value.exchangeId != intent.exchangeId || book.value.market != intent.market) ==>
                  r.status == Rejected && r.reason == IntentMismatch && r.canceled == intent.quantity)
            && (intent.orderType.Limit? && book.Some? && book.value.exchangeId == intent.exchangeId
                && book.value.market == intent.market && book.value.asks == [] && book.value.bids == [] ==>
                  r.status == Unfilled && r.reason == SnapshotMissing && r.open == intent.quantity)
  {
    hide DepthOf, WouldTake, SelectOrderbook;
  }

  /** A limit order meets a snapshot of its own market. */
  ghost predicate Meets(intent: Intent, books: seq<Orderbook>, options: Options, book: Orderbook) {
    && intent.orderType.Limit? && SelectOrderbook(books, options) == Some(book)
    && book.exchangeId == intent.exchangeId && book.market == intent.market && (book.asks != [] || book.bids != [])
  }

  /** A post-only order that would take is stopped, by the policy's own status, with nothing filled. */
  lemma PostOnlyOutcome(intent: Intent, books: seq<Orderbook>, options: Options, book: Orderbook)
    requires Meets(intent, books, options, book)
    ensures var r := Simulate(intent, books, options);
            var stopped := IsPostOnly(intent, options) && Crosses(intent.side, intent.orderType.price, book);
            && (r.status == PostOnlyPending <==> stopped && options.takerPolicy == Pending)
            && (r.status == PostOnlyRejected <==> stopped && options.takerPolicy == Reject)
            && (r.status == PostOnlyPending ==>
                  r.orderStatus == OrderAccepted && r.reason == WouldTakePending && r.open == intent.quantity)
            && (r.status == PostOnlyRejected ==>
                  r.orderStatus == OrderRejected && r.reason == WouldTakeRejected && r.canceled == intent.quantity)
  {
    hide DepthOf, SelectOrderbook, BookSide, WouldTake, Crosses;
    TakesIffCrosses(intent.side, intent.orderType.price, book);
  }

  /** What an order of `q` gets where `offer` is on offer. */
  ghost predicate Settles(r: SimulationResult, q: real, offer: real, fok: bool, ioc: bool) {
    && r.filled == (if fok && offer < q then 0.0 else if offer < q then offer else q)
    && r.open == (if fok || ioc then 0.0 else q - r.filled)
    && r.canceled == (if fok || ioc then q - r.filled else 0.0)
    && (r.status == Filled <==> offer >= q)
    && (r.status == FokCanceled <==> fok && offer < q)
    && (r.status == IocCanceled <==> ioc && offer < q)
    && (r.status == PartiallyFilled <==> !fok && !ioc && 0.0 < offer < q)
    && (r.status == Unfilled <==> !fok && !ioc && offer == 0.0)
  }

  /** How each status is reported. */
  ghost predicate Reported(r: SimulationResult) {
    && (r.status == Filled ==> r.orderStatus == OrderFilled && r.reason == CrossedFull)
    && (r.status == PartiallyFilled ==> r.orderStatus == OrderPartiallyFilled && r.reason == CrossedPartial)
    && (r.status == Unfilled ==> r.orderStatus == OrderAccepted && r.reason == NotCrossed)
    && (r.status == FokCanceled ==> r.orderStatus == OrderCanceled && r.reason == FokNotFilled)
    && (r.status == IocCanceled ==>
          && r.orderStatus == OrderCanceled
          && r.reason == (if r.filled > 0.0 then IocFilledAndCanceled else IocUnfilledCanceled))
  }

  lemma DecideExact(q: real, tif: TimeInForce, depth: Depth, offer: real)
    requires q > 0.0 && offer >= 0.0 && depth.filled == if offer < q then offer else q
    ensures var r := Decide(q, tif, depth);
            Settles(r, q, offer, tif == Fok, tif == Ioc) && Reported(r) && (r.filled > 0.0 ==> r.depth == Some(depth))
  {}

  /** What a limit order that is not stopped gets, from the levels of its book: as much as is on offer within its limit,
      or for fill-or-kill all or nothing; a good-till-cancel remainder stays open, any other is cancelled. */
  lemma MatchedOutcome(intent: Intent, books: seq<Orderbook>, options: Options, book: Orderbook)
    requires Meets(intent, books, options, book) && intent.quantity > 0.0
    requires Nonnegative(book.asks) && Nonnegative(book.bids)
    requires !(IsPostOnly(intent, options) && Crosses(intent.side, intent.orderType.price, book))
    ensures var r := Simulate(intent, books, options);
            && Settles(r, intent.quantity, OnOffer(intent.side, intent.orderType.price, book),
                       Asks(intent, options, Fok), Asks(intent, options, Ioc))
            && Reported(r)
            && (r.filled > 0.0 ==>
                  r.depth == Some(DepthOf(intent.side, intent.orderType.price, intent.quantity,
                                          if intent.side == Buy then book.asks else book.bids, options.takerFeeBps)))
  {
    ReachesDecision(intent, books, options, book);
    DepthIsOffer(intent.side, intent.orderType.price, intent.quantity, book, options.takerFeeBps);
    hide DepthOf, Simulate, Meets, Crosses, OnOffer, Nonnegative, Decide, Settles, Reported;
    var levels := if intent.side == Buy then book.asks else book.bids;
    DecideExact(intent.quantity, TimeInForceOf(intent, options),
                DepthOf(intent.side, intent.orderType.price, intent.quantity, levels, options.takerFeeBps),
                OnOffer(intent.side, intent.orderType.price, book));
  }

  /** What a limit order for nothing, or for less, gets: never a fill, whatever the book. For nothing it is reported as
      unfilled even though nothing is left open; for less than nothing it is settled as unfilled by its policy. */
  lemma EmptyOrderOutcome(intent: Intent, books: seq<Orderbook>, options: Options, book: Orderbook)
    requires Meets(intent, books, options, book) && intent.quantity <= 0.0
    requires !(IsPostOnly(intent, options) && Crosses(intent.side, intent.orderType.price, book))
    ensures var r := Simulate(intent, books, options);
            var fok, ioc := Asks(intent, options, Fok), Asks(intent, options, Ioc);
            && r.fills == [] && r.filled == 0.0 && Reported(r)
            && r.open == (if fok || ioc then 0.0 else intent.quantity)
            && r.canceled == (if fok || ioc then intent.quantity else 0.0)
            && (r.status == Unfilled <==> intent.quantity == 0.0 || (!fok && !ioc))
            && (r.status == FokCanceled <==> fok && intent.quantity < 0.0)
            && (r.status == IocCanceled <==> ioc && intent.quantity < 0.0)
  {
    ReachesDecision(intent, books, options, book);
    hide Simulate, Meets, Crosses, Best;
  }

  lemma ReachesDecision(intent: Intent, books: seq<Orderbook>, options: Options, book: Orderbook)
    requires Meets(intent, books, options, book)
    requires !(IsPostOnly(intent, options) && Crosses(intent.side, intent.orderType.price, book))
    ensures var levels := if intent.side == Buy then book.asks else book.bids;
            Simulate(intent, books, options)
              == Decide(intent.quantity, TimeInForceOf(intent, options),
                        DepthOf(intent.side, intent.orderType.price, intent.quantity, levels, options.takerFeeBps))
  {
    TakesIffCrosses(intent.side, intent.orderType.price, book);
    hide DepthOf, SelectOrderbook, WouldTake, Crosses, Decide;
  }

  lemma DepthIsOffer(side: Side, limit: real, quantity: real, book: Orderbook, feeBps: real)
    requires Nonnegative(book.asks) && Nonnegative(book.bids) && quantity > 0.0
    ensures var levels := if side == Buy then book.asks else book.bids;
            var offer := OnOffer(side, limit, book);
            offer >= 0.0
            && DepthOf(side, limit, quantity, levels, feeBps).filled == (if offer < quantity then offer else quantity)
  {
    var levels := if side == Buy then book.asks else book.bids;
    FilledIsMinimum(side, limit, quantity, levels, feeBps);
    AvailableIsOffer(side, limit, levels);
    OfferNonnegative(levels, side, limit);
    hide DepthOf, SumOf, Available, Nonnegative;
  }

  lemma {:induction false} OfferNonnegative(levels: seq<Level>, side: Side, limit: real)
    requires Nonnegative(levels)
    ensures SumOf(levels, SizeWithin(side, limit)) >= 0.0
  {
    if levels != [] {
      assert levels[0] in levels && forall l | l in levels[1..] :: l in levels;
      OfferNonnegative(levels[1..], side, limit);
    }
  }

  /** There is a snapshot to trade on exactly when one was received once the latency had passed. */
  lemma {:induction false} SelectedIff(books: seq<Orderbook>, options: Options)
    ensures SelectOrderbook(books, options).Some? <==>
              exists b | b in books :: options.submittedAt.None? || b.receivedAt >= Due(options)
  {
    if books != [] {
      SelectedIff(books[1..], options);
      assert books[0] in books && forall b | b in books :: b == books[0] || b in books[1..];
    }
  }

  /** When a submitted order reaches the market. */
  function Due(options: Options): int
    requires options.submittedAt.Some?
  {
    options.submittedAt.value + LatencyNanos(options.latencyMs)
  }

  /** Latency in whole nanoseconds, cut down; a negative latency is none. */
  lemma LatencyMeaning(latencyMs: real)
    ensures latencyMs <= 0.0 ==> LatencyNanos(latencyMs) == 0
    ensures latencyMs > 0.0 ==>
              LatencyNanos(latencyMs) as real <= latencyMs * 1_000_000.0 < LatencyNanos(latencyMs) as real + 1.0
  {}

  /** An order that trades at all trades on a real snapshot of its own market, received after its latency,
      and no earlier usable snapshot was skipped. */
  lemma {:induction false} SelectedIsFirst(books: seq<Orderbook>, options: Options) returns (i: nat)
    requires SelectOrderbook(books, options).Some?
    ensures i < |books| && books[i] == SelectOrderbook(books, options).value
    ensures options.submittedAt.None? ==> i == 0
    ensures options.submittedAt.Some? ==>
              var due := options.submittedAt.value + LatencyNanos(options.latencyMs);
              books[i].receivedAt >= due && forall j | 0 <= j < i :: books[j].receivedAt < due
  {
    if options.submittedAt.None? || books[0].receivedAt >= options.submittedAt.value + LatencyNanos(options.latencyMs) {
      i := 0;
    } else {
      var j := SelectedIsFirst(books[1..], options);
      i := j + 1;
    }
  }
}
