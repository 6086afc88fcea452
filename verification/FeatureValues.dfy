/** Trade buckets and the features computed from them, on the sorted views of the feature input. */
module FeatureValues {
  import opened Sequences
  import opened Reals
  import opened FeatureOrder

  /** A trade as the features read it: numbers are what the texts parse to, if anything. */
  datatype TradeView = TradeView(ms: int, price: Option<real>, quantity: Option<real>, side: TradeSide)

  datatype Level = Level(price: Option<real>, size: Option<real>)

  datatype BookView = BookView(ms: int, asks: seq<Level>, bids: seq<Level>)

  /** The millisecond a `Date` keeps of a nanosecond instant. */
  function Millis(nanos: int): int { nanos / 1_000_000 }

  /** `parse` stands for `parseFinancialDecimal`. */
  function TradesOf(parse: string -> Option<real>, views: seq<View>): seq<TradeView> {
    if views == [] then []
    else
      var c := views[0].canonical;
      (if c.body.Trade?
       then [TradeView(Millis(c.nanos), parse(c.body.price), parse(c.body.quantity), c.body.side)]
       else [])
      + TradesOf(parse, views[1..])
  }

  function ParseLevel(parse: string -> Option<real>): BookLevel -> Level {
    (l: BookLevel) => Level(parse(l.price), parse(l.size))
  }

  function BooksOf(parse: string -> Option<real>, views: seq<View>): seq<BookView> {
    if views == [] then []
    else
      var c := views[0].canonical;
      (if c.body.Book?
       then [BookView(Millis(c.nanos), Map(c.body.asks, ParseLevel(parse)), Map(c.body.bids, ParseLevel(parse)))]
       else [])
      + BooksOf(parse, views[1..])
  }

  ghost predicate TimeOrdered(trades: seq<TradeView>) {
    forall i, j | 0 <= i < j < |trades| :: trades[i].ms <= trades[j].ms
  }

  // ----- buckets -----

  /** Bucket number of an instant; bucket 0 is the oldest of `count` buckets that end with the observation. */
  function Slot(observedMs: int, bucketMs: int, count: int, ms: int): int
    requires bucketMs > 0
  {
    ms / bucketMs - observedMs / bucketMs + count - 1
  }

  function FirstStart(observedMs: int, bucketMs: int, count: int): int
    requires bucketMs > 0
  {
    observedMs / bucketMs * bucketMs - (count - 1) * bucketMs
  }

  function InSlot(observedMs: int, bucketMs: int, count: int, i: int): TradeView -> bool
    requires bucketMs > 0
  {
    (t: TradeView) => t.ms <= observedMs && Slot(observedMs, bucketMs, count, t.ms) == i
  }

  function BelowSlot(observedMs: int, bucketMs: int, count: int, i: int): TradeView -> bool
    requires bucketMs > 0
  {
    (t: TradeView) => t.ms <= observedMs && 0 <= Slot(observedMs, bucketMs, count, t.ms) < i
  }

  /** From the start of the first bucket to the observation. */
  function InWindow(observedMs: int, bucketMs: int, count: int): TradeView -> bool
    requires bucketMs > 0
  {
    (t: TradeView) => FirstStart(observedMs, bucketMs, count) <= t.ms <= observedMs
  }

  function Buckets(trades: seq<TradeView>, observedMs: int, bucketMs: int, count: nat): seq<seq<TradeView>>
    requires bucketMs > 0
  {
    seq(count, i => Filter(trades, InSlot(observedMs, bucketMs, count, i)))
  }

  lemma FloorLess(t: int, m: int, k: int)
    requires m > 0
    ensures t < k * m <==> t / m < k
  {
    var q := t / m;
    assert q * m <= t < q * m + m;
    if q < k {
      assert (q + 1) * m <= k * m;
    } else {
      assert k * m <= q * m;
    }
  }

  lemma FloorMonotone(a: int, b: int, m: int)
    requires m > 0 && a <= b
    ensures a / m <= b / m
  {
    var q := b / m;
    assert b < q * m + m == (q + 1) * m;
    FloorLess(a, m, q + 1);
  }

  /** The window test and the slot range say the same thing. */
  lemma WindowIsSlots(observedMs: int, bucketMs: int, count: nat, ms: int)
    requires bucketMs > 0 && ms <= observedMs
    ensures Slot(observedMs, bucketMs, count, ms) < count
    ensures FirstStart(observedMs, bucketMs, count) <= ms <==> 0 <= Slot(observedMs, bucketMs, count, ms)
  {
    FloorMonotone(ms, observedMs, bucketMs);
    var k := observedMs / bucketMs - (count - 1);
    assert FirstStart(observedMs, bucketMs, count) == k * bucketMs;
    FloorLess(ms, bucketMs, k);
  }

  lemma SlotIs(observedMs: int, bucketMs: int, count: int, ms: int)
    requires bucketMs > 0
    ensures Slot(observedMs, bucketMs, count, ms) == ms / bucketMs - observedMs / bucketMs + (count - 1)
  {}

  lemma Distribute(q: int, o: int, c: int, m: int)
    ensures q * m - (o * m - c * m) == (q - o + c) * m
  {}

  lemma DivideExact(s: int, m: int)
    requires m > 0
    ensures s * m / m == s
  {
    FloorLess(s * m, m, s);
    FloorLess(s * m, m, s + 1);
  }

  lemma SlotFromStarts(observedMs: int, bucketMs: int, count: nat, ms: int)
    requires bucketMs > 0
    ensures ms / bucketMs * bucketMs - FirstStart(observedMs, bucketMs, count)
         == Slot(observedMs, bucketMs, count, ms) * bucketMs
    ensures (ms / bucketMs * bucketMs - FirstStart(observedMs, bucketMs, count)) / bucketMs
         == Slot(observedMs, bucketMs, count, ms)
  {
    var q, o := ms / bucketMs, observedMs / bucketMs;
    hide Slot, FirstStart;
    FirstStartIs(observedMs, bucketMs, count);
    SlotIs(observedMs, bucketMs, count, ms);
    Distribute(q, o, count - 1, bucketMs);
    DivideExact(Slot(observedMs, bucketMs, count, ms), bucketMs);
  }

  /** `buildTradeBuckets`: each trade in the window is pushed onto the bucket its start time names. */
  method BuildTradeBuckets(trades: seq<TradeView>, observedMs: int, bucketMs: int, count: nat)
    returns (buckets: seq<seq<TradeView>>)
    requires bucketMs > 0
    ensures buckets == Buckets(trades, observedMs, bucketMs, count)
  {
    var endBucketStart := observedMs / bucketMs * bucketMs;
    var firstBucketStart := endBucketStart - (count - 1) * bucketMs;
    buckets := seq(count, _ => []);
    for n := 0 to |trades|
      invariant |buckets| == count
      invariant forall i | 0 <= i < count :: buckets[i] == Filter(trades[..n], InSlot(observedMs, bucketMs, count, i))
    {
      hide Filter, Slot, FirstStart;
      var t := trades[n];
      forall i | 0 <= i < count
        ensures Filter(trades[..n + 1], InSlot(observedMs, bucketMs, count, i))
             == buckets[i] + if InSlot(observedMs, bucketMs, count, i)(t) then [t] else []
      {
        FilterStep(trades, n, InSlot(observedMs, bucketMs, count, i));
      }
      FirstStartIs(observedMs, bucketMs, count);
      if t.ms <= firstBucketStart - 1 || t.ms > observedMs {
        if t.ms <= observedMs {
          WindowIsSlots(observedMs, bucketMs, count, t.ms);
        }
        continue;
      }
      WindowIsSlots(observedMs, bucketMs, count, t.ms);
      SlotFromStarts(observedMs, bucketMs, count, t.ms);
      var bucketStart := t.ms / bucketMs * bucketMs;
      var index := (bucketStart - firstBucketStart) / bucketMs;
      if 0 <= index < |buckets| {
        buckets := buckets[index := buckets[index] + [t]];
      }
    }
    assert trades[..|trades|] == trades;
  }

  lemma FirstStartIs(observedMs: int, bucketMs: int, count: int)
    requires bucketMs > 0
    ensures FirstStart(observedMs, bucketMs, count) == observedMs / bucketMs * bucketMs - (count - 1) * bucketMs
  {}

  lemma SlotMonotone(observedMs: int, bucketMs: int, count: int, a: int, b: int)
    requires bucketMs > 0 && a <= b
    ensures Slot(observedMs, bucketMs, count, a) <= Slot(observedMs, bucketMs, count, b)
  {
    FloorMonotone(a, b, bucketMs);
  }

  lemma {:induction false} FirstBuckets(trades: seq<TradeView>, observedMs: int, bucketMs: int, count: nat, k: nat)
    requires bucketMs > 0 && TimeOrdered(trades) && k <= count
    ensures Flatten(Buckets(trades, observedMs, bucketMs, count)[..k])
         == Filter(trades, BelowSlot(observedMs, bucketMs, count, k))
  {
    var buckets := Buckets(trades, observedMs, bucketMs, count);
    if k == 0 {
      FilterNone(trades, BelowSlot(observedMs, bucketMs, count, 0));
    } else {
      FirstBuckets(trades, observedMs, bucketMs, count, k - 1);
      assert buckets[..k] == buckets[..k - 1] + [buckets[k - 1]];
      FlattenConcat(buckets[..k - 1], [buckets[k - 1]]);
      FlattenOne(buckets[k - 1]);
      SlotsPrecede(trades, observedMs, bucketMs, count, k - 1);
      hide Filter, Slot, Flatten;
      FilterSplit(trades, BelowSlot(observedMs, bucketMs, count, k - 1), InSlot(observedMs, bucketMs, count, k - 1),
                  BelowSlot(observedMs, bucketMs, count, k));
    }
  }

  lemma SlotsPrecede(trades: seq<TradeView>, observedMs: int, bucketMs: int, count: nat, k: nat)
    requires bucketMs > 0 && TimeOrdered(trades)
    ensures Precedes(trades, BelowSlot(observedMs, bucketMs, count, k), InSlot(observedMs, bucketMs, count, k))
  {
    forall i, j | 0 <= i < j < |trades|
      ensures InSlot(observedMs, bucketMs, count, k)(trades[i]) ==>
                !BelowSlot(observedMs, bucketMs, count, k)(trades[j])
    {
      SlotMonotone(observedMs, bucketMs, count, trades[i].ms, trades[j].ms);
    }
  }

  /** Bucketing is an order-preserving partition: the buckets, laid end to end, are exactly the trades of the window,
      each once and in order. */
  lemma BucketsPartitionWindow(trades: seq<TradeView>, observedMs: int, bucketMs: int, count: nat)
    requires bucketMs > 0 && TimeOrdered(trades)
    ensures Flatten(Buckets(trades, observedMs, bucketMs, count))
         == Filter(trades, InWindow(observedMs, bucketMs, count))
  {
    var buckets := Buckets(trades, observedMs, bucketMs, count);
    assert buckets[..count] == buckets;
    FirstBuckets(trades, observedMs, bucketMs, count, count);
    forall t | t in trades
      ensures BelowSlot(observedMs, bucketMs, count, count)(t) == InWindow(observedMs, bucketMs, count)(t)
    {
      if t.ms <= observedMs {
        WindowIsSlots(observedMs, bucketMs, count, t.ms);
      }
    }
    FilterAgree(trades, BelowSlot(observedMs, bucketMs, count, count), InWindow(observedMs, bucketMs, count));
  }

  // ----- parsing and sums -----

  /** `parsePositiveDecimal`, after parsing. */
  function Positive(n: Option<real>): (r: Result<real, Reason>)
    ensures r.Ok? ==> r.value > 0.0 && n == Some(r.value)
  {
    if n.None? then Err(InvalidDecimal) else if n.value <= 0.0 then Err(InvalidMarketValue) else Ok(n.value)
  }

  function TradeNotional(t: TradeView): Result<real, Reason> {
    var price :- Positive(t.price);
    var quantity :- Positive(t.quantity);
    Ok(Mul(price, quantity))
  }

  /** Left-to-right sum that stops at the first value it cannot read. */
  function SumChecked<T>(s: seq<T>, f: T -> Result<real, Reason>): Result<real, Reason> {
    if s == [] then Ok(0.0)
    else
      var before :- SumChecked(s[..|s| - 1], f);
      var last :- f(s[|s| - 1]);
      Ok(before + last)
  }

  function QuantityOf(t: TradeView): Result<real, Reason> { Positive(t.quantity) }

  function SumNotional(trades: seq<TradeView>): Result<real, Reason> { SumChecked(trades, TradeNotional) }

  function AddChecked(a: Result<real, Reason>, b: Result<real, Reason>): Result<real, Reason> {
    var x :- a;
    var y :- b;
    Ok(x + y)
  }

  /** Summing in two parts gives the same total and the same first failure. */
  lemma {:induction false} SumCheckedConcat<T(!new)>(a: seq<T>, b: seq<T>, f: T -> Result<real, Reason>)
    ensures SumChecked(a + b, f) == AddChecked(SumChecked(a, f), SumChecked(b, f))
  {
    if b == [] {
      assert a + b == a;
    } else {
      assert (a + b)[..|a + b| - 1] == a + b[..|b| - 1];
      SumCheckedConcat(a, b[..|b| - 1], f);
    }
  }

  function SumBuckets(buckets: seq<seq<TradeView>>): Result<real, Reason> {
    if buckets == [] then Ok(0.0) else AddChecked(SumNotional(buckets[0]), SumBuckets(buckets[1..]))
  }

  lemma {:induction false} SumOfFlatten(buckets: seq<seq<TradeView>>)
    ensures SumNotional(Flatten(buckets)) == SumBuckets(buckets)
  {
    if buckets != [] {
      SumOfFlatten(buckets[1..]);
      SumCheckedConcat(buckets[0], Flatten(buckets[1..]), TradeNotional);
    }
  }

  /** The bucket notionals add up to the window notional, or fail on the same trade. */
  lemma BucketNotionalsConserved(trades: seq<TradeView>, observedMs: int, bucketMs: int, count: nat)
    requires bucketMs > 0 && TimeOrdered(trades)
    ensures SumBuckets(Buckets(trades, observedMs, bucketMs, count))
         == SumNotional(Filter(trades, InWindow(observedMs, bucketMs, count)))
  {
    BucketsPartitionWindow(trades, observedMs, bucketMs, count);
    SumOfFlatten(Buckets(trades, observedMs, bucketMs, count));
  }

  // ----- volume-weighted average price -----

  function Lookback(trades: seq<TradeView>, observedMs: int, windowMs: int): seq<TradeView> {
    Filter(trades, (t: TradeView) => observedMs - windowMs < t.ms <= observedMs)
  }

  function Vwap(trades: seq<TradeView>): Result<real, Reason> {
    if trades == [] then Err(InsufficientInput)
    else
      var quantity :- SumChecked(trades, QuantityOf);
      var notional :- SumNotional(trades);
      if quantity <= 0.0 || notional <= 0.0 then Err(InvalidMarketValue) else Ok(Quotient(notional, quantity))
  }

  ghost predicate PricesWithin(trades: seq<TradeView>, lo: real, hi: real) {
    forall t | t in trades && t.price.Some? :: lo <= t.price.value <= hi
  }

  lemma {:induction false} NotionalWithin(trades: seq<TradeView>, lo: real, hi: real)
    requires PricesWithin(trades, lo, hi)
    requires SumChecked(trades, QuantityOf).Ok? && SumNotional(trades).Ok?
    ensures var q, n := SumChecked(trades, QuantityOf).value, SumNotional(trades).value;
            Mul(lo, q) <= n <= Mul(hi, q)
  {
    hide Mul;
    if trades == [] {
      MulZero(lo);
      MulZero(hi);
    } else {
      var init, t := trades[..|trades| - 1], trades[|trades| - 1];
      assert t in trades;
      assert forall x | x in init :: x in trades;
      NotionalWithin(init, lo, hi);
      var price, quantity := Positive(t.price).value, Positive(t.quantity).value;
      var before := SumChecked(init, QuantityOf).value;
      MulMonotone(quantity, lo, price);
      MulMonotone(quantity, price, hi);
      MulCommutes(quantity, lo);
      MulCommutes(quantity, hi);
      MulCommutes(quantity, price);
      MulAdd(lo, before, quantity);
      MulAdd(hi, before, quantity);
    }
  }

  /** The average price lies between any bounds on the trade prices, in particular their minimum and maximum. */
  lemma VwapWithin(trades: seq<TradeView>, lo: real, hi: real)
    requires PricesWithin(trades, lo, hi) && Vwap(trades).Ok?
    ensures lo <= Vwap(trades).value <= hi
  {
    hide Mul, Quotient, SumChecked;
    NotionalWithin(trades, lo, hi);
    QuotientBound(SumNotional(trades).value, SumChecked(trades, QuantityOf).value, lo);
    QuotientBound(SumNotional(trades).value, SumChecked(trades, QuantityOf).value, hi);
  }

  lemma QuotientPositive(a: real, b: real)
    requires a > 0.0 && b > 0.0
    ensures Quotient(a, b) > 0.0
  {}

  /** `calculateVwapDeviationBps`: how far the last price lies from the average, in basis points. */
  function VwapDeviation(trades: seq<TradeView>): Result<real, Reason> {
    match Vwap(trades)
    case Err(e) => Err(e)
    case Ok(vwap) =>
      match Positive(trades[|trades| - 1].price)
      case Err(e) => Err(e)
      case Ok(latest) =>
        VwapPositive(trades);
        Ok(Mul(Quotient(latest - vwap, vwap), 10_000.0))
  }

  lemma VwapPositive(trades: seq<TradeView>)
    requires Vwap(trades).Ok?
    ensures Vwap(trades).value > 0.0
  {
    hide SumChecked, SumNotional, Quotient;
    QuotientPositive(SumNotional(trades).value, SumChecked(trades, QuantityOf).value);
  }

  // ----- direction imbalance -----

  function Directional(trades: seq<TradeView>): seq<TradeView> {
    Filter(trades, (t: TradeView) => t.side == Bid || t.side == Ask)
  }

  /** The quantity of one side, zero for trades of the other. */
  function SideQuantity(side: TradeSide): TradeView -> Result<real, Reason> {
    (t: TradeView) =>
      match Positive(t.quantity)
      case Err(e) => Err(e)
      case Ok(q) => Ok(if t.side == side then q else 0.0)
  }

  /** `calculateTradeDirectionImbalanceRatio` on the trades of its window: bids minus asks over their sum. */
  method CalculateImbalance(trades: seq<TradeView>) returns (r: Result<real, Reason>)
    ensures r == ImbalanceOf(Directional(trades))
    ensures r.Ok? ==> -1.0 <= r.value <= 1.0
  {
    hide Directional, SumChecked, SideQuantity, Positive, Quotient, Filter;
    var directional := Directional(trades);
    if directional == [] {
      return Err(InsufficientInput);
    }
    SumEmpty<TradeView>(SideQuantity(Bid));
    SumEmpty<TradeView>(SideQuantity(Ask));
    assert directional[..0] == [];
    var bid, ask := 0.0, 0.0;
    for n := 0 to |directional|
      invariant SumChecked(directional[..n], SideQuantity(Bid)) == Ok(bid)
      invariant SumChecked(directional[..n], SideQuantity(Ask)) == Ok(ask)
      invariant bid >= 0.0 && ask >= 0.0
    {
      var t := directional[n];
      var quantity := Positive(t.quantity);
      SideQuantityIs(t);
      if quantity.Err? {
        SumFails(directional, n, SideQuantity(Bid));
        return Err(quantity.error);
      }
      DirectionalSide(trades, n);
      SumStep(directional, n, SideQuantity(Bid));
      SumStep(directional, n, SideQuantity(Ask));
      if t.side == Bid {
        bid := bid + quantity.value;
      } else {
        ask := ask + quantity.value;
      }
    }
    assert directional[..|directional|] == directional;
    if bid + ask <= 0.0 {
      return Err(InvalidMarketValue);
    }
    RatioWithin(bid, ask);
    return Ok(Quotient(bid - ask, bid + ask));
  }

  lemma SumEmpty<T(!new)>(f: T -> Result<real, Reason>)
    ensures SumChecked([], f) == Ok(0.0)
  {}

  lemma SumStep<T(!new)>(s: seq<T>, n: nat, f: T -> Result<real, Reason>)
    requires n < |s| && SumChecked(s[..n], f).Ok? && f(s[n]).Ok?
    ensures SumChecked(s[..n + 1], f) == Ok(SumChecked(s[..n], f).value + f(s[n]).value)
  {
    assert s[..n + 1][..n] == s[..n];
  }

  lemma SideQuantityIs(t: TradeView)
    ensures Positive(t.quantity).Err? ==> SideQuantity(Bid)(t) == Err(Positive(t.quantity).error)
    ensures Positive(t.quantity).Ok? ==>
              && SideQuantity(Bid)(t) == Ok(if t.side == Bid then Positive(t.quantity).value else 0.0)
              && SideQuantity(Ask)(t) == Ok(if t.side == Ask then Positive(t.quantity).value else 0.0)
  {}

  lemma DirectionalSide(trades: seq<TradeView>, n: nat)
    requires n < |Directional(trades)|
    ensures Directional(trades)[n].side == Bid || Directional(trades)[n].side == Ask
  {
    FilterMembers(trades, (t: TradeView) => t.side == Bid || t.side == Ask);
    assert Directional(trades)[n] in Directional(trades);
  }

  lemma {:induction false} SumFails<T(!new)>(s: seq<T>, n: nat, f: T -> Result<real, Reason>)
    requires n < |s| && SumChecked(s[..n], f).Ok? && f(s[n]).Err?
    ensures SumChecked(s, f) == Err(f(s[n]).error)
  {
    if n == |s| - 1 {
      assert s[..|s| - 1] == s[..n];
    } else {
      var init := s[..|s| - 1];
      assert init[..n] == s[..n];
      SumFails(init, n, f);
    }
  }

  lemma RatioWithin(a: real, b: real)
    requires a >= 0.0 && b >= 0.0 && a + b > 0.0
    ensures -1.0 <= Quotient(a - b, a + b) <= 1.0
  {
    QuotientBound(a - b, a + b, 1.0);
    QuotientBound(a - b, a + b, -1.0);
  }

  function ImbalanceOf(directional: seq<TradeView>): Result<real, Reason> {
    if directional == [] then Err(InsufficientInput)
    else
      var bid :- SumChecked(directional, SideQuantity(Bid));
      var ask :- SumChecked(directional, SideQuantity(Ask));
      if bid + ask <= 0.0 then Err(InvalidMarketValue) else Ok(Quotient(bid - ask, bid + ask))
  }

  /** Quantities of one side are never negative. */
  lemma {:induction false} SideNonnegative(trades: seq<TradeView>, side: TradeSide)
    ensures var r := SumChecked(trades, SideQuantity(side)); r.Ok? ==> r.value >= 0.0
  {
    if trades != [] {
      SideNonnegative(trades[..|trades| - 1], side);
    }
  }

  lemma ImbalanceWithin(directional: seq<TradeView>)
    ensures ImbalanceOf(directional).Ok? ==> -1.0 <= ImbalanceOf(directional).value <= 1.0
  {
    hide SumChecked, SideQuantity, Quotient;
    SideNonnegative(directional, Bid);
    SideNonnegative(directional, Ask);
    var bid, ask := SumChecked(directional, SideQuantity(Bid)), SumChecked(directional, SideQuantity(Ask));
    if bid.Ok? && ask.Ok? && bid.value + ask.value > 0.0 {
      RatioWithin(bid.value, ask.value);
    }
  }

  // ----- median -----

  function AtMost(a: real, b: real): bool { a <= b }

  function Median(values: seq<real>): real
    requires values != []
  {
    var sorted := Sort(values, AtMost);
    SameElements(sorted, values);
    var middle := |sorted| / 2;
    if |sorted| % 2 == 1 then sorted[middle] else (sorted[middle - 1] + sorted[middle]) / 2.0
  }

  lemma AtMostOrders(values: seq<real>)
    ensures TotalOn(values, AtMost) && TransitiveOn(values, AtMost) && TiesEqual(values, AtMost)
  {}

  /** The median lies between any bounds on the values, in particular their minimum and maximum. */
  lemma MedianWithin(values: seq<real>, lo: real, hi: real)
    requires values != []
    requires forall v | v in values :: lo <= v <= hi
    ensures lo <= Median(values) <= hi
  {
    hide Sort;
    var sorted := Sort(values, AtMost);
    SameElements(sorted, values);
    forall i | 0 <= i < |sorted|
      ensures lo <= sorted[i] <= hi
    {
      assert sorted[i] in values;
    }
  }

  /** The median does not depend on the order of the values. */
  lemma MedianPermutation(values: seq<real>, shuffled: seq<real>)
    requires values != [] && multiset(shuffled) == multiset(values)
    ensures shuffled != [] && Median(shuffled) == Median(values)
  {
    SameElements(shuffled, values);
    AtMostOrders(values);
    hide Sort, TotalOn, TransitiveOn, TiesEqual;
    SortPermutation(values, shuffled, AtMost);
  }

  // ----- session liquidity -----

  function LevelNotional(l: Level): Result<real, Reason> {
    var price :- Positive(l.price);
    var size :- Positive(l.size);
    Ok(Mul(price, size))
  }

  function FirstFive(levels: seq<Level>): seq<Level> { if |levels| <= 5 then levels else levels[..5] }

  function Depth5(b: BookView): Result<real, Reason> {
    AddChecked(SumChecked(FirstFive(b.bids), LevelNotional), SumChecked(FirstFive(b.asks), LevelNotional))
  }

  /** All values of a list of checked computations, or the first failure. */
  function Collect<T>(s: seq<T>, f: T -> Result<real, Reason>): (r: Result<seq<real>, Reason>)
    ensures r.Ok? ==> |r.value| == |s|
  {
    if s == [] then Ok([])
    else
      var first :- f(s[0]);
      var rest :- Collect(s[1..], f);
      Ok([first] + rest)
  }

  /** The last book of a slot, if it has any. */
  function LastBook(books: seq<BookView>, observedMs: int, bucketMs: int, count: int, i: int): Option<BookView>
    requires bucketMs > 0
  {
    if books == [] then None
    else
      var b := books[|books| - 1];
      if b.ms <= observedMs && Slot(observedMs, bucketMs, count, b.ms) == i then Some(b)
      else LastBook(books[..|books| - 1], observedMs, bucketMs, count, i)
  }

  lemma LastBookStep(books: seq<BookView>, n: nat, observedMs: int, bucketMs: int, count: int, i: int)
    requires bucketMs > 0 && n < |books|
    ensures LastBook(books[..n + 1], observedMs, bucketMs, count, i)
         == if books[n].ms <= observedMs && Slot(observedMs, bucketMs, count, books[n].ms) == i then Some(books[n])
            else LastBook(books[..n], observedMs, bucketMs, count, i)
  {
    hide Slot;
    assert books[..n + 1][..n] == books[..n];
  }

  /** `buildOrderbookBuckets`: each bucket is overwritten by the later book. */
  method BuildOrderbookBuckets(books: seq<BookView>, observedMs: int, bucketMs: int, count: nat)
    returns (buckets: seq<Option<BookView>>)
    requires bucketMs > 0
    ensures |buckets| == count
    ensures forall i | 0 <= i < count :: buckets[i] == LastBook(books, observedMs, bucketMs, count, i)
  {
    var endBucketStart := observedMs / bucketMs * bucketMs;
    var firstBucketStart := endBucketStart - (count - 1) * bucketMs;
    buckets := seq(count, _ => None);
    for n := 0 to |books|
      invariant |buckets| == count
      invariant forall i | 0 <= i < count :: buckets[i] == LastBook(books[..n], observedMs, bucketMs, count, i)
    {
      hide LastBook, Slot, FirstStart;
      var b := books[n];
      forall i | 0 <= i < count
        ensures LastBook(books[..n + 1], observedMs, bucketMs, count, i)
             == if b.ms <= observedMs && Slot(observedMs, bucketMs, count, b.ms) == i then Some(b) else buckets[i]
      {
        LastBookStep(books, n, observedMs, bucketMs, count, i);
      }
      FirstStartIs(observedMs, bucketMs, count);
      if b.ms <= observedMs {
        WindowIsSlots(observedMs, bucketMs, count, b.ms);
      }
      if b.ms < firstBucketStart || b.ms > observedMs {
        continue;
      }
      SlotFromStarts(observedMs, bucketMs, count, b.ms);
      var bucketStart := b.ms / bucketMs * bucketMs;
      var index := (bucketStart - firstBucketStart) / bucketMs;
      if 0 <= index < |buckets| {
        buckets := buckets[index := Some(b)];
      }
    }
    assert books[..|books|] == books;
  }

  /** The last books of the first `k` slots; slots without a book are left out. */
  function BaselineBooks(books: seq<BookView>, observedMs: int, bucketMs: int, count: int, k: nat): (r: seq<BookView>)
    requires bucketMs > 0
    ensures |r| <= k
  {
    if k == 0 then []
    else
      var last := LastBook(books, observedMs, bucketMs, count, k - 1);
      BaselineBooks(books, observedMs, bucketMs, count, k - 1) + if last.Some? then [last.value] else []
  }

  function CapAtOne(r: real): real {
    if r < 0.0 then 0.0 else Min(r, 1.0)
  }

  function KstSessionWeight(observedMs: int): real {
    var hour := (observedMs + 9 * 3_600_000) / 3_600_000 % 24;
    if 9 <= hour <= 23 then 1.0 else if 0 <= hour <= 2 then 0.6 else 0.8
  }

  function BucketVolumes(trades: seq<TradeView>, observedMs: int, bucketMs: int, count: nat)
    : Result<(real, seq<real>), Reason>
    requires bucketMs > 0 && count > 0
  {
    var buckets := Buckets(trades, observedMs, bucketMs, count);
    var latest :- SumNotional(buckets[count - 1]);
    var baseline :- Collect(buckets[..count - 1], SumNotional);
    Ok((latest, baseline))
  }

  function VolumeSpike(trades: seq<TradeView>, observedMs: int, bucketMs: int, baselineCount: nat): Result<real, Reason>
    requires bucketMs > 0 && baselineCount > 0
  {
    match BucketVolumes(trades, observedMs, bucketMs, baselineCount + 1)
    case Err(e) => Err(e)
    case Ok((latest, baseline)) =>
      if baseline == [] || Median(baseline) <= 0.0 then Err(InvalidMarketValue)
      else Ok(Quotient(latest, Median(baseline)))
  }

  function SessionScore(
      trades: seq<TradeView>, books: seq<BookView>, observedMs: int, bucketMs: int, baselineCount: nat)
    : Result<real, Reason>
    requires bucketMs > 0 && baselineCount > 0
  {
    match BucketVolumes(trades, observedMs, bucketMs, baselineCount + 1)
    case Err(e) => Err(e)
    case Ok((latest, baseline)) =>
      var count := baselineCount + 1;
      var latestBook := LastBook(books, observedMs, bucketMs, count, baselineCount);
      var baselineBooks := BaselineBooks(books, observedMs, bucketMs, count, baselineCount);
      if latestBook.None? || |baselineBooks| < baselineCount || baseline == [] || Median(baseline) <= 0.0 then
        Err(InsufficientInput)
      else
        match Depth5(latestBook.value)
        case Err(e) => Err(e)
        case Ok(depth) =>
          match Collect(baselineBooks, Depth5)
          case Err(e) => Err(e)
          case Ok(depths) =>
            if depths == [] || depth <= 0.0 || Median(depths) <= 0.0 then Err(InvalidMarketValue)
            else Ok(Min(CapAtOne(Quotient(latest, Median(baseline))),
                        Min(CapAtOne(Quotient(depth, Median(depths))), KstSessionWeight(observedMs))))
  }

  /** Whatever the input, a session score that is reported lies between zero and one. */
  lemma SessionScoreWithin(
      trades: seq<TradeView>, books: seq<BookView>, observedMs: int, bucketMs: int, baselineCount: nat)
    requires bucketMs > 0 && baselineCount > 0
    ensures var r := SessionScore(trades, books, observedMs, bucketMs, baselineCount); r.Ok? ==> 0.0 <= r.value <= 1.0
  {
    hide BucketVolumes, Collect, Depth5, LastBook, BaselineBooks, Median, Quotient;
  }

  // ----- the snapshot -----

  datatype Options = Options(
    bucketMs: int, candleCount: int, baselineCount: int, imbalanceWindowMs: int, depthChangeLookbackMs: int)

  /** `readPositiveIntegerOption` for each option. */
  predicate ValidOptions(o: Options) {
    o.bucketMs > 0 && o.candleCount > 0 && o.baselineCount > 0 && o.imbalanceWindowMs > 0 && o.depthChangeLookbackMs > 0
  }

  datatype Outcome = Value(value: real) | Failure(reason: FailureReason)

  datatype FailureReason = Because(reason: Reason) | MarketDataStale

  /** The modelled features of a snapshot; `ok` is its status. */
  datatype Snapshot = Snapshot(
    ok: bool, vwapDeviation: Outcome, imbalance: Outcome, volumeSpike: Outcome, sessionScore: Outcome)

  function OutcomeOf(r: Result<real, Reason>): Outcome {
    if r.Ok? then Value(r.value) else Failure(Because(r.error))
  }

  /** `createSnapshotResult`: the status is that of the weakest result. */
  function SnapshotResult(vwap: Outcome, imbalance: Outcome, spike: Outcome, score: Outcome): Snapshot {
    Snapshot(vwap.Value? && imbalance.Value? && spike.Value? && score.Value?, vwap, imbalance, spike, score)
  }

  function AllFail(reason: FailureReason): Snapshot {
    SnapshotResult(Failure(reason), Failure(reason), Failure(reason), Failure(reason))
  }

  function Max(a: int, b: int): int { if a >= b then a else b }

  predicate Blocking(status: string) { status == "STALE" || status == "RECONNECTING" || status == "DISCONNECTED" }

  /** `createStaleFailureIfNeeded`: a blocking status inside the longest lookback. */
  predicate Stale(views: seq<View>, observedMs: int, o: Options) {
    var lookback := Max(Max(o.bucketMs * (o.baselineCount + 1), o.bucketMs * o.candleCount),
                        Max(o.imbalanceWindowMs, o.depthChangeLookbackMs));
    exists i | 0 <= i < |views| ::
      && views[i].canonical.body.Status? && Blocking(views[i].canonical.body.status)
      && observedMs - lookback < Millis(views[i].canonical.nanos) <= observedMs
  }

  function SnapshotOf(parse: string -> Option<real>, observedMs: int, o: Options): seq<View> -> Snapshot
    requires ValidOptions(o)
  {
    (views: seq<View>) =>
      if Stale(views, observedMs, o) then AllFail(MarketDataStale)
      else
        var trades, books := TradesOf(parse, views), BooksOf(parse, views);
        SnapshotResult(
          OutcomeOf(VwapDeviation(Lookback(trades, observedMs, o.candleCount * o.bucketMs))),
          OutcomeOf(ImbalanceOf(Directional(Lookback(trades, observedMs, o.imbalanceWindowMs)))),
          OutcomeOf(VolumeSpike(trades, observedMs, o.bucketMs, o.baselineCount)),
          OutcomeOf(SessionScore(trades, books, observedMs, o.bucketMs, o.baselineCount)))
  }

  /** Validate and sort, then compute; `features` is whatever is computed from the sorted views. */
  ghost function Calculate<F>(events: seq<FeatureEvent>, features: seq<View> -> F): Result<F, Reason> {
    match Validated(events)
    case Err(e) => Err(e)
    case Ok(sorted) => Ok(features(Map(sorted, ViewOf)))
  }

  /** `calculateM11FeatureSnapshot`: rejected events or options fail every feature with their reason. */
  ghost function M11Snapshot(
      parse: string -> Option<real>, events: seq<FeatureEvent>, observedMs: int, o: Options): Snapshot
  {
    if !ValidOptions(o) then AllFail(Because(InvalidMarketValue))
    else
      match Calculate(events, SnapshotOf(parse, observedMs, o))
      case Err(e) => AllFail(Because(e))
      case Ok(snapshot) => snapshot
  }

  /** Whatever is computed from the sorted views does not depend on the order of the input events. */
  lemma FeaturesOrderIndependent<F(!new)>(a: seq<FeatureEvent>, b: seq<FeatureEvent>, features: seq<View> -> F)
    requires multiset(a) == multiset(b) && (Accepted(a) ==> Ordered(Candidates(a)))
    ensures Calculate(a, features) == Calculate(b, features)
  {
    hide Validated, Candidates, Map;
    OrderIndependence(a, b);
  }

  /** Permuting the input events changes neither the status of the snapshot, nor a value, nor a failure reason. */
  lemma SnapshotOrderIndependent(
      parse: string -> Option<real>, a: seq<FeatureEvent>, b: seq<FeatureEvent>, observedMs: int, o: Options)
    requires multiset(a) == multiset(b) && (Accepted(a) ==> Ordered(Candidates(a)))
    ensures var x, y := M11Snapshot(parse, a, observedMs, o), M11Snapshot(parse, b, observedMs, o);
            && x.ok == y.ok
            && x.vwapDeviation == y.vwapDeviation && x.imbalance == y.imbalance && x.volumeSpike == y.volumeSpike
            && x.sessionScore == y.sessionScore
  {
    hide SnapshotOf, Calculate;
    if ValidOptions(o) {
      FeaturesOrderIndependent(a, b, SnapshotOf(parse, observedMs, o));
    }
  }

  lemma {:induction false} NotionalNonnegative(trades: seq<TradeView>)
    ensures SumNotional(trades).Ok? ==> SumNotional(trades).value >= 0.0
  {
    hide Mul;
    if trades != [] {
      var init, t := trades[..|trades| - 1], trades[|trades| - 1];
      NotionalNonnegative(init);
      if Positive(t.price).Ok? && Positive(t.quantity).Ok? {
        MulMonotone(t.price.value, 0.0, t.quantity.value);
        MulZero(t.price.value);
      }
    }
  }

  lemma SpikeNonnegative(trades: seq<TradeView>, observedMs: int, bucketMs: int, baselineCount: nat)
    requires bucketMs > 0 && baselineCount > 0
    ensures var r := VolumeSpike(trades, observedMs, bucketMs, baselineCount); r.Ok? ==> r.value >= 0.0
  {
    NotionalNonnegative(Buckets(trades, observedMs, bucketMs, baselineCount + 1)[baselineCount]);
    hide Buckets, Median, Quotient, SumNotional, Collect;
    var v := BucketVolumes(trades, observedMs, bucketMs, baselineCount + 1);
    if v.Ok? && v.value.1 != [] && Median(v.value.1) > 0.0 {
      QuotientBound(v.value.0, Median(v.value.1), 0.0);
      MulZero(Median(v.value.1));
    }
  }

  lemma DeviationAbove(latest: real, vwap: real)
    requires latest > 0.0 && vwap > 0.0
    ensures Mul(Quotient(latest - vwap, vwap), 10_000.0) > -10_000.0
  {
    var q := (latest - vwap) / vwap;
    assert q * vwap == latest - vwap;
    assert (q + 1.0) * vwap == latest;
    assert q + 1.0 > 0.0;
  }

  /** For every input and every way of parsing numbers: an imbalance lies in [-1, 1], a session score in [0, 1], a
      volume spike is not negative, and the last price is never more than the whole average below it. */
  lemma SnapshotWithin(parse: string -> Option<real>, events: seq<FeatureEvent>, observedMs: int, o: Options)
    ensures var s := M11Snapshot(parse, events, observedMs, o);
            && (s.imbalance.Value? ==> -1.0 <= s.imbalance.value <= 1.0)
            && (s.sessionScore.Value? ==> 0.0 <= s.sessionScore.value <= 1.0)
            && (s.volumeSpike.Value? ==> s.volumeSpike.value >= 0.0)
            && (s.vwapDeviation.Value? ==> s.vwapDeviation.value > -10_000.0)
  {
    hide Validated, Map, Stale, TradesOf, BooksOf, VwapDeviation, ImbalanceOf, VolumeSpike, SessionScore, Lookback,
      Directional;
    if ValidOptions(o) && Validated(events).Ok? {
      var views := Map(Validated(events).value, ViewOf);
      var trades, books := TradesOf(parse, views), BooksOf(parse, views);
      ImbalanceWithin(Directional(Lookback(trades, observedMs, o.imbalanceWindowMs)));
      SessionScoreWithin(trades, books, observedMs, o.bucketMs, o.baselineCount);
      SpikeNonnegative(trades, observedMs, o.bucketMs, o.baselineCount);
      VwapDeviationAbove(Lookback(trades, observedMs, o.candleCount * o.bucketMs));
    }
  }

  lemma VwapDeviationAbove(trades: seq<TradeView>)
    ensures VwapDeviation(trades).Ok? ==> VwapDeviation(trades).value > -10_000.0
  {
    hide Vwap, Mul, Quotient;
    if Vwap(trades).Ok? {
      VwapPositive(trades);
      VwapNonempty(trades);
      if Positive(trades[|trades| - 1].price).Ok? {
        DeviationAbove(Positive(trades[|trades| - 1].price).value, Vwap(trades).value);
      }
    }
  }

  lemma VwapNonempty(trades: seq<TradeView>)
    ensures Vwap(trades).Ok? ==> trades != []
  {}

  ghost predicate ViewsInTimeOrder(views: seq<View>) {
    forall i, j | 0 <= i < j < |views| :: views[i].canonical.nanos <= views[j].canonical.nanos
  }

  lemma {:induction false} TradesNotBefore(parse: string -> Option<real>, views: seq<View>, nanos: int)
    requires forall v | v in views :: nanos <= v.canonical.nanos
    ensures forall t | t in TradesOf(parse, views) :: Millis(nanos) <= t.ms
  {
    if views != [] {
      assert views[0] in views;
      TradesNotBefore(parse, views[1..], nanos);
    }
  }

  /** Views in time order present their trades in time order. */
  lemma {:induction false} TradesInTimeOrder(parse: string -> Option<real>, views: seq<View>)
    requires ViewsInTimeOrder(views)
    ensures TimeOrdered(TradesOf(parse, views))
  {
    if views != [] {
      var rest := views[1..];
      forall i, j | 0 <= i < j < |rest|
        ensures rest[i].canonical.nanos <= rest[j].canonical.nanos
      {
        assert rest[i] == views[i + 1] && rest[j] == views[j + 1];
      }
      TradesInTimeOrder(parse, rest);
      TradesNotBefore(parse, rest, views[0].canonical.nanos);
      assert forall i | 0 <= i < |TradesOf(parse, rest)| :: TradesOf(parse, rest)[i] in TradesOf(parse, rest);
    }
  }

  lemma CandidatesKeepTime(events: seq<FeatureEvent>)
    ensures forall c | c in Candidates(events) :: c.key.nanos == c.canonical.nanos
  {}

  function CandidateTime(c: Candidate): int { c.key.nanos }

  lemma CandidateTimeFirst()
    ensures KeyFirst(CandidateNotAfter, CandidateTime)
  {
    MarketReplay.TimeComesFirst();
    hide MarketReplay.NotAfter;
    forall a, b
      ensures if CandidateNotAfter(a, b) then CandidateTime(a) <= CandidateTime(b)
              else CandidateTime(b) <= CandidateTime(a)
    {
      assert MarketReplay.TimeOf(Proxy(a.key)) == a.key.nanos && MarketReplay.TimeOf(Proxy(b.key)) == b.key.nanos;
    }
  }

  /** Validated input reaches the features in time order. */
  lemma ValidatedInOrder(parse: string -> Option<real>, events: seq<FeatureEvent>)
    requires Validated(events).Ok?
    ensures TimeOrdered(TradesOf(parse, Map(Validated(events).value, ViewOf)))
  {
    hide Sort, Candidates, CandidateNotAfter, TradesOf, Accepted;
    var cs := Candidates(events);
    CandidateTimeFirst();
    SortOrdered(cs, CandidateNotAfter, CandidateTime);
    var sorted := Sort(cs, CandidateNotAfter);
    SameElements(sorted, cs);
    CandidatesKeepTime(events);
    forall i, j | 0 <= i < j < |sorted|
      ensures sorted[i].canonical.nanos <= sorted[j].canonical.nanos
    {
      assert CandidateTime(sorted[i]) <= CandidateTime(sorted[j]);
      assert sorted[i] in cs && sorted[j] in cs;
    }
    TradesInTimeOrder(parse, Map(sorted, ViewOf));
  }

  /** So its buckets partition the window: every trade of the window is counted in exactly one bucket. */
  lemma ValidatedBuckets(
      parse: string -> Option<real>, events: seq<FeatureEvent>, observedMs: int, bucketMs: int, count: nat)
    requires bucketMs > 0 && Validated(events).Ok?
    ensures var trades := TradesOf(parse, Map(Validated(events).value, ViewOf));
            Flatten(Buckets(trades, observedMs, bucketMs, count))
              == Filter(trades, InWindow(observedMs, bucketMs, count))
  {
    hide Buckets, Filter, Flatten, TradesOf, Validated, Map, TimeOrdered;
    ValidatedInOrder(parse, events);
    BucketsPartitionWindow(TradesOf(parse, Map(Validated(events).value, ViewOf)), observedMs, bucketMs, count);
  }
}
