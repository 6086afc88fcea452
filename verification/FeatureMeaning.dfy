/** What the features are worth, from the events themselves: sums over the input, in whatever order it came, and the
    order statistics behind the median. */
module FeatureMeaning {
  import opened Sequences
  import opened Reals
  import opened FeatureOrder
  import opened FeatureValues

  // ----- checked sums are sums -----

  lemma {:induction false} SumCheckedIsSum<T(!new)>(s: seq<T>, f: T -> Result<real, Reason>, g: T -> real)
    requires forall x :: f(x).Ok? ==> f(x).value == g(x)
    ensures SumChecked(s, f).Ok? <==> forall x | x in s :: f(x).Ok?
    ensures SumChecked(s, f).Ok? ==> SumChecked(s, f).value == SumOf(s, g)
  {
    if s != [] {
      var n := |s| - 1;
      var init, last := s[..n], s[n];
      assert s == init + [last];
      SumCheckedIsSum(init, f, g);
      SumOfConcat(init, [last], g);
      assert SumOf([last], g) == g(last);
    }
  }

  /** A checked sum that fails, fails for the reason of one of its terms. */
  lemma {:induction false} SumCheckedError<T(!new)>(s: seq<T>, f: T -> Result<real, Reason>)
    ensures SumChecked(s, f).Err? ==> exists x | x in s :: f(x).Err? && f(x).error == SumChecked(s, f).error
  {
    if s != [] {
      var n := |s| - 1;
      assert s == s[..n] + [s[n]];
      SumCheckedError(s[..n], f);
    }
  }

  function Value(n: Option<real>): real { if n.Some? then n.value else 0.0 }

  /** The quantity of a trade on one side, nothing on any other. */
  function QuantityOn(side: TradeSide): TradeView -> real {
    (t: TradeView) => if t.side == side then Value(t.quantity) else 0.0
  }

  lemma {:induction false} SumOfPositive<T(!new)>(s: seq<T>, g: T -> real)
    requires forall x | x in s :: g(x) >= 0.0
    ensures SumOf(s, g) >= 0.0
    ensures SumOf(s, g) == 0.0 <==> forall x | x in s :: g(x) == 0.0
  {
    if s != [] {
      assert s[0] in s && forall x | x in s :: x == s[0] || x in s[1..];
      SumOfPositive(s[1..], g);
    }
  }

  lemma {:induction false} SumOfFiltered<T(!new)>(s: seq<T>, p: T -> bool, g: T -> real)
    requires forall x | x in s && !p(x) :: g(x) == 0.0
    ensures SumOf(Filter(s, p), g) == SumOf(s, g)
  {
    if s != [] {
      assert s[0] in s;
      SumOfFiltered(s[1..], p, g);
      FilterHead(s, p);
      var rest := Filter(s[1..], p);
      hide Filter;
      SumOfConcat(if p(s[0]) then [s[0]] else [], rest, g);
      assert SumOf([s[0]], g) == g(s[0]);
    }
  }

  // ----- imbalance -----

  ghost predicate ReadableSides(trades: seq<TradeView>) {
    forall t | t in trades && (t.side == Bid || t.side == Ask) :: t.quantity.Some? && t.quantity.value > 0.0
  }

  ghost predicate Trades(trades: seq<TradeView>, side: TradeSide) { exists t | t in trades :: t.side == side }

  /** What the imbalance `r` of some trades is. */
  ghost predicate IsImbalance(r: Result<real, Reason>, trades: seq<TradeView>, bid: real, ask: real) {
    && (r.Ok? <==> ReadableSides(trades) && (Trades(trades, Bid) || Trades(trades, Ask)))
    && (r == Err(InsufficientInput) <==> !Trades(trades, Bid) && !Trades(trades, Ask))
    && (r.Ok? ==>
          && IsShare(r.value, bid, ask)
          && (r.value == 1.0 <==> !Trades(trades, Ask)) && (r.value == -1.0 <==> !Trades(trades, Bid)))
  }

  /** `v` is what bids have over asks, as a share of both. */
  ghost predicate IsShare(v: real, bid: real, ask: real) {
    bid + ask > 0.0 && v * (bid + ask) == bid - ask && (v > 0.0 <==> bid > ask) && (v < 0.0 <==> bid < ask)
  }

  /** The imbalance, from the trades: it exists exactly when some trade has a side and all such trades are
      readable; it is then bid less ask quantity as a share of both, so it is positive exactly when bids outweigh
      asks, one exactly without asks and minus one exactly without bids. */
  lemma ImbalanceMeaning(trades: seq<TradeView>)
    ensures IsImbalance(ImbalanceOf(Directional(trades)), trades, SumOf(trades, QuantityOn(Bid)),
                        SumOf(trades, QuantityOn(Ask)))
  {
    var both := (t: TradeView) => t.side == Bid || t.side == Ask;
    var directional := Directional(trades);
    FilterMembers(trades, both);
    SumOfFiltered(trades, both, QuantityOn(Bid));
    SumOfFiltered(trades, both, QuantityOn(Ask));
    assert ReadableSides(directional) <==> ReadableSides(trades);
    assert Trades(directional, Bid) <==> Trades(trades, Bid);
    assert Trades(directional, Ask) <==> Trades(trades, Ask);
    hide SumOf, Filter, ImbalanceOf, ReadableSides, Trades;
    ImbalanceOfSides(directional);
  }

  lemma ImbalanceOfSides(directional: seq<TradeView>)
    requires forall t | t in directional :: t.side == Bid || t.side == Ask
    ensures IsImbalance(ImbalanceOf(directional), directional, SumOf(directional, QuantityOn(Bid)),
                        SumOf(directional, QuantityOn(Ask)))
  {
    SidesReadable(directional);
    SumCheckedIsSum(directional, SideQuantity(Bid), QuantityOn(Bid));
    SumCheckedIsSum(directional, SideQuantity(Ask), QuantityOn(Ask));
    SumCheckedError(directional, SideQuantity(Bid));
    hide SumOf, SumChecked, Quotient, SideQuantity, QuantityOn, IsShare, ReadableSides, Trades;
    if ReadableSides(directional) && directional != [] {
      SideSums(directional);
      ShareMeaning(SumOf(directional, QuantityOn(Bid)), SumOf(directional, QuantityOn(Ask)));
    }
  }

  lemma SidesReadable(directional: seq<TradeView>)
    requires forall t | t in directional :: t.side == Bid || t.side == Ask
    ensures (forall t | t in directional :: SideQuantity(Bid)(t).Ok?) <==> ReadableSides(directional)
    ensures (forall t | t in directional :: SideQuantity(Ask)(t).Ok?) <==> ReadableSides(directional)
    ensures forall t :: SideQuantity(Bid)(t) != Err(InsufficientInput) && SideQuantity(Ask)(t) != Err(InsufficientInput)
    ensures directional != [] <==> Trades(directional, Bid) || Trades(directional, Ask)
  {
    NoMembers(directional);
  }

  lemma SideSums(directional: seq<TradeView>)
    requires ReadableSides(directional) && directional != []
    requires forall t | t in directional :: t.side == Bid || t.side == Ask
    ensures var bid, ask := SumOf(directional, QuantityOn(Bid)), SumOf(directional, QuantityOn(Ask));
            && bid >= 0.0 && ask >= 0.0 && bid + ask > 0.0
            && (bid == 0.0 <==> !Trades(directional, Bid)) && (ask == 0.0 <==> !Trades(directional, Ask))
  {
    SumOfPositive(directional, QuantityOn(Bid));
    SumOfPositive(directional, QuantityOn(Ask));
    assert directional[0] in directional;
    hide SumOf;
  }

  lemma SameShare(v: real, u: real, total: real)
    requires total != 0.0
    ensures v == u <==> v * total == u * total
  {
    assert (v - u) * total == v * total - u * total;
  }

  lemma ShareMeaning(bid: real, ask: real)
    requires bid >= 0.0 && ask >= 0.0 && bid + ask > 0.0
    ensures var v := Quotient(bid - ask, bid + ask);
            && IsShare(v, bid, ask)
            && (v == 1.0 <==> ask == 0.0) && (v == -1.0 <==> bid == 0.0)
  {
    var v, total := Quotient(bid - ask, bid + ask), bid + ask;
    assert v * total == bid - ask;
    assert v > 0.0 ==> v * total > 0.0;
    assert v < 0.0 ==> v * total < 0.0;
    SameShare(v, 1.0, total);
    SameShare(v, -1.0, total);
  }

  // ----- from events to views and back -----

  /** The trade that an event is read as. */
  function TradeOf(parse: string -> Option<real>, e: FeatureEvent): TradeView
    requires e.body.Trade?
  {
    TradeView(e.nanos / 1_000_000, parse(e.body.price), parse(e.body.quantity), e.body.side)
  }

  ghost function SortedTrades(parse: string -> Option<real>, events: seq<FeatureEvent>): seq<TradeView>
    requires Validated(events).Ok?
  {
    TradesOf(parse, Map(Validated(events).value, ViewOf))
  }

  lemma {:induction false} TradesOfMembers(parse: string -> Option<real>, views: seq<View>, t: TradeView)
    ensures t in TradesOf(parse, views) <==>
              exists v | v in views :: v.canonical.body.Trade?
                && t == TradeView(v.canonical.nanos / 1_000_000, parse(v.canonical.body.price),
                                  parse(v.canonical.body.quantity), v.canonical.body.side)
  {
    if views != [] {
      assert views == [views[0]] + views[1..];
      TradesOfMembers(parse, views[1..], t);
    }
  }

  /** The features read exactly the trades of the input. */
  lemma TradesAreEvents(parse: string -> Option<real>, events: seq<FeatureEvent>, t: TradeView)
    requires Validated(events).Ok?
    ensures t in SortedTrades(parse, events) <==> exists e | e in events :: e.body.Trade? && t == TradeOf(parse, e)
  {
    hide Sort, Accepted, PayloadText, FallbackSequence, TradesOf, Map;
    var sorted := Validated(events).value;
    var views := Map(sorted, ViewOf);
    TradesOfMembers(parse, views, t);
    SameElements(sorted, Candidates(events));
    MapMembers(sorted, ViewOf);
    MapMembers(events, CandidateOf);
    forall e | e in events
      ensures ViewOf(CandidateOf(e)) in views
    {
      assert CandidateOf(e) in sorted;
    }
    forall v | v in views
      ensures exists e | e in events :: ViewOf(CandidateOf(e)) == v
    {
      var c :| c in sorted && ViewOf(c) == v;
      assert c in Candidates(events);
    }
  }

  lemma {:induction false} BooksOfMembers(parse: string -> Option<real>, views: seq<View>, b: BookView)
    ensures b in BooksOf(parse, views) <==>
              exists v | v in views :: v.canonical.body.Book? && ReadsAs(parse, v.canonical.nanos, v.canonical.body, b)
  {
    if views != [] {
      assert views == [views[0]] + views[1..];
      BooksOfMembers(parse, views[1..], b);
      var c := views[0].canonical;
      if c.body.Book? {
        ReadsAsIs(parse, c.nanos, c.body, b);
      }
      hide ReadsAs, Map, Millis;
    }
  }

  lemma ReadsAsIs(parse: string -> Option<real>, nanos: int, body: Body, b: BookView)
    requires body.Book?
    ensures ReadsAs(parse, nanos, body, b) <==>
              b == BookView(Millis(nanos), Map(body.asks, ParseLevel(parse)), Map(body.bids, ParseLevel(parse)))
  {
    var asks, bids := Map(body.asks, ParseLevel(parse)), Map(body.bids, ParseLevel(parse));
    hide Map;
    if ReadsAs(parse, nanos, body, b) {
      assert b.asks == asks;
      assert b.bids == bids;
    }
  }

  ghost predicate LevelsReadAs(parse: string -> Option<real>, levels: seq<BookLevel>, read: seq<Level>) {
    && |read| == |levels|
    && forall i | 0 <= i < |levels| :: read[i] == Level(parse(levels[i].price), parse(levels[i].size))
  }

  /** An order book is read level by level, each side as it is, at the millisecond of its timestamp. */
  ghost predicate ReadsAs(parse: string -> Option<real>, nanos: int, body: Body, b: BookView)
    requires body.Book?
  {
    b.ms == nanos / 1_000_000 && LevelsReadAs(parse, body.asks, b.asks) && LevelsReadAs(parse, body.bids, b.bids)
  }

  /** The features read exactly the order books of the input. */
  lemma BooksAreEvents(parse: string -> Option<real>, events: seq<FeatureEvent>, b: BookView)
    requires Validated(events).Ok?
    ensures b in BooksOf(parse, Map(Validated(events).value, ViewOf)) <==>
              exists e | e in events :: e.body.Book? && ReadsAs(parse, e.nanos, e.body, b)
  {
    hide Sort, Accepted, PayloadText, FallbackSequence, BooksOf, Map, ReadsAs;
    var sorted := Validated(events).value;
    var views := Map(sorted, ViewOf);
    BooksOfMembers(parse, views, b);
    SameElements(sorted, Candidates(events));
    MapMembers(sorted, ViewOf);
    MapMembers(events, CandidateOf);
    forall e | e in events
      ensures ViewOf(CandidateOf(e)) in views
    {
      assert CandidateOf(e) in sorted;
    }
    forall v | v in views
      ensures exists e | e in events :: ViewOf(CandidateOf(e)) == v
    {
      var c :| c in sorted && ViewOf(c) == v;
      assert c in Candidates(events);
    }
  }

  /** What a payload adds to a sum over trades. */
  function BodyAdds(parse: string -> Option<real>, g: TradeView -> real, nanos: int, body: Body): real {
    if body.Trade? then g(TradeView(nanos / 1_000_000, parse(body.price), parse(body.quantity), body.side)) else 0.0
  }

  function Adds(parse: string -> Option<real>, g: TradeView -> real): FeatureEvent -> real {
    (e: FeatureEvent) => BodyAdds(parse, g, e.nanos, e.body)
  }

  function ViewAdds(parse: string -> Option<real>, g: TradeView -> real): View -> real {
    (v: View) => BodyAdds(parse, g, v.canonical.nanos, v.canonical.body)
  }

  function CandidateAdds(parse: string -> Option<real>, g: TradeView -> real): Candidate -> real {
    (c: Candidate) => BodyAdds(parse, g, c.canonical.nanos, c.canonical.body)
  }

  /** The trade of a view, if it is one. */
  function OneTrade(parse: string -> Option<real>, v: View): seq<TradeView> {
    var c := v.canonical;
    if c.body.Trade?
    then [TradeView(c.nanos / 1_000_000, parse(c.body.price), parse(c.body.quantity), c.body.side)]
    else []
  }

  lemma TradesHead(parse: string -> Option<real>, views: seq<View>)
    requires views != []
    ensures TradesOf(parse, views) == OneTrade(parse, views[0]) + TradesOf(parse, views[1..])
  {}

  lemma OneTradeSum(parse: string -> Option<real>, v: View, g: TradeView -> real)
    ensures SumOf(OneTrade(parse, v), g) == ViewAdds(parse, g)(v)
  {}

  lemma {:induction false} SumOfTrades(parse: string -> Option<real>, views: seq<View>, g: TradeView -> real)
    ensures SumOf(TradesOf(parse, views), g) == SumOf(views, ViewAdds(parse, g))
  {
    if views != [] {
      SumOfTrades(parse, views[1..], g);
      TradesHead(parse, views);
      OneTradeSum(parse, views[0], g);
      hide TradesOf, OneTrade, BodyAdds;
      SumOfConcat(OneTrade(parse, views[0]), TradesOf(parse, views[1..]), g);
    }
  }

  lemma CandidateReads(e: FeatureEvent)
    ensures ViewOf(CandidateOf(e)).canonical.body == e.body && ViewOf(CandidateOf(e)).canonical.nanos == e.nanos
  {
    hide PayloadText, FallbackSequence;
  }

  /** Sums over the sorted trades are sums over the input events. */
  lemma SumOverEvents(parse: string -> Option<real>, events: seq<FeatureEvent>, g: TradeView -> real)
    requires Validated(events).Ok?
    ensures SumOf(SortedTrades(parse, events), g) == SumOf(events, Adds(parse, g))
  {
    hide Sort, Accepted, PayloadText, FallbackSequence, TradesOf, Map, SumOf;
    var sorted := Validated(events).value;
    SumOfTrades(parse, Map(sorted, ViewOf), g);
    var h := CandidateAdds(parse, g);
    SumOfMap(sorted, ViewOf, ViewAdds(parse, g), h);
    SumOfPermutation(sorted, Candidates(events), h);
    forall e
      ensures h(CandidateOf(e)) == Adds(parse, g)(e)
    {
      CandidateReads(e);
    }
    hide CandidateOf, ViewAdds, Adds;
    SumOfMap(events, CandidateOf, h, Adds(parse, g));
  }

  lemma {:induction false} SumOfFilter<T(!new)>(s: seq<T>, p: T -> bool, g: T -> real, h: T -> real)
    requires forall x :: h(x) == if p(x) then g(x) else 0.0
    ensures SumOf(Filter(s, p), g) == SumOf(s, h)
  {
    if s != [] {
      SumOfFilter(s[1..], p, g, h);
      FilterHead(s, p);
      var rest := Filter(s[1..], p);
      hide Filter;
      SumOfConcat(if p(s[0]) then [s[0]] else [], rest, g);
      assert SumOf([s[0]], g) == g(s[0]);
    }
  }

  // ----- the snapshot's imbalance -----

  /** A trade event on one side inside the lookback that ends with the observation. */
  ghost predicate TradedOn(side: TradeSide, observedMs: int, windowMs: int, e: FeatureEvent) {
    e.body.Trade? && e.body.side == side && observedMs - windowMs < e.nanos / 1_000_000 <= observedMs
  }

  /** The quantity that an event adds to its side of the imbalance. */
  ghost function SideAdds(parse: string -> Option<real>, side: TradeSide, observedMs: int, windowMs: int)
    : FeatureEvent -> real
  {
    (e: FeatureEvent) => if TradedOn(side, observedMs, windowMs, e) then Value(parse(e.body.quantity)) else 0.0
  }

  lemma LookbackSum(
      parse: string -> Option<real>, events: seq<FeatureEvent>, side: TradeSide, observedMs: int, windowMs: int)
    requires Validated(events).Ok?
    ensures SumOf(Lookback(SortedTrades(parse, events), observedMs, windowMs), QuantityOn(side))
         == SumOf(events, SideAdds(parse, side, observedMs, windowMs))
  {
    hide SumOf, SortedTrades, Filter, Validated, BodyAdds, Adds;
    SideAddsAgree(parse, side, observedMs, windowMs);
    hide SideAdds;
    var trades, g := SortedTrades(parse, events), QuantityWithin(side, observedMs, windowMs);
    SumOfFilter(trades, (t: TradeView) => observedMs - windowMs < t.ms <= observedMs, QuantityOn(side), g);
    SumOverEvents(parse, events, g);
    SumOfAgree(events, Adds(parse, g), SideAdds(parse, side, observedMs, windowMs));
  }

  lemma SideAddsAgree(parse: string -> Option<real>, side: TradeSide, observedMs: int, windowMs: int)
    ensures forall e: FeatureEvent ::
              Adds(parse, QuantityWithin(side, observedMs, windowMs))(e)
              == SideAdds(parse, side, observedMs, windowMs)(e)
  {
    forall e: FeatureEvent
      ensures Adds(parse, QuantityWithin(side, observedMs, windowMs))(e)
           == SideAdds(parse, side, observedMs, windowMs)(e)
    {
      SideAddsAt(parse, side, observedMs, windowMs, e);
    }
  }

  lemma SideAddsAt(parse: string -> Option<real>, side: TradeSide, observedMs: int, windowMs: int, e: FeatureEvent)
    ensures Adds(parse, QuantityWithin(side, observedMs, windowMs))(e) == SideAdds(parse, side, observedMs, windowMs)(e)
  {
    var g := QuantityWithin(side, observedMs, windowMs);
    assert Adds(parse, g)(e) == BodyAdds(parse, g, e.nanos, e.body);
    if e.body.Trade? {
      var t := TradeOf(parse, e);
      assert Adds(parse, g)(e) == g(t);
      assert g(t) == if TradedOn(side, observedMs, windowMs, e) then Value(parse(e.body.quantity)) else 0.0;
    } else {
      assert Adds(parse, g)(e) == 0.0 && !TradedOn(side, observedMs, windowMs, e);
      assert SideAdds(parse, side, observedMs, windowMs)(e) == 0.0;
    }
  }

  function QuantityWithin(side: TradeSide, observedMs: int, windowMs: int): TradeView -> real {
    (t: TradeView) => if observedMs - windowMs < t.ms <= observedMs && t.side == side then Value(t.quantity) else 0.0
  }

  lemma {:induction false} SumOfAgree<T(!new)>(s: seq<T>, f: T -> real, g: T -> real)
    requires forall x :: f(x) == g(x)
    ensures SumOf(s, f) == SumOf(s, g)
  {
    if s != [] {
      SumOfAgree(s[1..], f, g);
    }
  }

  lemma LookbackTrades(
      parse: string -> Option<real>, events: seq<FeatureEvent>, side: TradeSide, observedMs: int, windowMs: int)
    requires Validated(events).Ok?
    ensures Trades(Lookback(SortedTrades(parse, events), observedMs, windowMs), side) <==>
              exists e | e in events :: TradedOn(side, observedMs, windowMs, e)
  {
    hide SortedTrades, Lookback, Validated;
    var trades := SortedTrades(parse, events);
    var lookback := Lookback(trades, observedMs, windowMs);
    if exists e | e in events :: TradedOn(side, observedMs, windowMs, e) {
      var e :| e in events && TradedOn(side, observedMs, windowMs, e);
      TradesAreEvents(parse, events, TradeOf(parse, e));
      LookbackMember(trades, observedMs, windowMs, TradeOf(parse, e));
      assert TradeOf(parse, e) in lookback;
    }
    if Trades(lookback, side) {
      var t :| t in lookback && t.side == side;
      LookbackMember(trades, observedMs, windowMs, t);
      TradesAreEvents(parse, events, t);
      var e :| e in events && e.body.Trade? && t == TradeOf(parse, e);
      assert TradedOn(side, observedMs, windowMs, e);
    }
  }

  lemma LookbackMember(trades: seq<TradeView>, observedMs: int, windowMs: int, t: TradeView)
    ensures t in Lookback(trades, observedMs, windowMs) <==> t in trades && observedMs - windowMs < t.ms <= observedMs
  {
    FilterMembers(trades, (t: TradeView) => observedMs - windowMs < t.ms <= observedMs);
  }

  /** The imbalance that a snapshot reports, from the input events in whatever order they came: what the bid
      trades of the window have over its ask trades, as a share of both; one exactly without an ask trade in the
      window, minus one exactly without a bid trade. */
  lemma SnapshotImbalance(parse: string -> Option<real>, events: seq<FeatureEvent>, observedMs: int, o: Options)
    ensures var r := M11Snapshot(parse, events, observedMs, o).imbalance;
            r.Value? ==>
              && IsShare(r.value, SumOf(events, SideAdds(parse, Bid, observedMs, o.imbalanceWindowMs)),
                         SumOf(events, SideAdds(parse, Ask, observedMs, o.imbalanceWindowMs)))
              && (r.value == 1.0 <==> forall e | e in events :: !TradedOn(Ask, observedMs, o.imbalanceWindowMs, e))
              && (r.value == -1.0 <==> forall e | e in events :: !TradedOn(Bid, observedMs, o.imbalanceWindowMs, e))
  {
    hide IsShare, SumOf, TradesOf, BooksOf, Stale, VwapDeviation, VolumeSpike, SessionScore, Map, Lookback, Directional,
      ImbalanceOf, Validated;
    if ValidOptions(o) && Validated(events).Ok? {
      var w := o.imbalanceWindowMs;
      LookbackSum(parse, events, Bid, observedMs, w);
      LookbackSum(parse, events, Ask, observedMs, w);
      LookbackTrades(parse, events, Bid, observedMs, w);
      LookbackTrades(parse, events, Ask, observedMs, w);
      ImbalanceMeaning(Lookback(SortedTrades(parse, events), observedMs, w));
    }
  }

  // ----- average price -----

  function QuantityValue(t: TradeView): real { Value(t.quantity) }

  function NotionalValue(t: TradeView): real { Value(t.price) * Value(t.quantity) }

  ghost predicate Readable(trades: seq<TradeView>) {
    forall t | t in trades :: t.price.Some? && t.price.value > 0.0 && t.quantity.Some? && t.quantity.value > 0.0
  }

  lemma NotionalPositive(t: TradeView)
    ensures TradeNotional(t).Ok? ==> TradeNotional(t).value == NotionalValue(t) && NotionalValue(t) > 0.0
  {}

  /** `dev` is how far `latest` lies from the average price notional / quantity, in basis points of that average. */
  ghost predicate IsDeviation(dev: real, latest: real, quantity: real, notional: real) {
    quantity > 0.0 && notional > 0.0 && dev * notional == (latest * quantity - notional) * 10_000.0
  }

  lemma DeviationMeaning(latest: real, quantity: real, notional: real)
    requires quantity > 0.0 && notional > 0.0
    ensures Quotient(notional, quantity) > 0.0
    ensures var vwap := Quotient(notional, quantity);
            IsDeviation(Mul(Quotient(latest - vwap, vwap), 10_000.0), latest, quantity, notional)
  {
    var vwap := Quotient(notional, quantity);
    assert vwap * quantity == notional;
    QuotientPositive(notional, quantity);
    var ratio := Quotient(latest - vwap, vwap);
    assert ratio * vwap == latest - vwap;
    Regroup(ratio, vwap, quantity, latest);
  }

  lemma Regroup(ratio: real, vwap: real, quantity: real, latest: real)
    requires ratio * vwap == latest - vwap
    ensures ratio * 10_000.0 * (vwap * quantity) == (latest * quantity - vwap * quantity) * 10_000.0
  {
    assert ratio * (vwap * quantity) == (ratio * vwap) * quantity;
    assert (latest - vwap) * quantity == latest * quantity - vwap * quantity;
  }

  lemma QuotientPositive(a: real, b: real)
    requires a > 0.0 && b > 0.0
    ensures Quotient(a, b) > 0.0
  {}

  /** The deviation, from the trades: it exists exactly for a non-empty window of readable trades, and compares
      the last price with the average. */
  lemma VwapDeviationMeaning(trades: seq<TradeView>)
    ensures var r := VwapDeviation(trades);
            && (r.Ok? <==> trades != [] && Readable(trades))
            && (r == Err(InsufficientInput) <==> trades == [])
            && (r.Ok? ==> IsDeviation(r.value, Value(trades[|trades| - 1].price), SumOf(trades, QuantityValue),
                                      SumOf(trades, NotionalValue)))
  {
    forall t
      ensures TradeNotional(t).Ok? ==> TradeNotional(t).value == NotionalValue(t) && NotionalValue(t) > 0.0
      ensures QuantityOf(t) != Err(InsufficientInput) && TradeNotional(t) != Err(InsufficientInput)
    {
      NotionalPositive(t);
    }
    SumCheckedIsSum(trades, QuantityOf, QuantityValue);
    SumCheckedIsSum(trades, TradeNotional, NotionalValue);
    SumCheckedError(trades, QuantityOf);
    SumCheckedError(trades, TradeNotional);
    if trades != [] {
      assert trades[|trades| - 1] in trades;
    }
    ReadableTerms(trades);
    hide SumChecked, SumOf, Quotient, Mul, TradeNotional, NotionalValue, QuantityValue;
    if trades != [] && Readable(trades) {
      SumsPositive(trades);
      DeviationMeaning(Value(trades[|trades| - 1].price), SumOf(trades, QuantityValue), SumOf(trades, NotionalValue));
    }
    hide Readable, IsDeviation;
  }

  lemma ReadableTerms(trades: seq<TradeView>)
    ensures Readable(trades) <==> forall t | t in trades :: TradeNotional(t).Ok?
    ensures Readable(trades) ==> forall t | t in trades :: QuantityOf(t).Ok?
  {}

  lemma SumsPositive(trades: seq<TradeView>)
    requires trades != [] && Readable(trades)
    ensures SumOf(trades, QuantityValue) > 0.0 && SumOf(trades, NotionalValue) > 0.0
  {
    assert trades[0] in trades;
    forall t | t in trades
      ensures QuantityValue(t) > 0.0 && NotionalValue(t) > 0.0
    {
      NotionalPositive(t);
    }
    hide QuantityValue, NotionalValue, Readable;
    SumOfPositive(trades, QuantityValue);
    SumOfPositive(trades, NotionalValue);
  }

  // ----- median -----

  function Below(x: real): real -> bool { (v: real) => v < x }

  function Above(x: real): real -> bool { (v: real) => v > x }

  /** In a sorted sequence, at most `k` values lie below the one at `k`, and at most the rest above it. */
  lemma SortedCounts(t: seq<real>, k: nat)
    requires SortedBy(t, AtMost) && k < |t|
    ensures |Filter(t, Below(t[k]))| <= k && |Filter(t, Above(t[k]))| <= |t| - 1 - k
  {
    hide Filter;
    var x := t[k];
    assert t == t[..k] + t[k..] && t == t[..k + 1] + t[k + 1..];
    FilterConcat(t[..k], t[k..], Below(x));
    FilterConcat(t[..k + 1], t[k + 1..], Above(x));
    assert forall i | 0 <= i < |t[k..]| :: t[k..][i] == t[k + i] && (i > 0 ==> AtMost(t[k], t[k + i]));
    FilterNone(t[k..], Below(x));
    assert forall i | 0 <= i < |t[..k + 1]| :: t[..k + 1][i] == t[i] && (i < k ==> AtMost(t[i], t[k]));
    FilterNone(t[..k + 1], Above(x));
  }

  lemma CountsPermute(s: seq<real>, t: seq<real>, p: real -> bool)
    requires multiset(s) == multiset(t)
    ensures |Filter(s, p)| == |Filter(t, p)|
  {
    hide Filter;
    FilterPermutation(s, t, p);
    SameElements(Filter(s, p), Filter(t, p));
  }

  /** What the median is. Of an odd number of values: the value with at most half of the others on either side. Of an
      even number: the midpoint of the two middle values. */
  lemma MedianMeaning(values: seq<real>) returns (lo: real, hi: real)
    requires values != []
    ensures lo in values && hi in values && lo <= hi && 2.0 * Median(values) == lo + hi
    ensures |values| % 2 == 1 ==> lo == hi
    ensures 2 * |Filter(values, Below(lo))| < |values| && 2 * |Filter(values, Above(hi))| < |values|
    ensures 2 * |Filter(values, Above(lo))| <= |values| && 2 * |Filter(values, Below(hi))| <= |values|
  {
    hide Sort, Filter;
    AtMostOrders(values);
    SortSorted(values, AtMost);
    var t, n := Sort(values, AtMost), |values|;
    SameElements(t, values);
    var j, k := (n - 1) / 2, n / 2;
    lo, hi := t[j], t[k];
    assert t[j] in t && t[k] in t && (j < k ==> AtMost(t[j], t[k]));
    SortedCounts(t, j);
    SortedCounts(t, k);
    CountsPermute(t, values, Below(lo));
    CountsPermute(t, values, Above(hi));
    CountsPermute(t, values, Above(lo));
    CountsPermute(t, values, Below(hi));
  }

  // ----- buckets -----

  /** What is in bucket `i`: the trades from its start to just before the next bucket's, none after the
      observation. The last bucket is the one that the observation falls into. */
  lemma BucketSpans(
      trades: seq<TradeView>, observedMs: int, bucketMs: int, count: nat, i: nat, t: TradeView)
    requires bucketMs > 0 && i < count
    ensures var start := (observedMs / bucketMs - (count - 1 - i)) * bucketMs;
            t in Buckets(trades, observedMs, bucketMs, count)[i] <==>
              t in trades && start <= t.ms < start + bucketMs && t.ms <= observedMs
  {
    FilterMembers(trades, InSlot(observedMs, bucketMs, count, i));
    var k := observedMs / bucketMs - (count - 1 - i);
    FloorLess(t.ms, bucketMs, k);
    FloorLess(t.ms, bucketMs, k + 1);
    NextStart(k, bucketMs);
  }

  lemma NextStart(k: int, m: int)
    ensures (k + 1) * m == k * m + m
  {}

  lemma {:induction false} CollectIs<T(!new)>(s: seq<T>, f: T -> Result<real, Reason>)
    ensures Collect(s, f).Ok? ==> forall i | 0 <= i < |s| :: f(s[i]) == Ok(Collect(s, f).value[i])
  {
    if s != [] {
      CollectIs(s[1..], f);
    }
  }

  ghost predicate Volumes(
      trades: seq<TradeView>, observedMs: int, bucketMs: int, baselineCount: nat, latest: real, baseline: seq<real>)
    requires bucketMs > 0
  {
    var buckets := Buckets(trades, observedMs, bucketMs, baselineCount + 1);
    && latest == SumOf(buckets[baselineCount], NotionalValue) && |baseline| == baselineCount
    && forall i | 0 <= i < baselineCount :: baseline[i] == SumOf(buckets[i], NotionalValue)
  }

  lemma NotionalIsSum(trades: seq<TradeView>)
    ensures SumNotional(trades).Ok? ==> SumNotional(trades).value == SumOf(trades, NotionalValue)
  {
    SumCheckedIsSum(trades, TradeNotional, NotionalValue);
  }

  lemma BucketVolumesMeaning(trades: seq<TradeView>, observedMs: int, bucketMs: int, baselineCount: nat)
    requires bucketMs > 0 && baselineCount > 0
    ensures var r := BucketVolumes(trades, observedMs, bucketMs, baselineCount + 1);
            r.Ok? ==> Volumes(trades, observedMs, bucketMs, baselineCount, r.value.0, r.value.1)
  {
    var buckets := Buckets(trades, observedMs, bucketMs, baselineCount + 1);
    hide SumNotional, SumOf, Collect;
    NotionalIsSum(buckets[baselineCount]);
    CollectIs(buckets[..baselineCount], SumNotional);
    forall i | 0 <= i < baselineCount
      ensures SumNotional(buckets[i]).Ok? ==> SumNotional(buckets[i]).value == SumOf(buckets[i], NotionalValue)
    {
      NotionalIsSum(buckets[i]);
    }
  }

  /** The volume spike, from the buckets: the last bucket's notional over the median of the earlier ones. */
  lemma VolumeSpikeMeaning(trades: seq<TradeView>, observedMs: int, bucketMs: int, baselineCount: nat)
    returns (latest: real, baseline: seq<real>)
    requires bucketMs > 0 && baselineCount > 0
    ensures var r := VolumeSpike(trades, observedMs, bucketMs, baselineCount);
            r.Ok? ==> Volumes(trades, observedMs, bucketMs, baselineCount, latest, baseline)
                      && Median(baseline) > 0.0 && r.value * Median(baseline) == latest
  {
    hide Volumes, Median, Quotient, BucketVolumes;
    BucketVolumesMeaning(trades, observedMs, bucketMs, baselineCount);
    latest, baseline := 0.0, [];
    var r := VolumeSpike(trades, observedMs, bucketMs, baselineCount);
    if r.Ok? {
      var v := BucketVolumes(trades, observedMs, bucketMs, baselineCount + 1).value;
      latest, baseline := v.0, v.1;
      QuotientTimes(latest, Median(baseline));
    }
  }

  lemma QuotientTimes(a: real, b: real)
    requires b != 0.0
    ensures Quotient(a, b) * b == a
  {}

  // ----- session score -----

  /** The weight of the Korean hour of the observation: full from nine to midnight, least in the three hours after. */
  lemma SessionWeightTable(observedMs: int)
    ensures var hour := (observedMs / 3_600_000 + 9) % 24;
            && (9 <= hour <= 23 ==> KstSessionWeight(observedMs) == 1.0)
            && (0 <= hour <= 2 ==> KstSessionWeight(observedMs) == 0.6)
            && (3 <= hour <= 8 ==> KstSessionWeight(observedMs) == 0.8)
  {
    assert (observedMs + 9 * 3_600_000) / 3_600_000 == observedMs / 3_600_000 + 9;
  }

  function LevelValue(l: Level): real { Value(l.price) * Value(l.size) }

  ghost function Top(levels: seq<Level>): seq<Level> { if |levels| > 5 then levels[..5] else levels }

  /** A book's depth is the notional of its five first bids and five first asks. */
  lemma DepthMeaning(b: BookView)
    ensures Depth5(b).Ok? ==>
              Depth5(b).value == SumOf(Top(b.bids), LevelValue) + SumOf(Top(b.asks), LevelValue)
  {
    SumCheckedIsSum(FirstFive(b.bids), LevelNotional, LevelValue);
    SumCheckedIsSum(FirstFive(b.asks), LevelNotional, LevelValue);
    hide SumChecked, SumOf;
  }

  /** The book of a slot is the last one in it. */
  lemma {:induction false} LastBookMeaning(
      books: seq<BookView>, observedMs: int, bucketMs: int, count: int, i: int)
    requires bucketMs > 0
    ensures var r := LastBook(books, observedMs, bucketMs, count, i);
            && (r.None? <==> forall b | b in books :: !BookIn(observedMs, bucketMs, count, i, b))
            && (r.Some? ==> exists k | 0 <= k < |books| ::
                  && books[k] == r.value && BookIn(observedMs, bucketMs, count, i, books[k])
                  && forall l | k < l < |books| :: !BookIn(observedMs, bucketMs, count, i, books[l]))
  {
    SlotSpan(observedMs, bucketMs, count, i);
    if books != [] {
      var n := |books| - 1;
      var init, last := books[..n], books[n];
      assert books == init + [last];
      LastBookMeaning(init, observedMs, bucketMs, count, i);
      hide Slot, BookIn;
      var r := LastBook(books, observedMs, bucketMs, count, i);
      if BookIn(observedMs, bucketMs, count, i, last) {
        assert books[n] == r.value;
      } else if r.Some? {
        var k :| 0 <= k < |init| && init[k] == r.value && BookIn(observedMs, bucketMs, count, i, init[k])
                 && forall l | k < l < |init| :: !BookIn(observedMs, bucketMs, count, i, init[l]);
        assert books[k] == r.value;
      }
    }
  }

  /** A book received in bucket `i` and not after the observation. */
  ghost predicate BookIn(observedMs: int, bucketMs: int, count: int, i: int, b: BookView)
    requires bucketMs > 0
  {
    var start := (observedMs / bucketMs - (count - 1 - i)) * bucketMs;
    start <= b.ms < start + bucketMs && b.ms <= observedMs
  }

  lemma SlotSpan(observedMs: int, bucketMs: int, count: int, i: int)
    requires bucketMs > 0
    ensures forall b: BookView ::
              BookIn(observedMs, bucketMs, count, i, b) <==>
                b.ms <= observedMs && Slot(observedMs, bucketMs, count, b.ms) == i
  {
    var k := observedMs / bucketMs - (count - 1 - i);
    NextStart(k, bucketMs);
    forall b: BookView
      ensures BookIn(observedMs, bucketMs, count, i, b) <==>
                b.ms <= observedMs && Slot(observedMs, bucketMs, count, b.ms) == i
    {
      FloorLess(b.ms, bucketMs, k);
      FloorLess(b.ms, bucketMs, k + 1);
    }
  }

  /** With a book in each of the first `k` slots, the baseline is those books in order. */
  lemma {:induction false} BaselineMeaning(books: seq<BookView>, observedMs: int, bucketMs: int, count: int, k: nat)
    requires bucketMs > 0
    ensures var r := BaselineBooks(books, observedMs, bucketMs, count, k);
            |r| == k ==> forall i | 0 <= i < k :: LastBook(books, observedMs, bucketMs, count, i) == Some(r[i])
  {
    hide LastBook;
    if k > 0 {
      BaselineMeaning(books, observedMs, bucketMs, count, k - 1);
    }
  }

  /** `x` is `a` over `b`, cut at one. */
  ghost predicate IsCapped(x: real, a: real, b: real) {
    b > 0.0 && (if a >= b then x == 1.0 else x * b == a)
  }

  lemma CappedMeaning(a: real, b: real)
    requires a >= 0.0 && b > 0.0
    ensures IsCapped(CapAtOne(Quotient(a, b)), a, b)
  {
    var q := Quotient(a, b);
    assert q * b == a;
    assert q < 0.0 ==> q * b < 0.0;
    assert q >= 1.0 ==> q * b >= 1.0 * b;
    assert q < 1.0 ==> q * b < 1.0 * b;
  }

  /** The session score is the least of three: the last bucket's volume over the median of the earlier ones and
      the last bucket's depth over the median of the earlier ones, both cut at one, and the weight of the hour. */
  lemma SessionScoreMeaning(
      trades: seq<TradeView>, books: seq<BookView>, observedMs: int, bucketMs: int, baselineCount: nat)
    returns (latest: real, volumes: seq<real>, depth: real, depths: seq<real>, x: real, y: real)
    requires bucketMs > 0 && baselineCount > 0
    ensures var r := SessionScore(trades, books, observedMs, bucketMs, baselineCount);
            r.Ok? ==>
              && Volumes(trades, observedMs, bucketMs, baselineCount, latest, volumes) && volumes != []
              && IsDepthOf(books, observedMs, bucketMs, baselineCount, baselineCount, depth)
              && |depths| == baselineCount && depths != []
              && (forall i | 0 <= i < baselineCount ::
                    IsDepthOf(books, observedMs, bucketMs, baselineCount, i, depths[i]))
              && IsCapped(x, latest, Median(volumes)) && IsCapped(y, depth, Median(depths))
              && r.value == Min(x, Min(y, KstSessionWeight(observedMs)))
  {
    hide Volumes, Median, Quotient, BucketVolumes, LastBook, BaselineBooks, Depth5, Collect, CapAtOne, KstSessionWeight,
      IsCapped;
    latest, volumes, depth, depths, x, y := 0.0, [], 0.0, [], 0.0, 0.0;
    var r := SessionScore(trades, books, observedMs, bucketMs, baselineCount);
    if r.Ok? {
      BucketVolumesMeaning(trades, observedMs, bucketMs, baselineCount);
      var v := BucketVolumes(trades, observedMs, bucketMs, baselineCount + 1).value;
      latest, volumes := v.0, v.1;
      var count := baselineCount + 1;
      depth := Depth5(LastBook(books, observedMs, bucketMs, count, baselineCount).value).value;
      var baseline := BaselineBooks(books, observedMs, bucketMs, count, baselineCount);
      depths := Collect(baseline, Depth5).value;
      BaselineMeaning(books, observedMs, bucketMs, count, baselineCount);
      CollectIs(baseline, Depth5);
      LatestNonnegative(trades, observedMs, bucketMs, baselineCount);
      CappedMeaning(latest, Median(volumes));
      CappedMeaning(depth, Median(depths));
      x, y := CapAtOne(Quotient(latest, Median(volumes))), CapAtOne(Quotient(depth, Median(depths)));
    }
  }

  /** `depth` is the depth of the last book in slot `i`. */
  ghost predicate IsDepthOf(
      books: seq<BookView>, observedMs: int, bucketMs: int, baselineCount: nat, i: int, depth: real)
    requires bucketMs > 0
  {
    var b := LastBook(books, observedMs, bucketMs, baselineCount + 1, i);
    b.Some? && Depth5(b.value) == Ok(depth)
  }

  lemma LatestNonnegative(trades: seq<TradeView>, observedMs: int, bucketMs: int, baselineCount: nat)
    requires bucketMs > 0 && baselineCount > 0
    ensures var r := BucketVolumes(trades, observedMs, bucketMs, baselineCount + 1); r.Ok? ==> r.value.0 >= 0.0
  {
    NotionalNonnegative(Buckets(trades, observedMs, bucketMs, baselineCount + 1)[baselineCount]);
    hide SumNotional, Collect;
  }

  // ----- the snapshot's deviation -----

  /** A trade event inside the lookback that ends with the observation. */
  ghost predicate TradedIn(observedMs: int, windowMs: int, e: FeatureEvent) {
    e.body.Trade? && observedMs - windowMs < e.nanos / 1_000_000 <= observedMs
  }

  ghost function QuantityAdds(parse: string -> Option<real>, observedMs: int, windowMs: int): FeatureEvent -> real {
    (e: FeatureEvent) => if TradedIn(observedMs, windowMs, e) then Value(parse(e.body.quantity)) else 0.0
  }

  ghost function NotionalAdds(parse: string -> Option<real>, observedMs: int, windowMs: int): FeatureEvent -> real {
    (e: FeatureEvent) =>
      if TradedIn(observedMs, windowMs, e) then Value(parse(e.body.price)) * Value(parse(e.body.quantity)) else 0.0
  }

  function Within(g: TradeView -> real, observedMs: int, windowMs: int): TradeView -> real {
    (t: TradeView) => if observedMs - windowMs < t.ms <= observedMs then g(t) else 0.0
  }

  lemma WithinAt(
      parse: string -> Option<real>, g: TradeView -> real, observedMs: int, windowMs: int, e: FeatureEvent)
    ensures Adds(parse, Within(g, observedMs, windowMs))(e)
         == if TradedIn(observedMs, windowMs, e) then g(TradeOf(parse, e)) else 0.0
  {
    var h := Within(g, observedMs, windowMs);
    assert Adds(parse, h)(e) == BodyAdds(parse, h, e.nanos, e.body);
    if e.body.Trade? {
      assert Adds(parse, h)(e) == h(TradeOf(parse, e));
    }
  }

  lemma LookbackTotal(
      parse: string -> Option<real>, events: seq<FeatureEvent>, g: TradeView -> real, h: FeatureEvent -> real,
      observedMs: int, windowMs: int)
    requires Validated(events).Ok?
    requires forall e :: h(e) == if TradedIn(observedMs, windowMs, e) then g(TradeOf(parse, e)) else 0.0
    ensures SumOf(Lookback(SortedTrades(parse, events), observedMs, windowMs), g) == SumOf(events, h)
  {
    forall e
      ensures Adds(parse, Within(g, observedMs, windowMs))(e) == h(e)
    {
      WithinAt(parse, g, observedMs, windowMs, e);
    }
    hide SumOf, SortedTrades, Filter, Validated, BodyAdds, Adds;
    var trades := SortedTrades(parse, events);
    SumOfFilter(trades, (t: TradeView) => observedMs - windowMs < t.ms <= observedMs, g,
                Within(g, observedMs, windowMs));
    SumOverEvents(parse, events, Within(g, observedMs, windowMs));
    SumOfAgree(events, Adds(parse, Within(g, observedMs, windowMs)), h);
  }

  lemma VwapSums(parse: string -> Option<real>, events: seq<FeatureEvent>, observedMs: int, windowMs: int)
    requires Validated(events).Ok?
    ensures var trades := Lookback(SortedTrades(parse, events), observedMs, windowMs);
            && SumOf(trades, QuantityValue) == SumOf(events, QuantityAdds(parse, observedMs, windowMs))
            && SumOf(trades, NotionalValue) == SumOf(events, NotionalAdds(parse, observedMs, windowMs))
  {
    hide SumOf, SortedTrades, Lookback, Validated;
    LookbackTotal(parse, events, QuantityValue, QuantityAdds(parse, observedMs, windowMs), observedMs, windowMs);
    LookbackTotal(parse, events, NotionalValue, NotionalAdds(parse, observedMs, windowMs), observedMs, windowMs);
  }

  lemma {:induction false} FilterInOrder(trades: seq<TradeView>, p: TradeView -> bool)
    requires TimeOrdered(trades)
    ensures TimeOrdered(Filter(trades, p))
  {
    if trades != [] {
      var rest := trades[1..];
      assert forall i | 0 <= i < |rest| :: rest[i] == trades[i + 1];
      FilterInOrder(rest, p);
      FilterMembers(rest, p);
      FilterHead(trades, p);
      var kept := Filter(rest, p);
      hide Filter;
      assert forall i | 0 <= i < |kept| :: kept[i] in kept;
    }
  }

  /** The last trade of the window is the trade of an event than which no trade event of the window is later. */
  lemma LastTrade(parse: string -> Option<real>, events: seq<FeatureEvent>, observedMs: int, windowMs: int)
    returns (last: FeatureEvent)
    requires Validated(events).Ok? && Lookback(SortedTrades(parse, events), observedMs, windowMs) != []
    ensures last in events && IsLast(parse, events, observedMs, windowMs, last)
  {
    hide SortedTrades, Validated, Lookback, TradedIn;
    var trades := Lookback(SortedTrades(parse, events), observedMs, windowMs);
    var t := trades[|trades| - 1];
    assert t in trades;
    last := LookbackEvent(parse, events, observedMs, windowMs, t);
    forall e | e in events && TradedIn(observedMs, windowMs, e)
      ensures Millis(e.nanos) <= Millis(last.nanos)
    {
      NoLaterTrade(parse, events, observedMs, windowMs, last, e);
    }
  }

  ghost predicate IsLast(
      parse: string -> Option<real>, events: seq<FeatureEvent>, observedMs: int, windowMs: int, last: FeatureEvent)
    requires Validated(events).Ok?
  {
    var trades := Lookback(SortedTrades(parse, events), observedMs, windowMs);
    && trades != [] && TradedIn(observedMs, windowMs, last) && trades[|trades| - 1] == TradeOf(parse, last)
    && forall e | e in events && TradedIn(observedMs, windowMs, e) :: Millis(e.nanos) <= Millis(last.nanos)
  }

  lemma NoLaterTrade(
      parse: string -> Option<real>, events: seq<FeatureEvent>, observedMs: int, windowMs: int, last: FeatureEvent,
      e: FeatureEvent)
    requires Validated(events).Ok? && Lookback(SortedTrades(parse, events), observedMs, windowMs) != []
    requires var trades := Lookback(SortedTrades(parse, events), observedMs, windowMs);
             last.body.Trade? && trades[|trades| - 1] == TradeOf(parse, last)
    requires e in events && TradedIn(observedMs, windowMs, e)
    ensures Millis(e.nanos) <= Millis(last.nanos)
  {
    hide SortedTrades, Validated, Lookback, TimeOrdered;
    LookbackInOrder(parse, events, observedMs, windowMs);
    EventLookback(parse, events, observedMs, windowMs, e);
    NotAfterLast(Lookback(SortedTrades(parse, events), observedMs, windowMs), TradeOf(parse, e));
  }

  lemma LookbackInOrder(parse: string -> Option<real>, events: seq<FeatureEvent>, observedMs: int, windowMs: int)
    requires Validated(events).Ok?
    ensures TimeOrdered(Lookback(SortedTrades(parse, events), observedMs, windowMs))
  {
    ValidatedInOrder(parse, events);
    hide TimeOrdered, Filter;
    FilterInOrder(SortedTrades(parse, events), (t: TradeView) => observedMs - windowMs < t.ms <= observedMs);
  }

  lemma NotAfterLast(trades: seq<TradeView>, t: TradeView)
    requires TimeOrdered(trades) && t in trades
    ensures t.ms <= trades[|trades| - 1].ms
  {
    var i :| 0 <= i < |trades| && trades[i] == t;
  }

  lemma LookbackEvent(
      parse: string -> Option<real>, events: seq<FeatureEvent>, observedMs: int, windowMs: int, t: TradeView)
    returns (e: FeatureEvent)
    requires Validated(events).Ok? && t in Lookback(SortedTrades(parse, events), observedMs, windowMs)
    ensures e in events && e.body.Trade? && TradedIn(observedMs, windowMs, e) && t == TradeOf(parse, e)
  {
    hide SortedTrades, Lookback, Validated;
    LookbackMember(SortedTrades(parse, events), observedMs, windowMs, t);
    TradesAreEvents(parse, events, t);
    e :| e in events && e.body.Trade? && t == TradeOf(parse, e);
  }

  lemma EventLookback(
      parse: string -> Option<real>, events: seq<FeatureEvent>, observedMs: int, windowMs: int, e: FeatureEvent)
    requires Validated(events).Ok? && e in events && TradedIn(observedMs, windowMs, e)
    ensures e.body.Trade? && TradeOf(parse, e) in Lookback(SortedTrades(parse, events), observedMs, windowMs)
  {
    hide SortedTrades, Lookback, Validated;
    TradesAreEvents(parse, events, TradeOf(parse, e));
    LookbackMember(SortedTrades(parse, events), observedMs, windowMs, TradeOf(parse, e));
  }

  /** The deviation that a snapshot reports, from the input events in whatever order they came: how far a latest trade
      price of the window lies from the window's notional over its quantity. */
  lemma SnapshotVwapDeviation(parse: string -> Option<real>, events: seq<FeatureEvent>, observedMs: int, o: Options)
    returns (last: FeatureEvent)
    requires M11Snapshot(parse, events, observedMs, o).vwapDeviation.Value?
    ensures var r, w := M11Snapshot(parse, events, observedMs, o).vwapDeviation, o.candleCount * o.bucketMs;
            && last in events && TradedIn(observedMs, w, last)
            && (forall e | e in events && TradedIn(observedMs, w, e) :: e.nanos / 1_000_000 <= last.nanos / 1_000_000)
            && IsDeviation(r.value, Value(parse(last.body.price)), SumOf(events, QuantityAdds(parse, observedMs, w)),
                           SumOf(events, NotionalAdds(parse, observedMs, w)))
  {
    hide SumOf, TradesOf, BooksOf, Stale, VwapDeviation, VolumeSpike, SessionScore, Map, Lookback, Directional,
      ImbalanceOf, Validated, IsDeviation;
    var w := o.candleCount * o.bucketMs;
    var trades := Lookback(SortedTrades(parse, events), observedMs, w);
    VwapDeviationMeaning(trades);
    VwapSums(parse, events, observedMs, w);
    last := LastTrade(parse, events, observedMs, w);
    assert forall e: FeatureEvent :: Millis(e.nanos) == e.nanos / 1_000_000;
  }

  // ----- failing closed -----

  /** A status event that blocks: stale, reconnecting or disconnected data inside the lookback. */
  ghost predicate BlocksFeatures(observedMs: int, lookbackMs: int, e: FeatureEvent) {
    && e.body.Status?
    && (e.body.status == "STALE" || e.body.status == "RECONNECTING" || e.body.status == "DISCONNECTED")
    && observedMs - lookbackMs < e.nanos / 1_000_000 <= observedMs
  }

  /** `longest` is the longest of the four lookbacks. */
  ghost predicate IsLongest(longest: int, o: Options) {
    var a, b := o.bucketMs * (o.baselineCount + 1), o.bucketMs * o.candleCount;
    var c, d := o.imbalanceWindowMs, o.depthChangeLookbackMs;
    longest >= a && longest >= b && longest >= c && longest >= d
    && (longest == a || longest == b || longest == c || longest == d)
  }

  lemma StaleIffBlocked(events: seq<FeatureEvent>, observedMs: int, o: Options, longest: int)
    requires Validated(events).Ok? && IsLongest(longest, o)
    ensures Stale(Map(Validated(events).value, ViewOf), observedMs, o) <==>
              exists e | e in events :: BlocksFeatures(observedMs, longest, e)
  {
    hide Sort, Accepted, PayloadText, FallbackSequence, Map;
    var sorted := Validated(events).value;
    var views := Map(sorted, ViewOf);
    SameElements(sorted, Candidates(events));
    MapMembers(events, CandidateOf);
    if exists e | e in events :: BlocksFeatures(observedMs, longest, e) {
      var e :| e in events && BlocksFeatures(observedMs, longest, e);
      CandidateReads(e);
      assert CandidateOf(e) in sorted;
      var i :| 0 <= i < |sorted| && sorted[i] == CandidateOf(e);
      assert views[i] == ViewOf(CandidateOf(e));
    }
    if Stale(views, observedMs, o) {
      var i :| 0 <= i < |views| && views[i].canonical.body.Status? && Blocking(views[i].canonical.body.status)
               && observedMs - longest < Millis(views[i].canonical.nanos) <= observedMs;
      assert sorted[i] in Candidates(events);
      var e :| e in events && CandidateOf(e) == sorted[i];
      CandidateReads(e);
      assert BlocksFeatures(observedMs, longest, e);
    }
  }

  /** A snapshot fails closed: rejected events or options fail every feature, and so does blocking data inside the
      longest lookback, which is the only cause of its reason. */
  lemma SnapshotFailsClosed(
      parse: string -> Option<real>, events: seq<FeatureEvent>, observedMs: int, o: Options, longest: int)
    requires IsLongest(longest, o)
    ensures var s := M11Snapshot(parse, events, observedMs, o);
            var features := [s.vwapDeviation, s.imbalance, s.volumeSpike, s.sessionScore];
            var valid := && o.bucketMs > 0 && o.candleCount > 0 && o.baselineCount > 0 && o.imbalanceWindowMs > 0
                         && o.depthChangeLookbackMs > 0;
            var blocked := exists e | e in events :: BlocksFeatures(observedMs, longest, e);
            && (s.ok <==> forall r | r in features :: r.Value?)
            && (!valid || !Accepted(events) ==> forall r | r in features :: r == Failure(Because(InvalidMarketValue)))
            && (valid && Accepted(events) && blocked ==> forall r | r in features :: r == Failure(MarketDataStale))
            && (forall r | r in features :: r == Failure(MarketDataStale) ==> valid && Accepted(events) && blocked)
  {
    hide TradesOf, BooksOf, Stale, VwapDeviation, VolumeSpike, SessionScore, Map, Lookback, Directional, ImbalanceOf,
      Accepted, Sort, BlocksFeatures;
    if Validated(events).Ok? {
      StaleIffBlocked(events, observedMs, o, longest);
    }
    var s := M11Snapshot(parse, events, observedMs, o);
    var features := [s.vwapDeviation, s.imbalance, s.volumeSpike, s.sessionScore];
    assert features[0] in features && features[1] in features && features[2] in features && features[3] in features;
  }

  // ----- why a feature fails -----

  /** A checked sum fails with the error of the first item that has one. */
  lemma {:induction false} SumCheckedFailsIff<T(!new)>(s: seq<T>, f: T -> Result<real, Reason>, e: Reason)
    ensures SumChecked(s, f) == Err(e) <==>
              exists n | 0 <= n < |s| :: f(s[n]) == Err(e) && forall i | 0 <= i < n :: f(s[i]).Ok?
    ensures SumChecked(s, f).Ok? <==> forall i | 0 <= i < |s| :: f(s[i]).Ok?
  {
    if s != [] {
      var n := |s| - 1;
      SumCheckedFailsIff(s[..n], f, e);
      if SumChecked(s[..n], f) == Err(e) {
        var k :| 0 <= k < n && f(s[..n][k]) == Err(e) && forall i | 0 <= i < k :: f(s[..n][i]).Ok?;
        assert f(s[k]) == Err(e) && forall i | 0 <= i < k :: f(s[i]).Ok?;
      }
      if k :| 0 <= k < |s| && f(s[k]) == Err(e) && forall i | 0 <= i < k :: f(s[i]).Ok? {
        if k < n {
          assert f(s[..n][k]) == Err(e) && forall i | 0 <= i < k :: f(s[..n][i]).Ok?;
        }
      }
    }
  }

  predicate GoodQuantity(t: TradeView) { t.quantity.Some? && t.quantity.value > 0.0 }

  /** Why there is no imbalance: no trade has a direction, or the first directional trade without a positive
      quantity has an unreadable one or one that is not positive; each cause with its own reason. */
  lemma ImbalanceFailsIff(trades: seq<TradeView>)
    ensures var directional := Filter(trades, IsDirectional);
            var r := ImbalanceOf(Directional(trades));
            && (r == Err(InsufficientInput) <==> forall t | t in trades :: t.side != Bid && t.side != Ask)
            && (r == Err(InvalidDecimal) <==>
                  exists n | 0 <= n < |directional| ::
                    directional[n].quantity.None? && forall i | 0 <= i < n :: GoodQuantity(directional[i]))
            && (r == Err(InvalidMarketValue) <==>
                  exists n | 0 <= n < |directional| ::
                    && directional[n].quantity.Some? && directional[n].quantity.value <= 0.0
                    && forall i | 0 <= i < n :: GoodQuantity(directional[i]))
  {
    var directional := Filter(trades, IsDirectional);
    FilterMembers(trades, IsDirectional);
    DirectionalIs(trades);
    if directional != [] {
      assert directional[0] in trades;
    }
    ImbalanceReasons(directional);
    hide Filter, ImbalanceOf, Directional;
  }

  predicate IsDirectional(t: TradeView) { t.side == Bid || t.side == Ask }

  lemma DirectionalIs(trades: seq<TradeView>)
    ensures Directional(trades) == Filter(trades, IsDirectional)
  {
    FilterAgree(trades, (t: TradeView) => t.side == Bid || t.side == Ask, IsDirectional);
  }

  lemma ImbalanceReasons(s: seq<TradeView>)
    requires forall t | t in s :: t.side == Bid || t.side == Ask
    ensures var r := ImbalanceOf(s);
            && (r == Err(InsufficientInput) <==> s == [])
            && (r == Err(InvalidDecimal) <==>
                  exists n | 0 <= n < |s| :: s[n].quantity.None? && forall i | 0 <= i < n :: GoodQuantity(s[i]))
            && (r == Err(InvalidMarketValue) <==>
                  exists n | 0 <= n < |s| ::
                    s[n].quantity.Some? && s[n].quantity.value <= 0.0 && forall i | 0 <= i < n :: GoodQuantity(s[i]))
  {
    var f := SideQuantity(Bid);
    SumCheckedFailsIff(s, f, InvalidDecimal);
    SumCheckedFailsIff(s, f, InvalidMarketValue);
    SumCheckedFailsIff(s, f, InsufficientInput);
    forall i | 0 <= i < |s|
      ensures f(s[i]).Ok? <==> GoodQuantity(s[i])
      ensures f(s[i]) == Err(InvalidDecimal) <==> s[i].quantity.None?
      ensures f(s[i]) == Err(InvalidMarketValue) <==> s[i].quantity.Some? && s[i].quantity.value <= 0.0
      ensures f(s[i]) != Err(InsufficientInput)
    {}
    ImbalanceOfSides(s);
    assert (forall i | 0 <= i < |s| :: GoodQuantity(s[i])) ==> ReadableSides(s);
    NoMembers(s);
    hide SumChecked, SideQuantity, SumOf, IsShare;
  }
}
