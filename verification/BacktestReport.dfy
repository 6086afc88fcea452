/** Backtest reports: the run report as a fold over order candidates, and the cost comparison of two reports. */
module BacktestReport {
  import opened Sequences
  import opened Reals

  // ----- run report -----

  datatype CandidateStatus = Simulated | CostRejected | RuleRejected | RiskRejected | ExecutionRejected

  datatype Fill = Fill(
    complete: bool, quantity: real, notional: Option<real>, fee: Option<real>, slippageBps: Option<real>)

  datatype Candidate = Candidate(
    strategyId: string, status: CandidateStatus, fill: Option<Fill>, expectedReturnBps: Option<real>,
    costBps: Option<real>)

  /** The additive part of a summary; differences of summaries have the same shape. */
  datatype Tally = Tally(
    candidates: int, simulated: int, rejected: int, filled: int, partiallyFilled: int, unfilled: int, quantity: real,
    notional: real, fee: real, grossPnl: real, cost: real, netPnl: real, slippageSum: real, slippageSamples: int)

  const Zero := Tally(0, 0, 0, 0, 0, 0, 0.0, 0.0, 0.0, 0.0, 0.0, 0.0, 0.0, 0)

  function Add(a: Tally, b: Tally): Tally {
    Tally(a.candidates + b.candidates, a.simulated + b.simulated, a.rejected + b.rejected, a.filled + b.filled,
          a.partiallyFilled + b.partiallyFilled, a.unfilled + b.unfilled, a.quantity + b.quantity,
          a.notional + b.notional, a.fee + b.fee, a.grossPnl + b.grossPnl, a.cost + b.cost, a.netPnl + b.netPnl,
          a.slippageSum + b.slippageSum, a.slippageSamples + b.slippageSamples)
  }

  function Sub(a: Tally, b: Tally): Tally {
    Tally(a.candidates - b.candidates, a.simulated - b.simulated, a.rejected - b.rejected, a.filled - b.filled,
          a.partiallyFilled - b.partiallyFilled, a.unfilled - b.unfilled, a.quantity - b.quantity,
          a.notional - b.notional, a.fee - b.fee, a.grossPnl - b.grossPnl, a.cost - b.cost, a.netPnl - b.netPnl,
          a.slippageSum - b.slippageSum, a.slippageSamples - b.slippageSamples)
  }

  lemma TallyLaws(a: Tally, b: Tally, c: Tally, d: Tally)
    ensures Add(a, Zero) == a && Add(Zero, a) == a && Sub(Zero, Zero) == Zero
    ensures Add(a, b) == Add(b, a)
    ensures Add(Add(a, b), c) == Add(a, Add(b, c))
    ensures Add(Sub(a, b), Sub(c, d)) == Sub(Add(a, c), Add(b, d))
  {}

  function ValueOr0(v: Option<real>): real { if v.Some? then v.value else 0.0 }

  /** A rate in basis points, applied to a notional. */
  function BpsOf(notional: real, bps: Option<real>): real { Mul(notional, ValueOr0(bps)) / 10_000.0 }

  /** What one candidate adds to its strategy's summary and to the totals. */
  function Contribution(c: Candidate): Tally {
    var simulated := if c.status.Simulated? then 1 else 0;
    var base := Zero.(candidates := 1, simulated := simulated, rejected := 1 - simulated);
    if c.fill.None? then base else Add(base, FillPart(c, c.fill.value))
  }

  lemma NoNotional(bps: Option<real>)
    ensures BpsOf(0.0, bps) == 0.0
  {
    MulZero(ValueOr0(bps));
  }

  /** The part of a contribution that comes from the fill. */
  function FillPart(c: Candidate, f: Fill): Tally {
    var n := ValueOr0(f.notional);
    Tally(0, 0, 0, if f.complete then 1 else 0, if !f.complete && f.quantity > 0.0 then 1 else 0,
          if !f.complete && f.quantity <= 0.0 then 1 else 0, f.quantity, n, ValueOr0(f.fee),
          BpsOf(n, c.expectedReturnBps), BpsOf(n, c.costBps), BpsOf(n, c.expectedReturnBps) - BpsOf(n, c.costBps),
          ValueOr0(f.slippageBps), if f.slippageBps.Some? then 1 else 0)
  }

  /** `recordEstimatedPnl`: the estimates move by what their rates take of the notional and nothing else moves, so that
      net stays gross less cost. */
  method RecordEstimatedPnl(summary: Tally, c: Candidate, notional: real) returns (r: Tally)
    ensures r.grossPnl - summary.grossPnl == BpsOf(notional, c.expectedReturnBps)
    ensures r.cost - summary.cost == BpsOf(notional, c.costBps)
    ensures r.netPnl - r.grossPnl + r.cost == summary.netPnl - summary.grossPnl + summary.cost
    ensures r.(grossPnl := summary.grossPnl, cost := summary.cost, netPnl := summary.netPnl) == summary
  {
    hide BpsOf;
    var gross, cost := BpsOf(notional, c.expectedReturnBps), BpsOf(notional, c.costBps);
    r := summary.(grossPnl := summary.grossPnl + gross);
    r := r.(cost := r.cost + cost);
    r := r.(netPnl := r.netPnl + (gross - cost));
  }

  /** `recordFillResult`. */
  method RecordFillResult(summary: Tally, c: Candidate, f: Fill) returns (r: Tally)
    ensures r == Add(summary, FillPart(c, f))
  {
    hide BpsOf;
    NoNotional(c.expectedReturnBps);
    NoNotional(c.costBps);
    if f.complete {
      r := summary.(filled := summary.filled + 1);
    } else if f.quantity > 0.0 {
      r := summary.(partiallyFilled := summary.partiallyFilled + 1);
    } else {
      r := summary.(unfilled := summary.unfilled + 1);
    }
    r := r.(quantity := r.quantity + f.quantity);
    if f.notional.Some? {
      r := r.(notional := r.notional + f.notional.value);
      r := RecordEstimatedPnl(r, c, f.notional.value);
    }
    if f.fee.Some? {
      r := r.(fee := r.fee + f.fee.value);
    }
    if f.slippageBps.Some? {
      r := r.(slippageSum := r.slippageSum + f.slippageBps.value, slippageSamples := r.slippageSamples + 1);
    }
  }

  /** `recordCandidate`: branch by branch, field by field. */
  method RecordCandidate(summary: Tally, c: Candidate) returns (r: Tally)
    ensures r == Add(summary, Contribution(c))
  {
    hide FillPart;
    r := summary.(candidates := summary.candidates + 1);
    if c.status.Simulated? {
      r := r.(simulated := r.simulated + 1);
    } else {
      r := r.(rejected := r.rejected + 1);
    }
    if c.fill.None? {
      return;
    }
    r := RecordFillResult(r, c, c.fill.value);
  }

  function TallyOf(cs: seq<Candidate>): Tally {
    if cs == [] then Zero else Add(TallyOf(cs[..|cs| - 1]), Contribution(cs[|cs| - 1]))
  }

  function OfStrategy(id: string): Candidate -> bool { (c: Candidate) => c.strategyId == id }

  function StrategyTally(cs: seq<Candidate>): string -> Tally { (id: string) => TallyOf(Filter(cs, OfStrategy(id))) }

  function StrategyId(c: Candidate): string { c.strategyId }

  function StrategyIds(cs: seq<Candidate>): seq<string> { FirstSeen(Map(cs, StrategyId)) }

  datatype Summary = Summary(strategyId: string, tally: Tally)

  function SummaryOf(cs: seq<Candidate>): string -> Summary { (id: string) => Summary(id, StrategyTally(cs)(id)) }

  /** The summaries so far, and their strategies in the order they came up. */
  ghost predicate Summarised(seen: seq<Candidate>, summaries: map<string, Tally>, order: seq<string>) {
    && order == StrategyIds(seen)
    && (forall id :: id in summaries <==> id in order)
    && (forall id :: (if id in summaries then summaries[id] else Zero) == StrategyTally(seen)(id))
  }

  lemma TallyStep(seen: seq<Candidate>, c: Candidate)
    ensures TallyOf(seen + [c]) == Add(TallyOf(seen), Contribution(c)) && seen + [] == seen
  {
    assert (seen + [c])[..|seen|] == seen;
  }

  lemma StrategyTallyStep(seen: seq<Candidate>, c: Candidate, id: string)
    ensures StrategyTally(seen + [c])(id)
         == if c.strategyId == id then Add(StrategyTally(seen)(id), Contribution(c)) else StrategyTally(seen)(id)
  {
    hide Filter, TallyOf, Add;
    var all := seen + [c];
    assert all[..|seen|] == seen && all[..|seen| + 1] == all;
    FilterStep(all, |seen|, OfStrategy(id));
    TallyStep(Filter(seen, OfStrategy(id)), c);
  }

  lemma SummarisedStep(
      seen: seq<Candidate>, c: Candidate, summaries: map<string, Tally>, order: seq<string>)
    requires Summarised(seen, summaries, order)
    ensures var existing := if c.strategyId in summaries then summaries[c.strategyId] else Zero;
            Summarised(seen + [c], summaries[c.strategyId := Add(existing, Contribution(c))],
                       if c.strategyId in order then order else order + [c.strategyId])
  {
    hide Filter, TallyOf, Add, Contribution, Map, FirstSeen, StrategyTally;
    assert Map(seen + [c], StrategyId) == Map(seen, StrategyId) + [c.strategyId];
    FirstSeenStep(Map(seen, StrategyId), c.strategyId);
    forall id
      ensures StrategyTally(seen + [c])(id)
           == if c.strategyId == id then Add(StrategyTally(seen)(id), Contribution(c)) else StrategyTally(seen)(id)
    {
      StrategyTallyStep(seen, c, id);
    }
  }

  lemma SummarisedStart()
    ensures Summarised([], map[], [])
  {}

  lemma SummariesFinal(cs: seq<Candidate>, summaries: map<string, Tally>, order: seq<string>, values: seq<Summary>)
    requires Summarised(cs, summaries, order) && |values| == |order|
    requires forall i | 0 <= i < |order| :: order[i] in summaries && values[i] == Summary(order[i], summaries[order[i]])
    ensures values == Map(StrategyIds(cs), SummaryOf(cs))
  {
    hide StrategyTally, StrategyIds, Map;
  }

  /** `createBacktestRunReport`: one pass that feeds each candidate to its strategy's summary and to the totals. */
  method CreateRunReport(cs: seq<Candidate>, collate: (Summary, Summary) -> bool)
    returns (totals: Tally, summaries: seq<Summary>)
    ensures totals == TallyOf(cs)
    ensures multiset(summaries) == multiset(Map(StrategyIds(cs), SummaryOf(cs)))
  {
    hide Summarised, TallyOf, Add, Contribution, StrategyIds, Map, SummaryOf;
    totals := Zero;
    TallyEmpty();
    SummarisedStart();
    var byStrategy: map<string, Tally>, order: seq<string> := map[], [];
    for n := 0 to |cs|
      invariant totals == TallyOf(cs[..n])
      invariant Summarised(cs[..n], byStrategy, order)
    {
      var c := cs[n];
      SummarisedKeys(cs[..n], byStrategy, order);
      var existing := if c.strategyId in byStrategy then byStrategy[c.strategyId] else Zero;
      var updated := RecordCandidate(existing, c);
      SummarisedStep(cs[..n], c, byStrategy, order);
      TallyStep(cs[..n], c);
      assert cs[..n + 1] == cs[..n] + [c];
      if c.strategyId !in byStrategy {
        order := order + [c.strategyId];
      }
      byStrategy := byStrategy[c.strategyId := updated];
      totals := RecordCandidate(totals, c);
    }
    assert cs[..|cs|] == cs;
    SummarisedKeys(cs, byStrategy, order);
    var values := seq(|order|, i requires 0 <= i < |order| =>
      assert order[i] in order; Summary(order[i], byStrategy[order[i]]));
    SummariesFinal(cs, byStrategy, order, values);
    summaries := Sort(values, collate);
  }

  lemma TallyEmpty()
    ensures TallyOf([]) == Zero
  {}

  lemma SummarisedKeys(seen: seq<Candidate>, summaries: map<string, Tally>, order: seq<string>)
    requires Summarised(seen, summaries, order)
    ensures forall id :: id in summaries <==> id in order
  {}

  // ----- totals are sums of summaries -----

  function TallySum(ts: seq<Tally>): Tally {
    if ts == [] then Zero else Add(TallySum(ts[..|ts| - 1]), ts[|ts| - 1])
  }

  /** Disjoint parts of a run add up. */
  lemma {:induction false} TallySplit(
      cs: seq<Candidate>, p: Candidate -> bool, q: Candidate -> bool, either: Candidate -> bool)
    requires forall c | c in cs :: (either(c) <==> p(c) || q(c)) && !(p(c) && q(c))
    ensures TallyOf(Filter(cs, either)) == Add(TallyOf(Filter(cs, p)), TallyOf(Filter(cs, q)))
  {
    hide Filter, TallyOf, Add, Contribution;
    if cs == [] {
      FilterEmpty(p);
      FilterEmpty(q);
      FilterEmpty(either);
      TallyEmpty();
      TallyLaws(Zero, Zero, Zero, Zero);
    } else {
      var n := |cs| - 1;
      var init, last := cs[..n], cs[n];
      assert cs == init + [last] && cs[..n + 1] == cs;
      TallySplit(init, p, q, either);
      FilterStep(cs, n, p);
      FilterStep(cs, n, q);
      FilterStep(cs, n, either);
      TallyStep(Filter(init, p), last);
      TallyStep(Filter(init, q), last);
      TallyStep(Filter(init, either), last);
      var a, b, t := TallyOf(Filter(init, p)), TallyOf(Filter(init, q)), Contribution(last);
      TallyLaws(a, b, t, Zero);
      TallyLaws(a, t, b, Zero);
      TallyLaws(b, t, Zero, Zero);
    }
  }

  function AnyOf(ids: seq<string>): Candidate -> bool { (c: Candidate) => c.strategyId in ids }

  lemma {:induction false} StrategiesAddUp(cs: seq<Candidate>, ids: seq<string>)
    requires Distinct(ids)
    ensures TallySum(Map(ids, StrategyTally(cs))) == TallyOf(Filter(cs, AnyOf(ids)))
  {
    hide Filter, TallyOf, Add, Map;
    if ids == [] {
      FilterNone(cs, AnyOf(ids));
      TallyEmpty();
      assert Map(ids, StrategyTally(cs)) == [];
    } else {
      var init, last := ids[..|ids| - 1], ids[|ids| - 1];
      assert ids == init + [last] && last !in init;
      StrategiesAddUp(cs, init);
      MapLast(ids, StrategyTally(cs));
      TallySumLast(Map(init, StrategyTally(cs)), StrategyTally(cs)(last));
      TallySplit(cs, AnyOf(init), OfStrategy(last), AnyOf(ids));
    }
  }

  lemma TallySumLast(ts: seq<Tally>, t: Tally)
    ensures TallySum(ts + [t]) == Add(TallySum(ts), t)
  {
    assert (ts + [t])[..|ts|] == ts;
  }

  /** Over any list of strategies that names each strategy of the run once, the summaries add up to the totals. */
  lemma TotalsOverStrategies(cs: seq<Candidate>, ids: seq<string>)
    requires Distinct(ids) && forall c | c in cs :: c.strategyId in ids
    ensures TallySum(Map(ids, StrategyTally(cs))) == TallyOf(cs)
  {
    hide Filter, TallyOf, Map, TallySum, StrategyTally, Distinct;
    StrategiesAddUp(cs, ids);
    FilterKeepsAll(cs, AnyOf(ids));
  }

  lemma StrategyIdsCover(cs: seq<Candidate>)
    ensures Distinct(StrategyIds(cs)) && forall c | c in cs :: c.strategyId in StrategyIds(cs)
  {
    hide Map, FirstSeen;
    FirstSeenExact(Map(cs, StrategyId));
    forall c | c in cs
      ensures c.strategyId in StrategyIds(cs)
    {
      var i :| 0 <= i < |cs| && cs[i] == c;
      assert Map(cs, StrategyId)[i] == c.strategyId;
    }
  }

  function TallyField(s: Summary): Tally { s.tally }

  /** The totals of a run are the sum of its strategy summaries, field by field, and in whatever order they are
      listed. */
  lemma TotalsAreSum(cs: seq<Candidate>, summaries: seq<Summary>)
    requires multiset(summaries) == multiset(Map(StrategyIds(cs), SummaryOf(cs)))
    ensures TallySum(Map(summaries, TallyField)) == TallyOf(cs)
  {
    hide Map, TallyOf, TallySum, StrategyIds, SummaryOf, StrategyTally, Distinct;
    StrategyIdsCover(cs);
    TotalsOverStrategies(cs, StrategyIds(cs));
    MapPermutation(summaries, Map(StrategyIds(cs), SummaryOf(cs)), TallyField);
    TallySumPermutation(Map(summaries, TallyField), Map(Map(StrategyIds(cs), SummaryOf(cs)), TallyField));
    MapFields(cs, StrategyIds(cs));
  }

  lemma MapFields(cs: seq<Candidate>, ids: seq<string>)
    ensures Map(Map(ids, SummaryOf(cs)), TallyField) == Map(ids, StrategyTally(cs))
  {
    hide Map, StrategyTally;
  }

  lemma {:induction false} TallySumConcat(a: seq<Tally>, b: seq<Tally>)
    ensures TallySum(a + b) == Add(TallySum(a), TallySum(b))
  {
    hide Add;
    if b == [] {
      assert a + b == a;
      TallyLaws(TallySum(a), Zero, Zero, Zero);
    } else {
      assert (a + b)[..|a + b| - 1] == a + b[..|b| - 1];
      TallySumConcat(a, b[..|b| - 1]);
      TallyLaws(TallySum(a), TallySum(b[..|b| - 1]), b[|b| - 1], Zero);
    }
  }

  lemma TallySumOne(t: Tally)
    ensures TallySum([t]) == t
  {
    assert [t][..0] == [];
  }

  lemma TallySumRemove(s: seq<Tally>, i: nat)
    requires i < |s|
    ensures TallySum(s) == Add(TallySum(s[..i] + s[i + 1..]), s[i])
  {
    hide Add, TallySum;
    assert s == s[..i] + ([s[i]] + s[i + 1..]);
    TallySumOne(s[i]);
    TallySumConcat(s[..i], [s[i]] + s[i + 1..]);
    TallySumConcat([s[i]], s[i + 1..]);
    TallySumConcat(s[..i], s[i + 1..]);
    TallyLaws(TallySum(s[..i]), TallySum(s[i + 1..]), s[i], Zero);
    TallyLaws(s[i], TallySum(s[i + 1..]), Zero, Zero);
  }

  lemma {:induction false} TallySumPermutation(a: seq<Tally>, b: seq<Tally>)
    requires multiset(a) == multiset(b)
    ensures TallySum(a) == TallySum(b)
    decreases |a|
  {
    hide Add, TallySum;
    if a == [] {
      EmptyPermutation(b);
    } else {
      var i := MatchFirst(a, b);
      TallySumPermutation(a[1..], b[..i] + b[i + 1..]);
      TallySumRemove(a, 0);
      TallySumRemove(b, i);
      assert a[..0] + a[1..] == a[1..];
    }
  }

  predicate IsSimulated(c: Candidate) { c.status.Simulated? }

  predicate HasFill(c: Candidate) { c.fill.Some? }

  lemma ContributionCounts(c: Candidate)
    ensures var t := Contribution(c);
            && t.candidates == 1 && t.simulated + t.rejected == 1 && t.simulated == (if IsSimulated(c) then 1 else 0)
            && t.filled + t.partiallyFilled + t.unfilled == (if HasFill(c) then 1 else 0)
  {
    hide BpsOf;
  }

  /** What the counts of a run mean: candidates are simulated or rejected, and fills are complete, partial or empty. */
  lemma {:induction false} CountsMeaning(cs: seq<Candidate>)
    ensures var t := TallyOf(cs);
            && t.candidates == |cs| && t.simulated + t.rejected == |cs| && t.simulated == |Filter(cs, IsSimulated)|
            && t.filled + t.partiallyFilled + t.unfilled == |Filter(cs, HasFill)|
  {
    hide Filter, Contribution;
    if cs == [] {
      FilterEmpty<Candidate>(IsSimulated);
      FilterEmpty<Candidate>(HasFill);
    } else {
      var n := |cs| - 1;
      assert cs[..n + 1] == cs;
      CountsMeaning(cs[..n]);
      FilterStep(cs, n, IsSimulated);
      FilterStep(cs, n, HasFill);
      ContributionCounts(cs[n]);
    }
  }

  // ----- what the totals are sums of -----

  predicate CompleteFill(c: Candidate) { c.fill.Some? && c.fill.value.complete }

  predicate PartialFill(c: Candidate) { c.fill.Some? && !c.fill.value.complete && c.fill.value.quantity > 0.0 }

  predicate EmptyFill(c: Candidate) { c.fill.Some? && !c.fill.value.complete && c.fill.value.quantity <= 0.0 }

  predicate SlippageKnown(c: Candidate) { c.fill.Some? && c.fill.value.slippageBps.Some? }

  function QuantityOf(c: Candidate): real { if c.fill.Some? then c.fill.value.quantity else 0.0 }

  function NotionalOf(c: Candidate): real {
    if c.fill.Some? && c.fill.value.notional.Some? then c.fill.value.notional.value else 0.0
  }

  function FeeOf(c: Candidate): real {
    if c.fill.Some? && c.fill.value.fee.Some? then c.fill.value.fee.value else 0.0
  }

  function SlippageOf(c: Candidate): real { if SlippageKnown(c) then c.fill.value.slippageBps.value else 0.0 }

  /** The expected return of the filled notional. */
  function GrossOf(c: Candidate): real {
    if c.expectedReturnBps.Some? then NotionalOf(c) * c.expectedReturnBps.value / 10_000.0 else 0.0
  }

  /** The estimated cost of the filled notional. */
  function CostOf(c: Candidate): real {
    if c.costBps.Some? then NotionalOf(c) * c.costBps.value / 10_000.0 else 0.0
  }

  lemma ContributionIs(c: Candidate)
    ensures Contribution(c)
         == Tally(1, if IsSimulated(c) then 1 else 0, if IsSimulated(c) then 0 else 1,
                  if CompleteFill(c) then 1 else 0, if PartialFill(c) then 1 else 0, if EmptyFill(c) then 1 else 0,
                  QuantityOf(c), NotionalOf(c), FeeOf(c), GrossOf(c), CostOf(c), GrossOf(c) - CostOf(c),
                  SlippageOf(c), if SlippageKnown(c) then 1 else 0)
  {
    RatesAre(c);
    NoNotional(c.expectedReturnBps);
    NoNotional(c.costBps);
    hide BpsOf, GrossOf, CostOf;
  }

  lemma RatesAre(c: Candidate)
    ensures GrossOf(c) == BpsOf(NotionalOf(c), c.expectedReturnBps) && CostOf(c) == BpsOf(NotionalOf(c), c.costBps)
  {
    MulZero(NotionalOf(c));
    hide NotionalOf;
  }

  lemma SumOfLast(cs: seq<Candidate>, f: Candidate -> real)
    requires cs != []
    ensures SumOf(cs, f) == SumOf(cs[..|cs| - 1], f) + f(cs[|cs| - 1])
  {
    var init, last := cs[..|cs| - 1], cs[|cs| - 1];
    assert cs == init + [last];
    SumOfConcat(init, [last], f);
  }

  lemma {:induction false} FillCountsMeaning(cs: seq<Candidate>)
    ensures var t := TallyOf(cs);
            && t.filled == |Filter(cs, CompleteFill)| && t.partiallyFilled == |Filter(cs, PartialFill)|
            && t.unfilled == |Filter(cs, EmptyFill)| && t.slippageSamples == |Filter(cs, SlippageKnown)|
  {
    hide Filter, Contribution;
    if cs == [] {
      FilterEmpty<Candidate>(CompleteFill);
      FilterEmpty<Candidate>(PartialFill);
      FilterEmpty<Candidate>(EmptyFill);
      FilterEmpty<Candidate>(SlippageKnown);
    } else {
      var n := |cs| - 1;
      assert cs[..n + 1] == cs;
      FillCountsMeaning(cs[..n]);
      FilterStep(cs, n, CompleteFill);
      FilterStep(cs, n, PartialFill);
      FilterStep(cs, n, EmptyFill);
      FilterStep(cs, n, SlippageKnown);
      ContributionIs(cs[n]);
      hide CompleteFill, PartialFill, EmptyFill, SlippageKnown, GrossOf, CostOf;
    }
  }

  /** The amounts of a run are sums over its candidates: filled quantity, notional, fee and slippage as the fills say,
      and the estimates as rates of ten-thousandths on the notional. */
  lemma {:induction false} AmountsMeaning(cs: seq<Candidate>)
    ensures var t := TallyOf(cs);
            && t.quantity == SumOf(cs, QuantityOf) && t.notional == SumOf(cs, NotionalOf) && t.fee == SumOf(cs, FeeOf)
            && t.slippageSum == SumOf(cs, SlippageOf)
            && t.grossPnl == SumOf(cs, GrossOf) && t.cost == SumOf(cs, CostOf)
  {
    hide Contribution;
    if cs != [] {
      hide SumOf, QuantityOf, NotionalOf, FeeOf, SlippageOf, GrossOf, CostOf;
      var n := |cs| - 1;
      AmountsMeaning(cs[..n]);
      ContributionIs(cs[n]);
      SumOfLast(cs, QuantityOf);
      SumOfLast(cs, NotionalOf);
      SumOfLast(cs, FeeOf);
      SumOfLast(cs, SlippageOf);
      SumOfLast(cs, GrossOf);
      SumOfLast(cs, CostOf);
    }
  }

  /** Over a whole run, the net result is the gross result less cost. */
  lemma {:induction false} NetIsGrossLessCost(cs: seq<Candidate>)
    ensures TallyOf(cs).netPnl == TallyOf(cs).grossPnl - TallyOf(cs).cost
  {
    hide BpsOf;
    if cs != [] {
      NetIsGrossLessCost(cs[..|cs| - 1]);
    }
  }

  // ----- cost comparison -----

  /** A strategy's summary in a report, the empty one if the report does not list it. */
  function Lookup(summaries: seq<Summary>, id: string): Tally {
    if summaries == [] then Zero
    else if summaries[|summaries| - 1].strategyId == id then summaries[|summaries| - 1].tally
    else Lookup(summaries[..|summaries| - 1], id)
  }

  function Name(s: Summary): string { s.strategyId }

  function DeltaOf(zeroCost: seq<Summary>, costAware: seq<Summary>): string -> Tally {
    (id: string) => Sub(Lookup(costAware, id), Lookup(zeroCost, id))
  }

  function ComparedIds(zeroCost: seq<Summary>, costAware: seq<Summary>): seq<string> {
    FirstSeen(Map(zeroCost, Name) + Map(costAware, Name))
  }

  /** `createPerStrategyDelta`; `byName` is the order of the strategy names. */
  method CreatePerStrategyDelta(zeroCost: seq<Summary>, costAware: seq<Summary>, byName: (string, string) -> bool)
    returns (ids: seq<string>, deltas: seq<Tally>)
    ensures multiset(ids) == multiset(ComparedIds(zeroCost, costAware))
    ensures deltas == Map(ids, DeltaOf(zeroCost, costAware))
  {
    hide Map, Sort, FirstSeen, Lookup, Sub;
    ids := Sort(ComparedIds(zeroCost, costAware), byName);
    deltas := [];
    for n := 0 to |ids|
      invariant deltas == Map(ids[..n], DeltaOf(zeroCost, costAware))
    {
      assert ids[..n + 1][..n] == ids[..n];
      MapLast(ids[..n + 1], DeltaOf(zeroCost, costAware));
      deltas := deltas + [Sub(Lookup(costAware, ids[n]), Lookup(zeroCost, ids[n]))];
    }
    assert ids[..|ids|] == ids;
  }

  /** `summaries` is the summary list of a report over `cs`, in some order. */
  ghost predicate Reports(summaries: seq<Summary>, cs: seq<Candidate>) {
    multiset(summaries) == multiset(Map(StrategyIds(cs), SummaryOf(cs)))
  }

  lemma {:induction false} LookupFinds(summaries: seq<Summary>, id: string)
    ensures (exists s :: s in summaries && s.strategyId == id && Lookup(summaries, id) == s.tally)
            || (Lookup(summaries, id) == Zero && forall s | s in summaries :: s.strategyId != id)
  {
    if summaries != [] {
      var init, last := summaries[..|summaries| - 1], summaries[|summaries| - 1];
      assert summaries == init + [last];
      LookupFinds(init, id);
      assert last in summaries;
    }
  }

  lemma ReportMembers(summaries: seq<Summary>, cs: seq<Candidate>)
    requires Reports(summaries, cs)
    ensures forall s | s in summaries :: s.tally == StrategyTally(cs)(s.strategyId)
    ensures forall c | c in cs :: exists s :: s in summaries && s.strategyId == c.strategyId
  {
    hide StrategyTally, Map, StrategyIds;
    var ids := StrategyIds(cs);
    SameElements(summaries, Map(ids, SummaryOf(cs)));
    StrategyIdsCover(cs);
    forall c | c in cs
      ensures exists s :: s in summaries && s.strategyId == c.strategyId
    {
      var i :| 0 <= i < |ids| && ids[i] == c.strategyId;
      assert Map(ids, SummaryOf(cs))[i] == SummaryOf(cs)(c.strategyId);
      assert SummaryOf(cs)(c.strategyId) in summaries;
    }
  }

  /** A strategy that a report does not list has no candidate, so reading it as empty is right. */
  lemma LookupIsTally(summaries: seq<Summary>, cs: seq<Candidate>, id: string)
    requires Reports(summaries, cs)
    ensures Lookup(summaries, id) == StrategyTally(cs)(id)
  {
    hide Filter, TallyOf, Lookup, Reports;
    ReportMembers(summaries, cs);
    LookupFinds(summaries, id);
    if forall s | s in summaries :: s.strategyId != id {
      forall c | c in cs
        ensures c.strategyId != id
      {
        var s :| s in summaries && s.strategyId == c.strategyId;
      }
      FilterNone(cs, OfStrategy(id));
      TallyEmpty();
    }
  }

  lemma {:induction false} DeltasTelescope(ids: seq<string>, f: string -> Tally, g: string -> Tally, d: string -> Tally)
    requires forall id | id in ids :: d(id) == Sub(f(id), g(id))
    ensures TallySum(Map(ids, d)) == Sub(TallySum(Map(ids, f)), TallySum(Map(ids, g)))
  {
    hide Map, Add, Sub, TallySum;
    if ids == [] {
      assert Map(ids, d) == [] && Map(ids, f) == [] && Map(ids, g) == [];
      TallySumEmpty();
      TallyLaws(Zero, Zero, Zero, Zero);
    } else {
      var init, last := ids[..|ids| - 1], ids[|ids| - 1];
      assert forall id | id in init :: id in ids;
      DeltasTelescope(init, f, g, d);
      MapLast(ids, d);
      MapLast(ids, f);
      MapLast(ids, g);
      TallySumLast(Map(init, d), d(last));
      TallySumLast(Map(init, f), f(last));
      TallySumLast(Map(init, g), g(last));
      TallyLaws(TallySum(Map(init, f)), TallySum(Map(init, g)), f(last), g(last));
    }
  }

  lemma TallySumEmpty()
    ensures TallySum([]) == Zero
  {}

  lemma ComparedIdsCover(zeroCost: seq<Summary>, costAware: seq<Summary>, ids: seq<string>)
    requires multiset(ids) == multiset(ComparedIds(zeroCost, costAware))
    ensures Distinct(ids)
    ensures forall s | s in zeroCost || s in costAware :: s.strategyId in ids
  {
    hide Map, FirstSeen, Distinct;
    var names := Map(zeroCost, Name) + Map(costAware, Name);
    FirstSeenExact(names);
    DistinctPermutes(FirstSeen(names), ids);
    SameElements(ids, FirstSeen(names));
    forall s | s in zeroCost || s in costAware
      ensures s.strategyId in ids
    {
      NamesIn(zeroCost, costAware, s);
    }
  }

  lemma NamesIn(a: seq<Summary>, b: seq<Summary>, s: Summary)
    requires s in a || s in b
    ensures s.strategyId in Map(a, Name) + Map(b, Name)
  {
    hide Map;
    if s in a {
      var i :| 0 <= i < |a| && a[i] == s;
      assert Map(a, Name)[i] == s.strategyId;
    } else {
      var i :| 0 <= i < |b| && b[i] == s;
      assert Map(b, Name)[i] == s.strategyId;
    }
  }

  /** The per-strategy deltas of two runs sum to the delta of their totals, field by field, even where a strategy
      occurs in only one of the runs. A delta is what leads from the zero-cost figures to the cost-aware ones. */
  lemma DeltasSumToTotal(
      zeroRun: seq<Candidate>, awareRun: seq<Candidate>, zeroCost: seq<Summary>, costAware: seq<Summary>,
      ids: seq<string>)
    requires Reports(zeroCost, zeroRun) && Reports(costAware, awareRun)
    requires multiset(ids) == multiset(ComparedIds(zeroCost, costAware))
    ensures TallySum(Map(ids, DeltaOf(zeroCost, costAware))) == Sub(TallyOf(awareRun), TallyOf(zeroRun))
    ensures Add(TallyOf(zeroRun), TallySum(Map(ids, DeltaOf(zeroCost, costAware)))) == TallyOf(awareRun)
    ensures forall id | id in ids ::
              Add(StrategyTally(zeroRun)(id), DeltaOf(zeroCost, costAware)(id)) == StrategyTally(awareRun)(id)
  {
    hide Map, TallyOf, TallySum, Add, Sub, Lookup, StrategyTally, ComparedIds, Distinct, Reports;
    ComparedIdsCover(zeroCost, costAware, ids);
    forall id | id in ids
      ensures DeltaOf(zeroCost, costAware)(id) == Sub(StrategyTally(awareRun)(id), StrategyTally(zeroRun)(id))
      ensures Add(StrategyTally(zeroRun)(id), DeltaOf(zeroCost, costAware)(id)) == StrategyTally(awareRun)(id)
    {
      LookupIsTally(zeroCost, zeroRun, id);
      LookupIsTally(costAware, awareRun, id);
      DeltaRestores(StrategyTally(zeroRun)(id), StrategyTally(awareRun)(id));
    }
    ReportMembers(zeroCost, zeroRun);
    ReportMembers(costAware, awareRun);
    DeltasTelescope(ids, StrategyTally(awareRun), StrategyTally(zeroRun), DeltaOf(zeroCost, costAware));
    TotalsOverStrategies(zeroRun, ids);
    TotalsOverStrategies(awareRun, ids);
    DeltaRestores(TallyOf(zeroRun), TallyOf(awareRun));
  }

  lemma DeltaRestores(zeroCost: Tally, costAware: Tally)
    ensures Add(zeroCost, Sub(costAware, zeroCost)) == costAware
  {}
}
