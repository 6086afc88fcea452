/** The decision ledger: runner trace records are grouped into one flow per frame and strategy, and every flow gets its
    own metrics and evidence. */
module DecisionLedger {
  import opened Sequences

  datatype Stage =
    | FrameReceived | StrategyDecision | OrderIntentConversion | CostDecision | RiskDecision | ExecutionResult

  /** `detail` stands for the reason, message, time and metadata that are only copied. */
  datatype Record = Record(
    frameId: string, strategyId: Option<string>, stage: Stage, status: string, tradeAllowed: Option<bool>,
    approved: Option<bool>, brokerOrderStatus: string, filledPositive: bool, detail: string)

  /** `evidenceTrace`, when given, replaces the trace as the source of evidence. */
  datatype Flow = Flow(
    frameId: string, strategyId: Option<string>, trace: seq<Record>, evidenceTrace: Option<seq<Record>>)

  datatype FlowKey = FlowKey(frameId: string, strategyId: Option<string>)

  function KeyOf(f: Flow): FlowKey { FlowKey(f.frameId, f.strategyId) }

  function EvidenceTrace(f: Flow): seq<Record> {
    if f.evidenceTrace.Some? then f.evidenceTrace.value else f.trace
  }

  // ----- strategies of a frame -----

  function StrategiesIn(t: seq<Record>): seq<string> {
    if t == [] then []
    else
      var last := t[|t| - 1];
      StrategiesIn(t[..|t| - 1]) + if last.strategyId.Some? then [last.strategyId.value] else []
  }

  function StrategyIds(t: seq<Record>): seq<string> { FirstSeen(StrategiesIn(t)) }

  lemma {:induction false} StrategiesInExact(t: seq<Record>)
    ensures forall s :: s in StrategiesIn(t) <==> exists r | r in t :: r.strategyId == Some(s)
  {
    if t != [] {
      var init, last := t[..|t| - 1], t[|t| - 1];
      assert t == init + [last];
      StrategiesInExact(init);
    }
  }

  lemma StrategyIdsExact(t: seq<Record>)
    ensures Distinct(StrategyIds(t))
    ensures forall s :: s in StrategyIds(t) <==> exists r | r in t :: r.strategyId == Some(s)
  {
    FirstSeenExact(StrategiesIn(t));
    StrategiesInExact(t);
  }

  /** `collectStrategyIds`. */
  method CollectStrategyIds(t: seq<Record>) returns (ids: seq<string>)
    ensures ids == StrategyIds(t)
  {
    ids := [];
    for n := 0 to |t|
      invariant ids == StrategyIds(t[..n])
    {
      var prefix := t[..n + 1];
      assert prefix[..n] == t[..n];
      var s := t[n].strategyId;
      if s.Some? {
        assert StrategiesIn(prefix)[..|StrategiesIn(prefix)| - 1] == StrategiesIn(t[..n]);
        if s.value !in ids {
          ids := ids + [s.value];
        }
      } else {
        assert StrategiesIn(prefix) == StrategiesIn(t[..n]);
      }
    }
    assert t[..|t|] == t;
  }

  // ----- flows of one frame -----

  predicate Context(r: Record) { r.strategyId.None? && r.stage.FrameReceived? }

  predicate Ambiguous(r: Record) { r.strategyId.None? && !r.stage.FrameReceived? }

  predicate Held(r: Record) { r.stage.StrategyDecision? && r.status == "HOLD" }

  predicate CashRecord(r: Record) { r.stage.FrameReceived? || Held(r) }

  /** Stages after the strategy decision. */
  predicate Downstream(r: Record) { !r.stage.FrameReceived? && !r.stage.StrategyDecision? }

  /** Records of one strategy's flow; `single` when the frame knows no other strategy. */
  function BelongsTo(id: string, single: bool): Record -> bool {
    (r: Record) => r.strategyId == Some(id) || (r.strategyId.None? && (r.stage.FrameReceived? || single))
  }

  function StrategyFlow(frameId: string, t: seq<Record>, single: bool): string -> Flow {
    (id: string) => Flow(frameId, Some(id), Filter(t, BelongsTo(id, single)), None)
  }

  /** `shouldCreateCashHoldAggregate`: every strategy held, and nothing but holding happened. */
  predicate AllHeld(t: seq<Record>, ids: seq<string>) {
    && ids != []
    && (exists r | r in t :: r.stage.StrategyDecision?)
    && (forall id | id in ids :: exists r | r in t :: Held(r) && r.strategyId == Some(id))
    && (forall r | r in t && r.stage.StrategyDecision? :: r.status == "HOLD")
    && (forall r | r in t :: !Downstream(r))
  }

  function AmbiguousFlow(frameId: string, t: seq<Record>): seq<Flow> {
    if |StrategyIds(t)| > 1 && Filter(t, Ambiguous) != [] then
      [Flow(frameId, None, Filter(t, Context) + Filter(t, Ambiguous), None)]
    else []
  }

  function CashFlow(frameId: string, t: seq<Record>): seq<Flow> {
    if AllHeld(t, StrategyIds(t)) then [Flow(frameId, None, Filter(t, CashRecord), Some([]))] else []
  }

  function FrameFlows(frameId: string, t: seq<Record>): seq<Flow> {
    var ids := StrategyIds(t);
    if ids == [] then [Flow(frameId, None, t, None)]
    else Map(ids, StrategyFlow(frameId, t, |ids| == 1)) + AmbiguousFlow(frameId, t) + CashFlow(frameId, t)
  }

  /** `groupSingleFrameTrace`. */
  method GroupSingleFrame(frameId: string, t: seq<Record>) returns (flows: seq<Flow>)
    ensures flows == FrameFlows(frameId, t)
  {
    hide Filter, AllHeld, FirstSeen, StrategiesIn, Map;
    var ids := CollectStrategyIds(t);
    if ids == [] {
      return [Flow(frameId, None, t, None)];
    }
    var contexts, ambiguous := Filter(t, Context), Filter(t, Ambiguous);
    var single := |ids| == 1;
    flows := [];
    for n := 0 to |ids|
      invariant flows == Map(ids[..n], StrategyFlow(frameId, t, single))
    {
      assert ids[..n + 1] == ids[..n] + [ids[n]];
      flows := flows + [Flow(frameId, Some(ids[n]), Filter(t, BelongsTo(ids[n], single)), None)];
    }
    assert ids[..|ids|] == ids;
    if !single && |ambiguous| > 0 {
      flows := flows + [Flow(frameId, None, contexts + ambiguous, None)];
    }
    if AllHeld(t, ids) {
      flows := flows + [Flow(frameId, None, Filter(t, CashRecord), Some([]))];
    }
  }

  // ----- flows of the whole trace -----

  function FrameId(r: Record): string { r.frameId }

  function OfFrame(frameId: string): Record -> bool { (r: Record) => r.frameId == frameId }

  function FrameIds(trace: seq<Record>): seq<string> { FirstSeen(Map(trace, FrameId)) }

  function FlowsOf(trace: seq<Record>, frames: seq<string>): seq<Flow> {
    if frames == [] then []
    else FlowsOf(trace, frames[..|frames| - 1])
         + FrameFlows(frames[|frames| - 1], Filter(trace, OfFrame(frames[|frames| - 1])))
  }

  function Flows(trace: seq<Record>): seq<Flow> { FlowsOf(trace, FrameIds(trace)) }

  /** The groups hold, for every frame met so far, its records in order. */
  ghost predicate Grouped(seen: seq<Record>, groups: map<string, seq<Record>>, order: seq<string>) {
    && order == FrameIds(seen)
    && (forall f :: f in groups <==> f in order)
    && (forall f | f in groups :: groups[f] == Filter(seen, OfFrame(f)))
  }

  lemma FrameIdsStep(seen: seq<Record>, r: Record)
    ensures FrameIds(seen + [r]) == if r.frameId in FrameIds(seen) then FrameIds(seen) else FrameIds(seen) + [r.frameId]
    ensures r.frameId !in FrameIds(seen) ==> Filter(seen, OfFrame(r.frameId)) == []
  {
    hide Map, FirstSeen, Filter;
    assert Map(seen + [r], FrameId) == Map(seen, FrameId) + [r.frameId];
    FirstSeenStep(Map(seen, FrameId), r.frameId);
    FrameIdsExact(seen);
    if r.frameId !in FrameIds(seen) {
      FilterNone(seen, OfFrame(r.frameId));
    }
  }

  lemma GroupedStep(
      seen: seq<Record>, r: Record, groups: map<string, seq<Record>>, order: seq<string>,
      groups': map<string, seq<Record>>, order': seq<string>)
    requires Grouped(seen, groups, order)
    requires groups' == groups[r.frameId := if r.frameId in groups then groups[r.frameId] + [r] else [r]]
    requires order' == if r.frameId in groups then order else order + [r.frameId]
    ensures Grouped(seen + [r], groups', order')
  {
    hide FrameIds, Filter;
    FrameIdsStep(seen, r);
    forall f
      ensures Filter(seen + [r], OfFrame(f)) == Filter(seen, OfFrame(f)) + if r.frameId == f then [r] else []
    {
      assert (seen + [r])[..|seen|] == seen && (seen + [r])[..|seen| + 1] == seen + [r];
      FilterStep(seen + [r], |seen|, OfFrame(f));
    }
  }

  /** `groupTraceByFrameAndStrategy`. */
  method GroupTrace(trace: seq<Record>) returns (flows: seq<Flow>)
    ensures flows == Flows(trace)
  {
    hide FrameFlows, Filter, FrameIds, Grouped;
    var groups: map<string, seq<Record>>, order: seq<string> := map[], [];
    GroupedEmpty();
    for n := 0 to |trace|
      invariant Grouped(trace[..n], groups, order)
    {
      var r := trace[n];
      GroupedStep(trace[..n], r, groups, order,
                  groups[r.frameId := if r.frameId in groups then groups[r.frameId] + [r] else [r]],
                  if r.frameId in groups then order else order + [r.frameId]);
      assert trace[..n + 1] == trace[..n] + [r];
      if r.frameId !in groups {
        groups, order := groups[r.frameId := [r]], order + [r.frameId];
      } else {
        groups := groups[r.frameId := groups[r.frameId] + [r]];
      }
    }
    assert trace[..|trace|] == trace;
    flows := [];
    for n := 0 to |order|
      invariant flows == FlowsOf(trace, order[..n])
    {
      assert order[..n + 1][..n] == order[..n];
      GroupedAt(trace, groups, order, n);
      var frameFlows := GroupSingleFrame(order[n], groups[order[n]]);
      flows := flows + frameFlows;
    }
    assert order[..|order|] == order;
    GroupedOrder(trace, groups, order);
  }

  lemma GroupedEmpty()
    ensures Grouped([], map[], [])
  {}

  lemma GroupedAt(trace: seq<Record>, groups: map<string, seq<Record>>, order: seq<string>, n: nat)
    requires Grouped(trace, groups, order) && n < |order|
    ensures order[n] in groups && groups[order[n]] == Filter(trace, OfFrame(order[n]))
  {
    assert order[n] in order;
  }

  lemma GroupedOrder(trace: seq<Record>, groups: map<string, seq<Record>>, order: seq<string>)
    requires Grouped(trace, groups, order)
    ensures order == FrameIds(trace)
  {}

  // ----- conservation -----

  /** How often record `x` is counted over all flows, when flow `f` counts the records of `part(f)` that satisfy `p`. */
  ghost function Total(flows: seq<Flow>, part: Flow -> seq<Record>, p: Record -> bool, x: Record): nat {
    if flows == [] then 0
    else Total(flows[..|flows| - 1], part, p, x) + multiset(Filter(part(flows[|flows| - 1]), p))[x]
  }

  lemma {:induction false} TotalConcat(
      a: seq<Flow>, b: seq<Flow>, part: Flow -> seq<Record>, p: Record -> bool, x: Record)
    ensures Total(a + b, part, p, x) == Total(a, part, p, x) + Total(b, part, p, x)
  {
    hide Filter;
    if b == [] {
      assert a + b == a;
    } else {
      assert (a + b)[..|a + b| - 1] == a + b[..|b| - 1];
      TotalConcat(a, b[..|b| - 1], part, p, x);
    }
  }

  lemma TotalOne(f: Flow, part: Flow -> seq<Record>, p: Record -> bool, x: Record)
    ensures Total([f], part, p, x) == multiset(Filter(part(f), p))[x]
  {
    hide Filter;
    assert [f][..0] == [];
  }

  lemma TotalEmpty(part: Flow -> seq<Record>, p: Record -> bool, x: Record)
    ensures Total([], part, p, x) == 0
  {}

  lemma FilterTwiceCount(t: seq<Record>, q: Record -> bool, p: Record -> bool, x: Record)
    ensures multiset(Filter(Filter(t, q), p))[x] == if p(x) && q(x) then multiset(t)[x] else 0
  {
    FilterCount(Filter(t, q), p, x);
    FilterCount(t, q, x);
  }

  lemma StrategyFlowCount(frameId: string, t: seq<Record>, single: bool, id: string, p: Record -> bool, x: Record)
    requires p(x) && !x.stage.FrameReceived?
    ensures multiset(Filter(EvidenceTrace(StrategyFlow(frameId, t, single)(id)), p))[x]
         == if x.strategyId == Some(id) || (x.strategyId.None? && single) then multiset(t)[x] else 0
  {
    hide Filter;
    FilterTwiceCount(t, BelongsTo(id, single), p, x);
  }

  /** How often the strategy flows of a frame take up `x`; with a single strategy they take up records without one. */
  lemma {:induction false} StrategyFlowsTotal(
      frameId: string, t: seq<Record>, ids: seq<string>, single: bool, p: Record -> bool, x: Record)
    requires Distinct(ids) && p(x) && !x.stage.FrameReceived? && (single ==> |ids| <= 1)
    ensures Total(Map(ids, StrategyFlow(frameId, t, single)), EvidenceTrace, p, x)
         == if x.strategyId.Some? then (if x.strategyId.value in ids then multiset(t)[x] else 0)
            else if single && |ids| == 1 then multiset(t)[x] else 0
  {
    hide Filter, Map, StrategyFlow, EvidenceTrace, Total, Distinct;
    var flow := StrategyFlow(frameId, t, single);
    if ids == [] {
      assert Map(ids, flow) == [];
      TotalEmpty(EvidenceTrace, p, x);
    } else {
      var init, last := ids[..|ids| - 1], ids[|ids| - 1];
      DistinctLast(ids);
      StrategyFlowsTotal(frameId, t, init, single, p, x);
      MapLast(ids, flow);
      TotalConcat(Map(init, flow), [flow(last)], EvidenceTrace, p, x);
      TotalOne(flow(last), EvidenceTrace, p, x);
      StrategyFlowCount(frameId, t, single, last, p, x);
    }
  }

  /** Every record other than the context is taken up by exactly one flow of its frame, as evidence. */
  lemma FrameConserves(frameId: string, t: seq<Record>, p: Record -> bool, x: Record)
    requires p(x) && !x.stage.FrameReceived?
    ensures Total(FrameFlows(frameId, t), EvidenceTrace, p, x) == multiset(t)[x]
  {
    hide Filter, Map, StrategyIds, Distinct;
    var ids := StrategyIds(t);
    StrategyIdsExact(t);
    FilterCount(t, p, x);
    if ids == [] {
      TotalOne(Flow(frameId, None, t, None), EvidenceTrace, p, x);
    } else {
      var strategies := Map(ids, StrategyFlow(frameId, t, |ids| == 1));
      StrategyFlowsTotal(frameId, t, ids, |ids| == 1, p, x);
      AmbiguousTotal(frameId, t, p, x);
      CashTotal(frameId, t, p, x);
      StrategyKnown(t, x);
      hide Total, AmbiguousFlow, CashFlow, StrategyFlow, EvidenceTrace;
      TotalConcat(strategies, AmbiguousFlow(frameId, t), EvidenceTrace, p, x);
      TotalConcat(strategies + AmbiguousFlow(frameId, t), CashFlow(frameId, t), EvidenceTrace, p, x);
    }
  }

  lemma StrategyKnown(t: seq<Record>, x: Record)
    ensures x.strategyId.Some? && multiset(t)[x] > 0 ==> x.strategyId.value in StrategyIds(t)
  {
    hide StrategyIds;
    StrategyIdsExact(t);
    assert multiset(t)[x] > 0 ==> x in t;
  }

  lemma AmbiguousTotal(frameId: string, t: seq<Record>, p: Record -> bool, x: Record)
    requires p(x) && !x.stage.FrameReceived?
    ensures Total(AmbiguousFlow(frameId, t), EvidenceTrace, p, x)
         == if x.strategyId.None? && |StrategyIds(t)| > 1 then multiset(t)[x] else 0
  {
    hide Filter, StrategyIds;
    FilterCount(t, Ambiguous, x);
    FilterCount(t, Context, x);
    FilterCount(Filter(t, Context) + Filter(t, Ambiguous), p, x);
    TotalOne(Flow(frameId, None, Filter(t, Context) + Filter(t, Ambiguous), None), EvidenceTrace, p, x);
  }

  lemma CashTotal(frameId: string, t: seq<Record>, p: Record -> bool, x: Record)
    ensures Total(CashFlow(frameId, t), EvidenceTrace, p, x) == 0
  {
    hide Filter, AllHeld, StrategyIds;
    FilterEmpty(p);
    TotalOne(Flow(frameId, None, Filter(t, CashRecord), Some([])), EvidenceTrace, p, x);
  }

  lemma {:induction false} FlowsTotal(trace: seq<Record>, frames: seq<string>, p: Record -> bool, x: Record)
    requires Distinct(frames) && p(x) && !x.stage.FrameReceived?
    ensures Total(FlowsOf(trace, frames), EvidenceTrace, p, x) == if x.frameId in frames then multiset(trace)[x] else 0
  {
    hide FrameFlows, Filter;
    if frames != [] {
      var init, last := frames[..|frames| - 1], frames[|frames| - 1];
      assert frames == init + [last];
      FlowsTotal(trace, init, p, x);
      var t := Filter(trace, OfFrame(last));
      FrameConserves(last, t, p, x);
      FilterCount(trace, OfFrame(last), x);
      TotalConcat(FlowsOf(trace, init), FrameFlows(last, t), EvidenceTrace, p, x);
      assert last !in init;
    }
  }

  lemma FrameIdsExact(trace: seq<Record>)
    ensures Distinct(FrameIds(trace))
    ensures forall r | r in trace :: r.frameId in FrameIds(trace)
  {
    FirstSeenExact(Map(trace, FrameId));
    forall r | r in trace
      ensures r.frameId in FrameIds(trace)
    {
      var i :| 0 <= i < |trace| && trace[i] == r;
      assert Map(trace, FrameId)[i] == r.frameId;
    }
  }

  lemma RecordConserved(trace: seq<Record>, p: Record -> bool, x: Record)
    requires p(x) && !x.stage.FrameReceived?
    ensures Total(Flows(trace), EvidenceTrace, p, x) == multiset(trace)[x]
  {
    hide FlowsOf, Total, FrameIds;
    FrameIdsExact(trace);
    FlowsTotal(trace, FrameIds(trace), p, x);
    assert multiset(trace)[x] > 0 ==> x in trace;
  }

  // ----- evidence -----

  datatype EvidenceKind =
    | DecisionEvidence | OrderIntent | DiscardReason | CostBreakdown | RiskOutcome | ExecutionOutcome

  datatype Evidence = Evidence(kind: EvidenceKind, record: Record, index: nat)

  datatype EvidencePosition = EvidencePosition(stage: Stage, index: nat)

  /** `mapTraceStageToEvidenceKind`; a received frame is no evidence. */
  function KindOf(r: Record): Option<EvidenceKind> {
    match r.stage
    case StrategyDecision => Some(DecisionEvidence)
    case OrderIntentConversion =>
      Some(if r.status == "REJECTED" || r.status == "DISCARDED" then DiscardReason else OrderIntent)
    case CostDecision => Some(CostBreakdown)
    case RiskDecision => Some(RiskOutcome)
    case ExecutionResult => Some(ExecutionOutcome)
    case FrameReceived => None
  }

  predicate Bearing(r: Record) { KindOf(r).Some? }

  function AtStage(stage: Stage): Record -> bool { (r: Record) => r.stage == stage }

  function EvidenceOf(t: seq<Record>): seq<Evidence> {
    if t == [] then []
    else
      var init, last := t[..|t| - 1], t[|t| - 1];
      EvidenceOf(init)
      + if Bearing(last) then [Evidence(KindOf(last).value, last, |Filter(init, AtStage(last.stage))|)] else []
  }

  /** The evidence loop of a flow: a counter per stage numbers the records of that stage. */
  method BuildEvidence(t: seq<Record>) returns (items: seq<Evidence>)
    ensures items == EvidenceOf(t)
  {
    hide Filter;
    var counts: map<Stage, nat> := map[];
    items := [];
    forall s { FilterEmpty(AtStage(s)); }
    assert t[..0] == [];
    for n := 0 to |t|
      invariant items == EvidenceOf(t[..n])
      invariant forall s :: (if s in counts then counts[s] else 0) == |Filter(t[..n], AtStage(s))|
    {
      var r := t[n];
      var index := if r.stage in counts then counts[r.stage] else 0;
      forall s
        ensures |Filter(t[..n + 1], AtStage(s))| == |Filter(t[..n], AtStage(s))| + if r.stage == s then 1 else 0
      {
        FilterStep(t, n, AtStage(s));
      }
      counts := counts[r.stage := index + 1];
      assert t[..n + 1][..n] == t[..n];
      var kind := KindOf(r);
      if kind.Some? {
        items := items + [Evidence(kind.value, r, index)];
      }
    }
    assert t[..|t|] == t;
  }

  function RecordOf(e: Evidence): Record { e.record }

  function PositionOf(e: Evidence): EvidencePosition { EvidencePosition(e.record.stage, e.index) }

  /** One item for each evidence-bearing record of the flow, in order. */
  lemma {:induction false} EvidenceRecords(t: seq<Record>)
    ensures Map(EvidenceOf(t), RecordOf) == Filter(t, Bearing)
  {
    if t == [] {
      FilterEmpty<Record>(Bearing);
    } else {
      var n := |t| - 1;
      var init, last := t[..n], t[n];
      EvidenceRecords(init);
      assert t[..n + 1] == t;
      FilterStep(t, n, Bearing);
      hide Filter, Map;
      MapConcat(EvidenceOf(init), EvidenceOf(t)[|EvidenceOf(init)|..], RecordOf);
    }
  }

  lemma EvidenceStep(t: seq<Record>)
    requires t != []
    ensures var init, last := t[..|t| - 1], t[|t| - 1];
            EvidenceOf(t) == EvidenceOf(init) + (
              if Bearing(last) then [Evidence(KindOf(last).value, last, |Filter(init, AtStage(last.stage))|)] else [])
  {}

  /** Indexes of a stage stay below the number of its records. */
  lemma {:induction false} EvidenceIndexBelow(t: seq<Record>)
    ensures forall e | e in EvidenceOf(t) :: e.index < |Filter(t, AtStage(e.record.stage))|
  {
    if t != [] {
      var n := |t| - 1;
      EvidenceIndexBelow(t[..n]);
      EvidenceStep(t);
      assert t[..n + 1] == t;
      hide Filter, EvidenceOf;
      forall e | e in EvidenceOf(t)
        ensures e.index < |Filter(t, AtStage(e.record.stage))|
      {
        FilterStep(t, n, AtStage(e.record.stage));
      }
    }
  }

  /** Within a flow, (stage, occurrence index) identifies an evidence item. */
  lemma {:induction false} EvidencePositionsDistinct(t: seq<Record>)
    ensures Distinct(Map(EvidenceOf(t), PositionOf))
  {
    if t != [] {
      var init, last := t[..|t| - 1], t[|t| - 1];
      EvidencePositionsDistinct(init);
      EvidenceIndexBelow(init);
      EvidenceStep(t);
      hide Filter, EvidenceOf, Distinct, Map;
      if Bearing(last) {
        MapLast(EvidenceOf(t), PositionOf);
        var before := Map(EvidenceOf(init), PositionOf);
        var position := EvidencePosition(last.stage, |Filter(init, AtStage(last.stage))|);
        forall i | 0 <= i < |before|
          ensures before[i] != position
        {
          assert EvidenceOf(init)[i] in EvidenceOf(init);
        }
        DistinctAppend(before, position);
      }
    }
  }

  function FlowEvidence(f: Flow): seq<Evidence> { EvidenceOf(EvidenceTrace(f)) }

  ghost function AllEvidence(flows: seq<Flow>): seq<Evidence> {
    if flows == [] then [] else AllEvidence(flows[..|flows| - 1]) + FlowEvidence(flows[|flows| - 1])
  }

  lemma {:induction false} AllEvidenceTotal(flows: seq<Flow>, x: Record)
    ensures multiset(Map(AllEvidence(flows), RecordOf))[x] == Total(flows, EvidenceTrace, Bearing, x)
  {
    hide Filter, Map;
    if flows == [] {
      assert Map(AllEvidence(flows), RecordOf) == [];
    } else {
      var init, last := flows[..|flows| - 1], flows[|flows| - 1];
      AllEvidenceTotal(init, x);
      MapConcat(AllEvidence(init), FlowEvidence(last), RecordOf);
      EvidenceRecords(EvidenceTrace(last));
    }
  }

  /** Across all flows, the evidence items are made from the evidence-bearing records of the trace, each exactly
      once: none is lost, and the duplicated context and the cash aggregate add none. */
  lemma EvidenceExactlyOnce(trace: seq<Record>)
    ensures multiset(Map(AllEvidence(Flows(trace)), RecordOf)) == multiset(Filter(trace, Bearing))
  {
    hide Filter, Flows, AllEvidence, Map, Total;
    forall x
      ensures multiset(Map(AllEvidence(Flows(trace)), RecordOf))[x] == multiset(Filter(trace, Bearing))[x]
    {
      AllEvidenceTotal(Flows(trace), x);
      FilterCount(trace, Bearing, x);
      if Bearing(x) {
        RecordConserved(trace, Bearing, x);
      } else {
        TotalOutside(Flows(trace), EvidenceTrace, Bearing, x);
      }
    }
  }

  lemma {:induction false} TotalOutside(flows: seq<Flow>, part: Flow -> seq<Record>, p: Record -> bool, x: Record)
    requires !p(x)
    ensures Total(flows, part, p, x) == 0
  {
    if flows != [] {
      TotalOutside(flows[..|flows| - 1], part, p, x);
      FilterCount(part(flows[|flows| - 1]), p, x);
    }
  }

  // ----- metrics -----

  datatype Metric = Metric(
    costRejected: nat, riskRejected: nat, executionRejected: nat, ordersSubmitted: nat, fills: nat)

  predicate CostRejected(r: Record) {
    r.stage.CostDecision? && (r.tradeAllowed == Some(false) || r.status == "REJECT" || r.status == "REJECTED")
  }

  predicate RiskRejected(r: Record) {
    r.stage.RiskDecision? && (r.approved == Some(false) || r.status == "FAIL" || r.status == "REJECTED")
  }

  predicate ExecutionRejected(r: Record) {
    r.stage.ExecutionResult? && (r.status == "REJECTED" || r.brokerOrderStatus == "REJECTED")
  }

  predicate OrderSubmitted(r: Record) { r.stage.ExecutionResult? && (r.status == "SUBMITTED" || r.status == "FILLED") }

  predicate OrderFilled(r: Record) { OrderSubmitted(r) && r.filledPositive }

  function Count(t: seq<Record>, p: Record -> bool): nat { |Filter(t, p)| }

  function MetricOf(t: seq<Record>): Metric {
    Metric(Count(t, CostRejected), Count(t, RiskRejected), Count(t, ExecutionRejected), Count(t, OrderSubmitted),
           Count(t, OrderFilled))
  }

  lemma CountStep(t: seq<Record>, n: nat, p: Record -> bool)
    requires n < |t|
    ensures Count(t[..n + 1], p) == Count(t[..n], p) + if p(t[n]) then 1 else 0
  {
    FilterStep(t, n, p);
  }

  /** `computeGroupMetric`: one pass over the flow's own trace. */
  method ComputeGroupMetric(t: seq<Record>) returns (m: Metric)
    ensures m == MetricOf(t)
  {
    m := Metric(0, 0, 0, 0, 0);
    for n := 0 to |t|
      invariant m == MetricOf(t[..n])
    {
      hide Count;
      CountStep(t, n, CostRejected);
      CountStep(t, n, RiskRejected);
      CountStep(t, n, ExecutionRejected);
      CountStep(t, n, OrderSubmitted);
      CountStep(t, n, OrderFilled);
      var r := t[n];
      match r.stage
      case CostDecision =>
        if CostRejected(r) {
          m := m.(costRejected := m.costRejected + 1);
        }
      case RiskDecision =>
        if RiskRejected(r) {
          m := m.(riskRejected := m.riskRejected + 1);
        }
      case ExecutionResult =>
        if ExecutionRejected(r) {
          m := m.(executionRejected := m.executionRejected + 1);
        }
        if r.status == "SUBMITTED" || r.status == "FILLED" {
          m := m.(ordersSubmitted := m.ordersSubmitted + 1);
          if r.filledPositive {
            m := m.(fills := m.fills + 1);
          }
        }
      case _ =>
    }
    assert t[..|t|] == t;
  }

  function Add(a: Metric, b: Metric): Metric {
    Metric(a.costRejected + b.costRejected, a.riskRejected + b.riskRejected, a.executionRejected + b.executionRejected,
           a.ordersSubmitted + b.ordersSubmitted, a.fills + b.fills)
  }

  ghost function SumMetrics(flows: seq<Flow>): Metric {
    if flows == [] then Metric(0, 0, 0, 0, 0)
    else Add(SumMetrics(flows[..|flows| - 1]), MetricOf(flows[|flows| - 1].trace))
  }

  ghost function SumCounts(flows: seq<Flow>, p: Record -> bool): nat {
    if flows == [] then 0 else SumCounts(flows[..|flows| - 1], p) + Count(flows[|flows| - 1].trace, p)
  }

  ghost function Counted(flows: seq<Flow>, p: Record -> bool): (r: seq<Record>)
    ensures |r| == SumCounts(flows, p)
  {
    if flows == [] then [] else Counted(flows[..|flows| - 1], p) + Filter(flows[|flows| - 1].trace, p)
  }

  /** The cash aggregate is the only flow whose evidence differs from its trace, and it holds nothing downstream. */
  ghost predicate AgreesDownstream(f: Flow) {
    f.evidenceTrace == None || (f.evidenceTrace == Some([]) && forall r | r in f.trace :: !Downstream(r))
  }

  lemma {:induction false} CountedTotal(flows: seq<Flow>, p: Record -> bool, x: Record)
    requires forall f | f in flows :: AgreesDownstream(f)
    requires p(x) ==> Downstream(x)
    ensures multiset(Counted(flows, p))[x] == Total(flows, EvidenceTrace, p, x)
  {
    hide Filter;
    if flows != [] {
      var init, last := flows[..|flows| - 1], flows[|flows| - 1];
      assert last in flows && forall f | f in init :: f in flows;
      CountedTotal(init, p, x);
      FilterCount(last.trace, p, x);
      FilterCount(EvidenceTrace(last), p, x);
      assert multiset(last.trace)[x] > 0 ==> x in last.trace;
    }
  }

  lemma FrameAgrees(frameId: string, t: seq<Record>)
    ensures forall f | f in FrameFlows(frameId, t) :: AgreesDownstream(f)
  {
    FilterMembers(t, CashRecord);
    hide Filter, AllHeld, StrategyIds, Map;
  }

  lemma {:induction false} FlowsAgree(trace: seq<Record>, frames: seq<string>)
    ensures forall f | f in FlowsOf(trace, frames) :: AgreesDownstream(f)
  {
    hide FrameFlows, AgreesDownstream, Filter;
    if frames != [] {
      FlowsAgree(trace, frames[..|frames| - 1]);
      FrameAgrees(frames[|frames| - 1], Filter(trace, OfFrame(frames[|frames| - 1])));
    }
  }

  /** Whatever downstream condition is counted flow by flow, the counts add up to the count over the whole trace. */
  lemma DownstreamCountsConserved(trace: seq<Record>, p: Record -> bool)
    requires forall r | p(r) :: Downstream(r)
    ensures SumCounts(Flows(trace), p) == Count(trace, p)
  {
    hide Filter, Flows, Counted, Total, SumCounts, AgreesDownstream;
    FlowsAgree(trace, FrameIds(trace));
    FlowsAre(trace);
    forall x
      ensures multiset(Counted(Flows(trace), p))[x] == multiset(Filter(trace, p))[x]
    {
      CountedTotal(Flows(trace), p, x);
      FilterCount(trace, p, x);
      if p(x) {
        RecordConserved(trace, p, x);
      } else {
        TotalOutside(Flows(trace), EvidenceTrace, p, x);
      }
    }
    SameElements(Counted(Flows(trace), p), Filter(trace, p));
  }

  lemma FlowsAre(trace: seq<Record>)
    ensures Flows(trace) == FlowsOf(trace, FrameIds(trace))
  {}

  lemma {:induction false} SumMetricsIs(flows: seq<Flow>)
    ensures SumMetrics(flows)
         == Metric(SumCounts(flows, CostRejected), SumCounts(flows, RiskRejected), SumCounts(flows, ExecutionRejected),
                   SumCounts(flows, OrderSubmitted), SumCounts(flows, OrderFilled))
  {
    if flows != [] {
      SumMetricsIs(flows[..|flows| - 1]);
    }
  }

  /** The per-flow metrics sum to the metrics of the whole trace, field by field. */
  lemma MetricsConserved(trace: seq<Record>)
    ensures SumMetrics(Flows(trace)) == MetricOf(trace)
  {
    hide Flows, SumMetrics, SumCounts, Count;
    SumMetricsIs(Flows(trace));
    DownstreamCountsConserved(trace, CostRejected);
    DownstreamCountsConserved(trace, RiskRejected);
    DownstreamCountsConserved(trace, ExecutionRejected);
    DownstreamCountsConserved(trace, OrderSubmitted);
    DownstreamCountsConserved(trace, OrderFilled);
  }

  // ----- flow keys -----

  /** A frame of several strategies in which a record without strategy only held, as did every strategy. */
  ghost predicate TwoStrategylessFlows(t: seq<Record>) {
    |StrategyIds(t)| > 1 && Filter(t, Ambiguous) != [] && AllHeld(t, StrategyIds(t))
  }

  lemma StrategyKeys(frameId: string, t: seq<Record>, ids: seq<string>, single: bool)
    requires Distinct(ids)
    ensures var keys := Map(Map(ids, StrategyFlow(frameId, t, single)), KeyOf);
            Distinct(keys) && forall k | k in keys :: k.frameId == frameId && k.strategyId.Some?
  {
    hide Filter;
  }

  lemma FrameKeys(frameId: string, t: seq<Record>)
    ensures Distinct(Map(FrameFlows(frameId, t), KeyOf)) <==> !TwoStrategylessFlows(t)
    ensures forall k | k in Map(FrameFlows(frameId, t), KeyOf) :: k.frameId == frameId
  {
    var ids := StrategyIds(t);
    StrategyIdsExact(t);
    hide Filter, AllHeld, StrategyIds, Map, StrategyFlow;
    if ids != [] {
      var strategies := Map(ids, StrategyFlow(frameId, t, |ids| == 1));
      StrategyKeys(frameId, t, ids, |ids| == 1);
      MapConcat(strategies + AmbiguousFlow(frameId, t), CashFlow(frameId, t), KeyOf);
      MapConcat(strategies, AmbiguousFlow(frameId, t), KeyOf);
      NoneKeys(Map(strategies, KeyOf), Map(AmbiguousFlow(frameId, t), KeyOf), Map(CashFlow(frameId, t), KeyOf),
               frameId);
    }
  }

  lemma NoneKeys(keys: seq<FlowKey>, a: seq<FlowKey>, b: seq<FlowKey>, frameId: string)
    requires Distinct(keys) && forall k | k in keys :: k.frameId == frameId && k.strategyId.Some?
    requires a == [] || a == [FlowKey(frameId, None)]
    requires b == [] || b == [FlowKey(frameId, None)]
    ensures Distinct(keys + a + b) <==> a == [] || b == []
    ensures forall k | k in keys + a + b :: k.frameId == frameId
  {
    var all := keys + a + b;
    assert forall i | 0 <= i < |keys| :: keys[i] in keys;
    if a != [] && b != [] {
      assert all[|keys|] == all[|keys| + 1];
    }
  }

  lemma {:induction false} FlowsOfKeys(trace: seq<Record>, frames: seq<string>)
    requires Distinct(frames)
    ensures Distinct(Map(FlowsOf(trace, frames), KeyOf)) <==>
              forall f | f in frames :: !TwoStrategylessFlows(Filter(trace, OfFrame(f)))
    ensures forall k | k in Map(FlowsOf(trace, frames), KeyOf) :: k.frameId in frames
  {
    hide FrameFlows, Filter, TwoStrategylessFlows, Map;
    if frames == [] {
      assert Map(FlowsOf(trace, frames), KeyOf) == [];
    } else {
      var init, last := frames[..|frames| - 1], frames[|frames| - 1];
      assert frames == init + [last] && last !in init;
      FlowsOfKeys(trace, init);
      var t := Filter(trace, OfFrame(last));
      FrameKeys(last, t);
      MapConcat(FlowsOf(trace, init), FrameFlows(last, t), KeyOf);
      hide Distinct;
      DistinctConcat(Map(FlowsOf(trace, init), KeyOf), Map(FrameFlows(last, t), KeyOf));
    }
  }

  /** Flow keys are distinct if and only if no frame gets both the strategy-less record flow and the cash aggregate. */
  lemma FlowKeysDistinctIff(trace: seq<Record>)
    ensures Distinct(Map(Flows(trace), KeyOf)) <==>
              forall f | f in FrameIds(trace) :: !TwoStrategylessFlows(Filter(trace, OfFrame(f)))
  {
    hide FrameIds, FlowsOf, Filter, TwoStrategylessFlows, Map;
    FrameIdsExact(trace);
    FlowsOfKeys(trace, FrameIds(trace));
  }

  function HoldRecord(frameId: string, strategyId: Option<string>): Record {
    Record(frameId, strategyId, StrategyDecision, "HOLD", None, None, "", false, "")
  }

  /** Two strategies that hold and a hold without strategy: the frame has two flows with the same key. */
  lemma SharedKeyExample(f: string, a: string, b: string)
    requires a != b
    ensures var t := [HoldRecord(f, Some(a)), HoldRecord(f, Some(b)), HoldRecord(f, None)];
            TwoStrategylessFlows(t) && !Distinct(Map(FrameFlows(f, t), KeyOf))
  {
    hide Filter, StrategyIds, FrameFlows, Map, Distinct;
    var t := [HoldRecord(f, Some(a)), HoldRecord(f, Some(b)), HoldRecord(f, None)];
    assert t[0] in t && t[1] in t && t[2] in t;
    StrategyIdsExact(t);
    FilterMembers(t, Ambiguous);
    TwoMembers(StrategyIds(t), a, b);
    FrameKeys(f, t);
  }

  // ----- dedupe keys -----

  function StrategyText(strategyId: Option<string>): string {
    if strategyId.Some? then strategyId.value else "no-strategy"
  }

  /** `buildFrameDedupeKey`. */
  function DedupeKey(prefix: string, frameId: string, strategyId: Option<string>): string {
    prefix + (":frame:" + (frameId + (":strategy:" + StrategyText(strategyId))))
  }

  lemma CancelLeft(a: string, b: string, c: string)
    ensures a + b == a + c <==> b == c
  {
    assert (a + b)[|a|..] == b && (a + c)[|a|..] == c;
  }

  lemma ColonSplit(f: string, g: string, x: string, y: string)
    requires ':' !in f && ':' !in g && f + (":" + x) == g + (":" + y)
    ensures f == g && x == y
  {
    var s := f + (":" + x);
    assert s[|f|] == ':' && s[|g|] == ':';
    assert forall i | 0 <= i < |f| :: s[i] == f[i] && f[i] in f;
    assert forall i | 0 <= i < |g| :: s[i] == g[i] && g[i] in g;
    assert |f| == |g|;
    assert f == s[..|f|] == g;
    assert x == s[|f| + 1..] == y;
  }

  /** For frame ids without a colon, two flows of one run share a dedupe key exactly when they share frame and
      strategy, or differ only in a strategy that is really called "no-strategy". */
  lemma DedupeKeyExact(prefix: string, f: string, g: string, a: Option<string>, b: Option<string>)
    requires ':' !in f && ':' !in g
    ensures DedupeKey(prefix, f, a) == DedupeKey(prefix, g, b) <==>
              f == g && (a == b || {a, b} == {None, Some("no-strategy")})
  {
    var x, y := StrategyText(a), StrategyText(b);
    assert ":strategy:" + x == ":" + ("strategy:" + x) && ":strategy:" + y == ":" + ("strategy:" + y);
    CancelLeft(prefix, ":frame:" + (f + (":strategy:" + x)), ":frame:" + (g + (":strategy:" + y)));
    CancelLeft(":frame:", f + (":strategy:" + x), g + (":strategy:" + y));
    CancelLeft("strategy:", x, y);
    if f + (":strategy:" + x) == g + (":strategy:" + y) {
      ColonSplit(f, g, "strategy:" + x, "strategy:" + y);
    }
  }

  /** What a dedupe key says before the strategy. */
  function KeyHead(frameId: string): string { frameId + ":strategy:" }

  lemma KeyParts(prefix: string, frameId: string, strategyId: Option<string>)
    ensures DedupeKey(prefix, frameId, strategyId) == prefix + ":frame:" + (KeyHead(frameId) + StrategyText(strategyId))
  {}

  lemma CommonPrefix(a: string, b: string, x: string, y: string)
    requires a + x == b + y && |a| <= |b|
    ensures a <= b
  {
    assert a == (a + x)[..|a|] && b[..|a|] == (b + y)[..|a|];
  }

  /** In general two frames have strategies for which their keys coincide exactly when the key head of one is a prefix
      of the other's; such frame ids contain colons. */
  lemma FramesCollideIff(prefix: string, f: string, g: string)
    ensures (exists a, b :: DedupeKey(prefix, f, a) == DedupeKey(prefix, g, b)) <==>
              KeyHead(f) <= KeyHead(g) || KeyHead(g) <= KeyHead(f)
  {
    hide DedupeKey, KeyHead;
    if exists a, b :: DedupeKey(prefix, f, a) == DedupeKey(prefix, g, b) {
      var a, b :| DedupeKey(prefix, f, a) == DedupeKey(prefix, g, b);
      KeyParts(prefix, f, a);
      KeyParts(prefix, g, b);
      CancelLeft(prefix + ":frame:", KeyHead(f) + StrategyText(a), KeyHead(g) + StrategyText(b));
      if |KeyHead(f)| <= |KeyHead(g)| {
        CommonPrefix(KeyHead(f), KeyHead(g), StrategyText(a), StrategyText(b));
      } else {
        CommonPrefix(KeyHead(g), KeyHead(f), StrategyText(b), StrategyText(a));
      }
    }
    if KeyHead(f) <= KeyHead(g) {
      PrefixCollides(prefix, f, g);
    }
    if KeyHead(g) <= KeyHead(f) {
      PrefixCollides(prefix, g, f);
    }
  }

  lemma PrefixCollides(prefix: string, f: string, g: string)
    requires KeyHead(f) <= KeyHead(g)
    ensures DedupeKey(prefix, f, Some(KeyHead(g)[|KeyHead(f)|..])) == DedupeKey(prefix, g, Some(""))
  {
    hide DedupeKey, KeyHead;
    KeyParts(prefix, f, Some(KeyHead(g)[|KeyHead(f)|..]));
    KeyParts(prefix, g, Some(""));
    assert KeyHead(g) + "" == KeyHead(f) + KeyHead(g)[|KeyHead(f)|..];
  }

  /** Frame "x" with strategy "y:strategy:z" and frame "x:strategy:y" with strategy "z": different flows, one key. */
  lemma FramesCollideExample(prefix: string)
    ensures DedupeKey(prefix, "x", Some("y:strategy:z")) == DedupeKey(prefix, "x:strategy:y", Some("z"))
  {
    hide DedupeKey;
    KeyParts(prefix, "x", Some("y:strategy:z"));
    KeyParts(prefix, "x:strategy:y", Some("z"));
    assert KeyHead("x") + "y:strategy:z" == KeyHead("x:strategy:y") + "z";
  }
}
