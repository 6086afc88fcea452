/** What the flows, the evidence and the metrics of the decision ledger are made of, record by record. */
module LedgerMeaning {
  import opened Sequences
  import opened DecisionLedger

  // ----- flows -----

  ghost predicate Names(t: seq<Record>, id: string) { exists r | r in t :: r.strategyId == Some(id) }

  ghost predicate NamesOnly(t: seq<Record>, id: string) { forall other | Names(t, other) :: other == id }

  lemma StrategiesNamed(t: seq<Record>)
    ensures forall id :: id in StrategyIds(t) <==> Names(t, id)
    ensures StrategyIds(t) == [] <==> forall r | r in t :: r.strategyId.None?
    ensures |StrategyIds(t)| > 1 <==> exists a, b | Names(t, a) && Names(t, b) :: a != b
  {
    hide StrategyIds;
    var ids := StrategyIds(t);
    StrategyIdsExact(t);
    if |ids| > 1 {
      assert ids[0] in ids && ids[1] in ids && Names(t, ids[0]) && Names(t, ids[1]) && ids[0] != ids[1];
    }
    if a, b :| Names(t, a) && Names(t, b) && a != b {
      TwoMembers(ids, a, b);
    }
    if r :| r in t && r.strategyId.Some? {
      assert r.strategyId.value in ids;
    } else if ids != [] {
      assert ids[0] in ids;
    }
  }

  /** The flows of a frame are strategy flows, the flow without strategy and the cash aggregate. */
  lemma FrameFlowsSplit(frameId: string, t: seq<Record>, f: Flow)
    ensures f in FrameFlows(frameId, t) <==>
              var ids := StrategyIds(t);
              if ids == [] then f == Flow(frameId, None, t, None)
              else || (exists id | id in ids :: StrategyFlow(frameId, t, |ids| == 1)(id) == f)
                   || f in AmbiguousFlow(frameId, t) || f in CashFlow(frameId, t)
  {
    hide Filter, AllHeld, StrategyIds, Map, AmbiguousFlow, CashFlow, StrategyFlow;
    MapMembers(StrategyIds(t), StrategyFlow(frameId, t, |StrategyIds(t)| == 1));
  }

  lemma NotStrategyFlow(frameId: string, t: seq<Record>, f: Flow)
    requires f in AmbiguousFlow(frameId, t) || f in CashFlow(frameId, t)
    ensures f.strategyId.None?
  {
    hide Filter, AllHeld, StrategyIds;
  }

  /** A frame has a flow of a strategy exactly when a record names it. The flow takes up that strategy's records and the
      received-frame records without strategy; and, when the frame names no other strategy, every record without
      one. */
  lemma StrategyFlowExact(frameId: string, t: seq<Record>, id: string)
    ensures (exists f | f in FrameFlows(frameId, t) :: f.strategyId == Some(id)) <==> Names(t, id)
    ensures forall f | f in FrameFlows(frameId, t) && f.strategyId == Some(id) ::
              && f.frameId == frameId && f.evidenceTrace.None?
              && forall r ::
                   multiset(f.trace)[r]
                   == if || r.strategyId == Some(id)
                         || (r.strategyId == None && (r.stage == FrameReceived || NamesOnly(t, id)))
                      then multiset(t)[r] else 0
  {
    hide Filter, StrategyIds, FrameFlows, AmbiguousFlow, CashFlow, Names, NamesOnly;
    var ids := StrategyIds(t);
    StrategiesNamed(t);
    if id in ids {
      FrameFlowsSplit(frameId, t, StrategyFlow(frameId, t, |ids| == 1)(id));
    }
    forall f | f in FrameFlows(frameId, t) && f.strategyId == Some(id)
      ensures id in ids && f == StrategyFlow(frameId, t, |ids| == 1)(id)
    {
      FrameFlowsSplit(frameId, t, f);
      if f in AmbiguousFlow(frameId, t) || f in CashFlow(frameId, t) {
        NotStrategyFlow(frameId, t, f);
      }
    }
    if id in ids {
      OnlyStrategy(t, id);
      forall r
        ensures multiset(StrategyFlow(frameId, t, |ids| == 1)(id).trace)[r]
             == if r.strategyId == Some(id) || (r.strategyId == None && (r.stage == FrameReceived || NamesOnly(t, id)))
                then multiset(t)[r] else 0
      {
        FilterCount(t, BelongsTo(id, |ids| == 1), r);
      }
    }
  }

  lemma OnlyStrategy(t: seq<Record>, id: string)
    requires id in StrategyIds(t)
    ensures |StrategyIds(t)| == 1 <==> NamesOnly(t, id)
  {
    hide StrategyIds, Names;
    StrategiesNamed(t);
  }

  /** A frame has a flow without strategy that bears evidence exactly when no record names a strategy, or several are
      named and a record past the received frame names none. It takes up exactly the records without strategy. */
  lemma StrategylessFlowExact(frameId: string, t: seq<Record>)
    ensures (exists f | f in FrameFlows(frameId, t) :: f.strategyId.None? && f.evidenceTrace.None?) <==>
              || (forall r | r in t :: r.strategyId.None?)
              || ((exists a, b | Names(t, a) && Names(t, b) :: a != b)
                  && exists r | r in t :: r.strategyId.None? && r.stage != FrameReceived)
    ensures forall f | f in FrameFlows(frameId, t) && f.strategyId.None? && f.evidenceTrace.None? ::
              && f.frameId == frameId
              && forall r :: multiset(f.trace)[r] == if r.strategyId.None? then multiset(t)[r] else 0
  {
    hide Filter, StrategyIds, FrameFlows, AmbiguousFlow, Names;
    StrategiesNamed(t);
    var whole, both := Flow(frameId, None, t, None), StrategylessRecords(frameId, t);
    StrategylessIs(frameId, t, whole);
    StrategylessIs(frameId, t, both);
    AmbiguousIff(frameId, t, both);
    StrategylessCounts(frameId, t);
    hide StrategylessRecords;
    forall f | f in FrameFlows(frameId, t) && f.strategyId.None? && f.evidenceTrace.None?
      ensures (StrategyIds(t) == [] && f == whole) || (f == both && f in AmbiguousFlow(frameId, t))
    {
      StrategylessIs(frameId, t, f);
    }
  }

  function StrategylessRecords(frameId: string, t: seq<Record>): Flow {
    Flow(frameId, None, Filter(t, Context) + Filter(t, Ambiguous), None)
  }

  lemma StrategylessIs(frameId: string, t: seq<Record>, f: Flow)
    requires f.strategyId.None? && f.evidenceTrace.None?
    ensures f in FrameFlows(frameId, t) <==>
              if StrategyIds(t) == [] then f == Flow(frameId, None, t, None) else f in AmbiguousFlow(frameId, t)
    ensures f in AmbiguousFlow(frameId, t) ==> f == StrategylessRecords(frameId, t)
  {
    hide Filter, StrategyIds, FrameFlows, CashFlow;
    FrameFlowsSplit(frameId, t, f);
    CashIsMarked(frameId, t, f);
  }

  lemma StrategylessCounts(frameId: string, t: seq<Record>)
    ensures forall r ::
              multiset(StrategylessRecords(frameId, t).trace)[r] == if r.strategyId.None? then multiset(t)[r] else 0
    ensures (forall r | r in t :: r.strategyId.None?) ==>
              forall r :: multiset(t)[r] == if r.strategyId.None? then multiset(t)[r] else 0
  {
    hide Filter;
    forall r
      ensures multiset(Filter(t, Context) + Filter(t, Ambiguous))[r] == if r.strategyId.None? then multiset(t)[r] else 0
      ensures multiset(t)[r] > 0 ==> r in t
    {
      FilterCount(t, Context, r);
      FilterCount(t, Ambiguous, r);
    }
  }

  lemma CashIsMarked(frameId: string, t: seq<Record>, f: Flow)
    requires f.evidenceTrace.None?
    ensures f !in CashFlow(frameId, t)
  {
    hide Filter, AllHeld, StrategyIds;
  }

  lemma AmbiguousIff(frameId: string, t: seq<Record>, both: Flow)
    requires both == StrategylessRecords(frameId, t)
    ensures both in AmbiguousFlow(frameId, t) <==>
              |StrategyIds(t)| > 1 && exists r | r in t :: r.strategyId.None? && r.stage != FrameReceived
  {
    hide Filter, StrategyIds;
    FilterMembers(t, Ambiguous);
    if Filter(t, Ambiguous) != [] {
      assert Filter(t, Ambiguous)[0] in t;
    }
    if r :| r in t && r.strategyId.None? && r.stage != FrameReceived {
      assert r in Filter(t, Ambiguous);
    }
  }

  /** A record that only receives the frame or holds. */
  predicate OnlyHolds(r: Record) {
    r.stage == FrameReceived || (r.stage == StrategyDecision && r.status == "HOLD")
  }

  lemma AllHeldIff(t: seq<Record>)
    ensures AllHeld(t, StrategyIds(t)) <==>
              && (exists r | r in t :: r.strategyId.Some?)
              && (forall r | r in t :: OnlyHolds(r))
              && (forall id | Names(t, id) ::
                    exists r | r in t :: r.strategyId == Some(id) && r.stage == StrategyDecision && r.status == "HOLD")
  {
    hide StrategyIds, Names;
    StrategiesNamed(t);
    if r :| r in t && r.strategyId.Some? {
      NamesIt(t, r);
      assert r.strategyId.value in StrategyIds(t);
    }
  }

  lemma NamesIt(t: seq<Record>, r: Record)
    requires r in t && r.strategyId.Some?
    ensures Names(t, r.strategyId.value)
  {}

  /** A frame gets a cash aggregate exactly when it names a strategy, no record does more than receive the frame or
      hold, and every named strategy held. The aggregate takes up the whole frame and no evidence. */
  lemma CashFlowExact(frameId: string, t: seq<Record>)
    ensures (exists f | f in FrameFlows(frameId, t) :: f.evidenceTrace.Some?) <==>
              && (exists r | r in t :: r.strategyId.Some?)
              && (forall r | r in t :: OnlyHolds(r))
              && (forall id | Names(t, id) ::
                    exists r | r in t :: r.strategyId == Some(id) && r.stage == StrategyDecision && r.status == "HOLD")
    ensures forall f | f in FrameFlows(frameId, t) && f.evidenceTrace.Some? :: f == Flow(frameId, None, t, Some([]))
  {
    hide Filter, StrategyIds, FrameFlows, AllHeld, Names, AmbiguousFlow, OnlyHolds;
    StrategiesNamed(t);
    AllHeldIff(t);
    var cash := Flow(frameId, None, t, Some([]));
    if AllHeld(t, StrategyIds(t)) {
      CashTakesAll(t);
    }
    FrameFlowsSplit(frameId, t, cash);
    forall f | f in FrameFlows(frameId, t) && f.evidenceTrace.Some?
      ensures f == cash && AllHeld(t, StrategyIds(t))
    {
      FrameFlowsSplit(frameId, t, f);
      AmbiguousIsUnmarked(frameId, t, f);
    }
  }

  lemma CashTakesAll(t: seq<Record>)
    requires forall r | r in t :: OnlyHolds(r)
    ensures Filter(t, CashRecord) == t
  {
    FilterKeepsAll(t, CashRecord);
  }

  lemma AmbiguousIsUnmarked(frameId: string, t: seq<Record>, f: Flow)
    requires f.evidenceTrace.Some?
    ensures f !in AmbiguousFlow(frameId, t)
  {
    hide Filter, StrategyIds;
  }

  // ----- evidence -----

  /** Every record but a received frame gives one item, and the item's kind follows from the record's stage; only a
      refused or discarded conversion is a reason for discarding. */
  lemma {:induction false} EvidenceMeaning(t: seq<Record>)
    ensures forall r :: r in Map(EvidenceOf(t), RecordOf) <==> r in t && r.stage != FrameReceived
    ensures forall e | e in EvidenceOf(t) ::
              var stage, status := e.record.stage, e.record.status;
              && (e.kind == DecisionEvidence <==> stage == StrategyDecision)
              && (e.kind == DiscardReason <==>
                    stage == OrderIntentConversion && (status == "REJECTED" || status == "DISCARDED"))
              && (e.kind == OrderIntent <==>
                    stage == OrderIntentConversion && status != "REJECTED" && status != "DISCARDED")
              && (e.kind == CostBreakdown <==> stage == CostDecision)
              && (e.kind == RiskOutcome <==> stage == RiskDecision)
              && (e.kind == ExecutionOutcome <==> stage == ExecutionResult)
  {
    EvidenceRecords(t);
    FilterMembers(t, Bearing);
    KindsFollow(t);
    hide EvidenceOf, Filter, Map;
  }

  lemma {:induction false} KindsFollow(t: seq<Record>)
    ensures forall e | e in EvidenceOf(t) :: KindOf(e.record) == Some(e.kind)
  {
    if t != [] {
      KindsFollow(t[..|t| - 1]);
      EvidenceStep(t);
    }
  }

  // ----- metrics -----

  /** What one record adds to the metrics of its flow. */
  lemma MetricOfRecord(r: Record)
    ensures MetricOf([r])
         == Metric(
              if r.stage == CostDecision
                 && (r.tradeAllowed == Some(false) || r.status == "REJECT" || r.status == "REJECTED") then 1 else 0,
              if r.stage == RiskDecision
                 && (r.approved == Some(false) || r.status == "FAIL" || r.status == "REJECTED") then 1 else 0,
              if r.stage == ExecutionResult && (r.status == "REJECTED" || r.brokerOrderStatus == "REJECTED")
              then 1 else 0,
              if r.stage == ExecutionResult && (r.status == "SUBMITTED" || r.status == "FILLED") then 1 else 0,
              if r.stage == ExecutionResult && (r.status == "SUBMITTED" || r.status == "FILLED") && r.filledPositive
              then 1 else 0)
  {
    CountOne(r, CostRejected);
    CountOne(r, RiskRejected);
    CountOne(r, ExecutionRejected);
    CountOne(r, OrderSubmitted);
    CountOne(r, OrderFilled);
    hide Count;
  }

  lemma CountOne(r: Record, p: Record -> bool)
    ensures Count([r], p) == if p(r) then 1 else 0
  {
    assert [r][1..] == [];
  }

  /** Metrics add up over consecutive parts of a trace. */
  lemma MetricsAdd(a: seq<Record>, b: seq<Record>)
    ensures var m, n, all := MetricOf(a), MetricOf(b), MetricOf(a + b);
            && all.costRejected == m.costRejected + n.costRejected
            && all.riskRejected == m.riskRejected + n.riskRejected
            && all.executionRejected == m.executionRejected + n.executionRejected
            && all.ordersSubmitted == m.ordersSubmitted + n.ordersSubmitted
            && all.fills == m.fills + n.fills
  {
    hide Filter;
    FilterConcat(a, b, CostRejected);
    FilterConcat(a, b, RiskRejected);
    FilterConcat(a, b, ExecutionRejected);
    FilterConcat(a, b, OrderSubmitted);
    FilterConcat(a, b, OrderFilled);
  }
}
