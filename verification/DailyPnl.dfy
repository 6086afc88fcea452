/** Daily profit and loss: one fact per strategy and market, taken from the latest snapshots, or from the positions
    where there is no snapshot. */
module DailyPnl {
  import opened Sequences

  /** `market` is missing on a snapshot that sums up its whole strategy. */
  datatype Snapshot = Snapshot(
    strategy: string, market: Option<string>, capturedAt: int, equity: real, realized: real, unrealized: real,
    drawdownBps: real)

  datatype Position = Position(strategy: string, market: string, quantity: real, realized: real, unrealized: real)

  datatype Fact = FromSnapshot(snapshot: Snapshot) | FromPosition(position: Position)

  datatype Scope = Scope(strategy: string, market: Option<string>)

  datatype Source = Snapshots | Positions | SnapshotsAndPositions

  datatype Metric = Unavailable | Available(value: real, sampleCount: nat, source: Source)

  function ScopeOf(s: Snapshot): Scope { Scope(s.strategy, s.market) }

  function PositionScope(p: Position): Scope { Scope(p.strategy, Some(p.market)) }

  function Realized(f: Fact): real {
    match f
    case FromSnapshot(s) => s.realized
    case FromPosition(p) => p.realized
  }

  function Unrealized(f: Fact): real {
    match f
    case FromSnapshot(s) => s.unrealized
    case FromPosition(p) => p.unrealized
  }

  // ----- latest snapshots -----

  /** The collation of the canonical keys: some fixed total order on snapshot contents. */
  ghost predicate TotalOrder(collate: (Snapshot, Snapshot) -> bool) {
    && (forall a, b :: collate(a, b) || collate(b, a))
    && (forall a, b :: collate(a, b) && collate(b, a) ==> a == b)
    && (forall a, b, c :: collate(a, b) && collate(b, c) ==> collate(a, c))
  }

  /** `comparePnlSnapshotCandidate(a, b) > 0`: `a` is newer, or as new and later in the collation. */
  predicate Beats(collate: (Snapshot, Snapshot) -> bool, a: Snapshot, b: Snapshot) {
    if a.capturedAt != b.capturedAt then a.capturedAt > b.capturedAt else !collate(a, b)
  }

  /** `s` is the snapshot that its scope is reported by, however the input is ordered. */
  ghost predicate Wins(collate: (Snapshot, Snapshot) -> bool, snapshots: seq<Snapshot>, s: Snapshot) {
    && s in snapshots
    && forall t | t in snapshots && ScopeOf(t) == ScopeOf(s) :: t == s || Beats(collate, s, t)
  }

  lemma BeatsLaws(collate: (Snapshot, Snapshot) -> bool, a: Snapshot, b: Snapshot, c: Snapshot)
    requires TotalOrder(collate)
    ensures a != b ==> Beats(collate, a, b) || Beats(collate, b, a)
    ensures !(Beats(collate, a, b) && Beats(collate, b, a))
    ensures Beats(collate, a, b) && Beats(collate, b, c) ==> Beats(collate, a, c)
  {}

  /** The running best of each scope after the first `n` snapshots, and the scopes in the order they came up. */
  ghost predicate Tracks(
      collate: (Snapshot, Snapshot) -> bool, seen: seq<Snapshot>, latest: map<Scope, Snapshot>, order: seq<Scope>)
  {
    && (forall c | c in latest :: ScopeOf(latest[c]) == c && Wins(collate, seen, latest[c]))
    && (forall s | s in seen :: ScopeOf(s) in latest)
    && (forall c :: c in order <==> c in latest)
    && Distinct(order)
  }

  lemma TracksStep(
      collate: (Snapshot, Snapshot) -> bool, seen: seq<Snapshot>, s: Snapshot, latest: map<Scope, Snapshot>,
      latest': map<Scope, Snapshot>, order: seq<Scope>, order': seq<Scope>)
    requires TotalOrder(collate) && Tracks(collate, seen, latest, order)
    requires latest' == if ScopeOf(s) !in latest || Beats(collate, s, latest[ScopeOf(s)]) then latest[ScopeOf(s) := s]
                        else latest
    requires order' == if ScopeOf(s) in latest then order else order + [ScopeOf(s)]
    ensures Tracks(collate, seen + [s], latest', order')
  {
    hide TotalOrder, Beats;
    forall c | c in latest'
      ensures ScopeOf(latest'[c]) == c && Wins(collate, seen + [s], latest'[c])
    {
      WinnerStep(collate, seen, s, latest, c, latest'[c]);
    }
  }

  lemma WinnerStep(
      collate: (Snapshot, Snapshot) -> bool, seen: seq<Snapshot>, s: Snapshot, latest: map<Scope, Snapshot>, c: Scope,
      winner: Snapshot)
    requires TotalOrder(collate)
    requires forall d | d in latest :: ScopeOf(latest[d]) == d && Wins(collate, seen, latest[d])
    requires forall t | t in seen :: ScopeOf(t) in latest
    requires if c == ScopeOf(s) && (c !in latest || Beats(collate, s, latest[c])) then winner == s
             else c in latest && winner == latest[c]
    ensures ScopeOf(winner) == c && Wins(collate, seen + [s], winner)
  {
    hide TotalOrder, Beats;
    forall t | t in seen + [s] && ScopeOf(t) == c
      ensures t == winner || Beats(collate, winner, t)
    {
      if c in latest {
        BeatsLaws(collate, s, latest[c], t);
      }
    }
  }

  /** `selectLatestPnlSnapshots`: one pass that keeps the best snapshot of each scope. */
  method SelectLatest(
      collate: (Snapshot, Snapshot) -> bool, snapshots: seq<Snapshot>, scopeOrder: (Snapshot, Snapshot) -> bool)
    returns (selected: seq<Snapshot>)
    requires TotalOrder(collate)
    ensures Distinct(selected)
    ensures forall s :: s in selected <==> Wins(collate, snapshots, s)
  {
    var latest: map<Scope, Snapshot>, order: seq<Scope> := map[], [];
    for n := 0 to |snapshots|
      invariant Tracks(collate, snapshots[..n], latest, order)
    {
      hide Tracks, TotalOrder, Beats;
      var s := snapshots[n];
      var c := ScopeOf(s);
      ghost var before, orderBefore := latest, order;
      if c !in latest {
        order := order + [c];
        latest := latest[c := s];
      } else if Beats(collate, s, latest[c]) {
        latest := latest[c := s];
      }
      TracksStep(collate, snapshots[..n], s, before, latest, orderBefore, order);
      assert snapshots[..n + 1] == snapshots[..n] + [s];
    }
    assert snapshots[..|snapshots|] == snapshots;
    hide TotalOrder, Beats;
    var values := seq(|order|, i requires 0 <= i < |order| => assert order[i] in order; latest[order[i]]);
    WinnersAreTracked(collate, snapshots, latest, order, values);
    selected := Sort(values, scopeOrder);
    SameElements(selected, values);
    DistinctPermutes(values, selected);
  }

  lemma WinnersAreTracked(
      collate: (Snapshot, Snapshot) -> bool, snapshots: seq<Snapshot>, latest: map<Scope, Snapshot>, order: seq<Scope>,
      values: seq<Snapshot>)
    requires TotalOrder(collate) && Tracks(collate, snapshots, latest, order)
    requires |values| == |order| && forall i | 0 <= i < |order| :: order[i] in latest && values[i] == latest[order[i]]
    ensures Distinct(values)
    ensures forall s :: s in values <==> Wins(collate, snapshots, s)
  {
    hide TotalOrder, Beats;
    forall s | Wins(collate, snapshots, s)
      ensures s in values
    {
      var t := latest[ScopeOf(s)];
      BeatsLaws(collate, s, t, s);
      var i :| 0 <= i < |order| && order[i] == ScopeOf(s);
      assert values[i] == s;
    }
  }

  /** A winner is as recent as any snapshot of its scope, and no other snapshot of the scope wins. */
  lemma WinnerIsLatest(collate: (Snapshot, Snapshot) -> bool, snapshots: seq<Snapshot>, s: Snapshot, t: Snapshot)
    requires TotalOrder(collate) && Wins(collate, snapshots, s) && t in snapshots && ScopeOf(t) == ScopeOf(s)
    ensures t.capturedAt <= s.capturedAt
    ensures Wins(collate, snapshots, t) ==> t == s
  {
    hide TotalOrder;
    BeatsLaws(collate, s, t, s);
  }

  /** Every scope that has a snapshot has a winner. */
  lemma {:induction false} WinnerExists(collate: (Snapshot, Snapshot) -> bool, snapshots: seq<Snapshot>, s: Snapshot)
    requires TotalOrder(collate) && s in snapshots
    ensures exists w :: Wins(collate, snapshots, w) && ScopeOf(w) == ScopeOf(s)
    decreases |snapshots|
  {
    hide TotalOrder, Beats;
    var init, last := snapshots[..|snapshots| - 1], snapshots[|snapshots| - 1];
    assert snapshots == init + [last];
    if s in init {
      WinnerExists(collate, init, s);
      var w :| Wins(collate, init, w) && ScopeOf(w) == ScopeOf(s);
      ExtendWinner(collate, init, last, w);
    } else {
      if exists t | t in init :: ScopeOf(t) == ScopeOf(s) {
        var t :| t in init && ScopeOf(t) == ScopeOf(s);
        WinnerExists(collate, init, t);
        var w :| Wins(collate, init, w) && ScopeOf(w) == ScopeOf(s);
        ExtendWinner(collate, init, last, w);
      } else {
        assert Wins(collate, snapshots, last);
      }
    }
  }

  lemma ExtendWinner(collate: (Snapshot, Snapshot) -> bool, init: seq<Snapshot>, last: Snapshot, w: Snapshot)
    requires TotalOrder(collate) && Wins(collate, init, w)
    ensures exists v :: Wins(collate, init + [last], v) && ScopeOf(v) == ScopeOf(w)
  {
    hide TotalOrder, Beats;
    var v := if ScopeOf(last) == ScopeOf(w) && Beats(collate, last, w) then last else w;
    forall t | t in init + [last] && ScopeOf(t) == ScopeOf(v)
      ensures t == v || Beats(collate, v, t)
    {
      BeatsLaws(collate, last, w, t);
    }
    assert Wins(collate, init + [last], v);
  }

  // ----- aggregates and fallback -----

  predicate HasAggregate(snapshots: seq<Snapshot>, strategy: string) {
    exists s | s in snapshots :: s.strategy == strategy && s.market.None?
  }

  /** `excludeMarketSnapshotsCoveredByAggregate`. */
  function ExcludeCovered(snapshots: seq<Snapshot>): seq<Snapshot> {
    var aggregates := set s | s in snapshots && s.market.None? :: s.strategy;
    Filter(snapshots, (s: Snapshot) => s.market.None? || s.strategy !in aggregates)
  }

  lemma ExcludeCoveredMembers(snapshots: seq<Snapshot>)
    ensures forall s :: s in ExcludeCovered(snapshots) <==>
              s in snapshots && (s.market.None? || !HasAggregate(snapshots, s.strategy))
  {
    var aggregates := set s | s in snapshots && s.market.None? :: s.strategy;
    FilterMembers(snapshots, (s: Snapshot) => s.market.None? || s.strategy !in aggregates);
  }

  /** A snapshot stands for its market, or for every market of its strategy. */
  predicate SnapshotCovers(s: Snapshot, c: Scope) {
    s.strategy == c.strategy && (s.market.None? || s.market == c.market)
  }

  predicate Covers(f: Fact, c: Scope) {
    match f
    case FromSnapshot(s) => SnapshotCovers(s, c)
    case FromPosition(p) => PositionScope(p) == c
  }

  predicate Uncovered(snapshots: seq<Snapshot>, p: Position) {
    forall s | s in snapshots :: !SnapshotCovers(s, PositionScope(p))
  }

  predicate HasMarket(snapshots: seq<Snapshot>, strategy: string, market: string) {
    exists s | s in snapshots :: s.strategy == strategy && s.market == Some(market)
  }

  lemma HasStep(snapshots: seq<Snapshot>, s: Snapshot)
    ensures forall a ::
              HasAggregate(snapshots + [s], a) <==> HasAggregate(snapshots, a) || (s.strategy == a && s.market.None?)
    ensures forall a, m ::
              HasMarket(snapshots + [s], a, m) <==>
                HasMarket(snapshots, a, m) || (s.strategy == a && s.market == Some(m))
  {
    assert s in snapshots + [s];
  }

  lemma UncoveredIs(snapshots: seq<Snapshot>, p: Position)
    ensures Uncovered(snapshots, p) <==>
              !HasAggregate(snapshots, p.strategy) && !HasMarket(snapshots, p.strategy, p.market)
  {}

  /** `createPnlSnapshotCoverage`: the lookup tables behind `coversPosition`. */
  method SnapshotCoverage(snapshots: seq<Snapshot>) returns (aggregates: set<string>, markets: map<string, set<string>>)
    ensures forall p: Position ::
              (p.strategy in aggregates || (p.strategy in markets && p.market in markets[p.strategy])) <==>
                !Uncovered(snapshots, p)
  {
    hide Uncovered;
    aggregates, markets := {}, map[];
    for n := 0 to |snapshots|
      invariant forall a :: a in aggregates <==> HasAggregate(snapshots[..n], a)
      invariant forall a, m :: (a in markets && m in markets[a]) <==> HasMarket(snapshots[..n], a, m)
    {
      hide HasAggregate, HasMarket;
      var s := snapshots[n];
      HasStep(snapshots[..n], s);
      assert snapshots[..n + 1] == snapshots[..n] + [s];
      if s.market.None? {
        aggregates := aggregates + {s.strategy};
        continue;
      }
      var known := if s.strategy in markets then markets[s.strategy] else {};
      markets := markets[s.strategy := known + {s.market.value}];
    }
    assert snapshots[..|snapshots|] == snapshots;
    forall p
      ensures Uncovered(snapshots, p) <==>
                !HasAggregate(snapshots, p.strategy) && !HasMarket(snapshots, p.strategy, p.market)
    {
      UncoveredIs(snapshots, p);
    }
  }

  function SnapshotFact(s: Snapshot): Fact { FromSnapshot(s) }

  function PositionFact(p: Position): Fact { FromPosition(p) }

  // ----- what the facts must be, from the raw inputs alone -----

  /** A winner is reported unless a strategy-wide snapshot already contains it. */
  ghost predicate Reported(collate: (Snapshot, Snapshot) -> bool, snapshots: seq<Snapshot>, s: Snapshot) {
    Wins(collate, snapshots, s) && (s.market.None? || !HasAggregate(snapshots, s.strategy))
  }

  /** The fact list as a choice from the inputs: the reported winners once each, then the uncovered positions. */
  ghost predicate Choice(
      collate: (Snapshot, Snapshot) -> bool, snapshots: seq<Snapshot>, positions: seq<Position>, kept: seq<Snapshot>,
      fallback: seq<Position>)
  {
    && Distinct(kept) && (forall s :: s in kept <==> Reported(collate, snapshots, s))
    && fallback == Filter(positions, (p: Position) => Uncovered(snapshots, p))
  }

  function FactsOf(kept: seq<Snapshot>, fallback: seq<Position>): seq<Fact> {
    Map(kept, SnapshotFact) + Map(fallback, PositionFact)
  }

  function PnlMetric(facts: seq<Fact>, field: Fact -> real, source: Source): Metric {
    if facts == [] then Unavailable else Available(SumOf(facts, field), |facts|, source)
  }

  function SourceOf(kept: seq<Snapshot>, fallback: seq<Position>): Source {
    if kept != [] && fallback != [] then SnapshotsAndPositions else if kept != [] then Snapshots else Positions
  }

  /** Selecting winners first and dropping the covered ones after gives the same as judging against all snapshots. */
  lemma WinnersKeepCoverage(collate: (Snapshot, Snapshot) -> bool, snapshots: seq<Snapshot>, selected: seq<Snapshot>)
    requires TotalOrder(collate) && forall s :: s in selected <==> Wins(collate, snapshots, s)
    ensures forall a :: HasAggregate(selected, a) <==> HasAggregate(snapshots, a)
    ensures forall p :: Uncovered(ExcludeCovered(selected), p) <==> Uncovered(snapshots, p)
  {
    hide TotalOrder, Beats, ExcludeCovered;
    ExcludeCoveredMembers(selected);
    forall a
      ensures HasAggregate(selected, a) <==> HasAggregate(snapshots, a)
    {
      if HasAggregate(snapshots, a) {
        var s :| s in snapshots && s.strategy == a && s.market.None?;
        WinnerExists(collate, snapshots, s);
        var w :| Wins(collate, snapshots, w) && ScopeOf(w) == ScopeOf(s);
        assert w in selected;
      }
    }
    forall p
      ensures Uncovered(ExcludeCovered(selected), p) <==> Uncovered(snapshots, p)
    {
      if !Uncovered(snapshots, p) {
        var s :| s in snapshots && SnapshotCovers(s, PositionScope(p));
        KeptCover(collate, snapshots, selected, s, PositionScope(p));
      }
    }
  }

  lemma KeptCover(
      collate: (Snapshot, Snapshot) -> bool, snapshots: seq<Snapshot>, selected: seq<Snapshot>, s: Snapshot, c: Scope)
    requires TotalOrder(collate) && forall s :: s in selected <==> Wins(collate, snapshots, s)
    requires s in snapshots && SnapshotCovers(s, c)
    ensures exists w :: w in ExcludeCovered(selected) && SnapshotCovers(w, c)
  {
    hide TotalOrder, Beats, ExcludeCovered;
    ExcludeCoveredMembers(selected);
    WinnerExists(collate, snapshots, s);
    var w :| Wins(collate, snapshots, w) && ScopeOf(w) == ScopeOf(s);
    if w.market.Some? && HasAggregate(selected, w.strategy) {
      var v :| v in selected && v.strategy == w.strategy && v.market.None?;
      assert v in ExcludeCovered(selected) && SnapshotCovers(v, c);
    } else {
      assert w in ExcludeCovered(selected) && SnapshotCovers(w, c);
    }
  }

  /** `aggregateDailyReport`, profit and loss: select, exclude, fall back, sort and add up. */
  method AggregatePnl(
      collate: (Snapshot, Snapshot) -> bool, scopeOrder: (Snapshot, Snapshot) -> bool, factOrder: (Fact, Fact) -> bool,
      snapshots: seq<Snapshot>, positions: seq<Position>)
    returns (facts: seq<Fact>, realized: Metric, estimated: Metric)
    requires TotalOrder(collate)
    ensures IsReport(collate, snapshots, positions, facts, realized, estimated)
  {
    hide TotalOrder, Wins, Filter, ExcludeCovered, HasAggregate, Uncovered, Distinct, SumOf;
    var selected := SelectLatest(collate, snapshots, scopeOrder);
    var kept := ExcludeCovered(selected);
    var aggregates, markets := SnapshotCoverage(kept);
    var fallback := Filter(positions, (p: Position) =>
      !(p.strategy in aggregates || (p.strategy in markets && p.market in markets[p.strategy])));
    WinnersKeepCoverage(collate, snapshots, selected);
    ExcludeCoveredMembers(selected);
    KeptDistinct(selected);
    FilterAgree(positions,
                (p: Position) =>
                  !(p.strategy in aggregates || (p.strategy in markets && p.market in markets[p.strategy])),
                (p: Position) => Uncovered(snapshots, p));
    facts := Sort(FactsOf(kept, fallback), factOrder);
    SameElements(facts, FactsOf(kept, fallback));
    var source := SourceOf(kept, fallback);
    realized := PnlMetric(facts, Realized, source);
    estimated := PnlMetric(facts, Unrealized, source);
    assert Choice(collate, snapshots, positions, kept, fallback);
  }

  lemma KeptDistinct(selected: seq<Snapshot>)
    requires Distinct(selected)
    ensures Distinct(ExcludeCovered(selected))
  {
    var aggregates := set s | s in selected && s.market.None? :: s.strategy;
    DistinctFilter(selected, (s: Snapshot) => s.market.None? || s.strategy !in aggregates);
  }

  /** The facts are some arrangement of the choice, and both metrics are taken over them. */
  ghost predicate IsReport(
      collate: (Snapshot, Snapshot) -> bool, snapshots: seq<Snapshot>, positions: seq<Position>, facts: seq<Fact>,
      realized: Metric, estimated: Metric)
  {
    exists kept, fallback ::
      && Choice(collate, snapshots, positions, kept, fallback)
      && multiset(facts) == multiset(FactsOf(kept, fallback))
      && realized == PnlMetric(facts, Realized, SourceOf(kept, fallback))
      && estimated == PnlMetric(facts, Unrealized, SourceOf(kept, fallback))
  }

  // ----- exact cover -----

  ghost predicate Present(snapshots: seq<Snapshot>, positions: seq<Position>, c: Scope) {
    (exists s | s in snapshots :: ScopeOf(s) == c) || (exists p | p in positions :: PositionScope(p) == c)
  }

  function CoverCount(facts: seq<Fact>, c: Scope): nat {
    |Filter(facts, (f: Fact) => Covers(f, c))|
  }

  /** No two positions that are left without a snapshot share their strategy and market. */
  ghost predicate UncoveredDistinct(snapshots: seq<Snapshot>, positions: seq<Position>) {
    forall i, j | 0 <= i < j < |positions| && Uncovered(snapshots, positions[i])
                  && Uncovered(snapshots, positions[j]) ::
      PositionScope(positions[i]) != PositionScope(positions[j])
  }

  function AtScope(c: Scope): Position -> bool { (p: Position) => PositionScope(p) == c }

  function Covering(c: Scope): Snapshot -> bool { (s: Snapshot) => SnapshotCovers(s, c) }

  lemma {:induction false} CountSnapshots(kept: seq<Snapshot>, c: Scope)
    ensures CoverCount(Map(kept, SnapshotFact), c) == |Filter(kept, Covering(c))|
  {
    if kept != [] {
      assert Map(kept, SnapshotFact)[1..] == Map(kept[1..], SnapshotFact);
      CountSnapshots(kept[1..], c);
    }
  }

  lemma {:induction false} CountPositions(fallback: seq<Position>, c: Scope)
    ensures CoverCount(Map(fallback, PositionFact), c) == |Filter(fallback, AtScope(c))|
  {
    if fallback != [] {
      assert Map(fallback, PositionFact)[1..] == Map(fallback[1..], PositionFact);
      CountPositions(fallback[1..], c);
    }
  }

  /** A fact covers a scope as a kept snapshot or as a fallback position. */
  lemma CountSplits(kept: seq<Snapshot>, fallback: seq<Position>, facts: seq<Fact>, c: Scope)
    requires multiset(facts) == multiset(FactsOf(kept, fallback))
    ensures CoverCount(facts, c) == |Filter(kept, Covering(c))| + |Filter(fallback, AtScope(c))|
  {
    var covers := (f: Fact) => Covers(f, c);
    FilterPermutation(facts, FactsOf(kept, fallback), covers);
    SameElements(Filter(facts, covers), Filter(FactsOf(kept, fallback), covers));
    FilterConcat(Map(kept, SnapshotFact), Map(fallback, PositionFact), covers);
    CountSnapshots(kept, c);
    CountPositions(fallback, c);
  }

  /** The kept snapshots cover a scope at most once, and exactly once if the input has any snapshot that covers it. */
  lemma SnapshotsCoverOnce(
      collate: (Snapshot, Snapshot) -> bool, snapshots: seq<Snapshot>, kept: seq<Snapshot>, c: Scope)
    requires TotalOrder(collate) && Distinct(kept) && forall s :: s in kept <==> Reported(collate, snapshots, s)
    ensures |Filter(kept, Covering(c))| == if exists s | s in snapshots :: SnapshotCovers(s, c) then 1 else 0
  {
    hide TotalOrder, Beats, Filter, Distinct;
    if exists s | s in snapshots :: SnapshotCovers(s, c) {
      var s :| s in snapshots && SnapshotCovers(s, c);
      var t := Representative(snapshots, s);
      WinnerExists(collate, snapshots, t);
      var w :| Wins(collate, snapshots, w) && ScopeOf(w) == ScopeOf(t);
      assert Reported(collate, snapshots, w) && SnapshotCovers(w, c);
      forall y | y in kept && SnapshotCovers(y, c)
        ensures y == w
      {
        ReportedUnique(collate, snapshots, w, y, c);
      }
      FilterSingle(kept, Covering(c), w);
    } else {
      FilterNone(kept, Covering(c));
    }
  }

  /** The snapshot whose scope is reported for `s`: its strategy's aggregate if there is one. */
  ghost function Representative(snapshots: seq<Snapshot>, s: Snapshot): (t: Snapshot)
    requires s in snapshots
    ensures t in snapshots && t.strategy == s.strategy
    ensures if HasAggregate(snapshots, s.strategy) then t.market.None? else t == s
  {
    if HasAggregate(snapshots, s.strategy) then
      var t :| t in snapshots && t.strategy == s.strategy && t.market.None?; t
    else s
  }

  lemma ReportedUnique(
      collate: (Snapshot, Snapshot) -> bool, snapshots: seq<Snapshot>, a: Snapshot, b: Snapshot, c: Scope)
    requires TotalOrder(collate) && Reported(collate, snapshots, a) && Reported(collate, snapshots, b)
    requires SnapshotCovers(a, c) && SnapshotCovers(b, c)
    ensures a == b
  {
    hide TotalOrder, Beats;
    BeatsLaws(collate, a, b, a);
    assert a.market.None? ==> HasAggregate(snapshots, a.strategy);
    assert b.market.None? ==> HasAggregate(snapshots, b.strategy);
  }

  function UncoveredAt(snapshots: seq<Snapshot>, c: Scope): Position -> bool {
    (p: Position) => Uncovered(snapshots, p) && PositionScope(p) == c
  }

  /** How often the facts cover a scope, from the inputs alone. */
  lemma CoverCountIs(
      collate: (Snapshot, Snapshot) -> bool, snapshots: seq<Snapshot>, positions: seq<Position>, kept: seq<Snapshot>,
      fallback: seq<Position>, facts: seq<Fact>, c: Scope)
    requires TotalOrder(collate) && Choice(collate, snapshots, positions, kept, fallback)
    requires multiset(facts) == multiset(FactsOf(kept, fallback))
    ensures CoverCount(facts, c) == (if exists s | s in snapshots :: SnapshotCovers(s, c) then 1 else 0)
                                    + |Filter(positions, UncoveredAt(snapshots, c))|
  {
    hide TotalOrder, Reported, Distinct, Filter, Uncovered, SnapshotCovers, FactsOf, CoverCount;
    CountSplits(kept, fallback, facts, c);
    SnapshotsCoverOnce(collate, snapshots, kept, c);
    FilterTwice(positions, (p: Position) => Uncovered(snapshots, p), AtScope(c), UncoveredAt(snapshots, c));
  }

  /** Exact cover: every scope of the input is covered by exactly one fact, so that nothing is counted twice or
      dropped, if and only if no two uncovered positions share their scope. */
  lemma ExactCoverIff(
      collate: (Snapshot, Snapshot) -> bool, snapshots: seq<Snapshot>, positions: seq<Position>, facts: seq<Fact>,
      realized: Metric, estimated: Metric)
    requires TotalOrder(collate) && IsReport(collate, snapshots, positions, facts, realized, estimated)
    ensures (forall c | Present(snapshots, positions, c) :: CoverCount(facts, c) == 1) <==>
              UncoveredDistinct(snapshots, positions)
    ensures forall c | Present(snapshots, positions, c) :: CoverCount(facts, c) >= 1
    ensures forall f | f in facts :: exists c | Present(snapshots, positions, c) :: Covers(f, c)
  {
    hide TotalOrder, CoverCount;
    var kept, fallback :|
      && Choice(collate, snapshots, positions, kept, fallback)
      && multiset(facts) == multiset(FactsOf(kept, fallback))
      && realized == PnlMetric(facts, Realized, SourceOf(kept, fallback))
      && estimated == PnlMetric(facts, Unrealized, SourceOf(kept, fallback));
    forall c | Present(snapshots, positions, c)
      ensures CoverCount(facts, c) >= 1
      ensures CoverCount(facts, c) == 1 <==> AtMostOne(positions, UncoveredAt(snapshots, c))
    {
      CoverCountIs(collate, snapshots, positions, kept, fallback, facts, c);
      PresentScope(snapshots, positions, c);
    }
    UncoveredDistinctIs(snapshots, positions);
    FactsPresent(collate, snapshots, positions, kept, fallback, facts);
  }

  /** Without snapshots every position is a fact. */
  lemma OnlyPositions(
      collate: (Snapshot, Snapshot) -> bool, p: Position, q: Position, kept: seq<Snapshot>, fallback: seq<Position>)
    requires Choice(collate, [], [p, q], kept, fallback)
    ensures kept == [] && fallback == [p, q]
  {
    NoMembers(kept);
    FilterPair(p, q, (x: Position) => Uncovered([], x));
  }

  lemma FilterPair<T(!new)>(p: T, q: T, f: T -> bool)
    requires f(p) && f(q)
    ensures Filter([p, q], f) == [p, q]
  {
    assert [p, q][1..] == [q] && [q][1..] == [];
    assert Filter([q], f) == [q];
  }

  lemma SumOfPair<T(!new)>(a: T, b: T, f: T -> real)
    ensures SumOf([a, b], f) == f(a) + f(b)
  {
    assert [a, b][1..] == [b] && [b][1..] == [];
    assert SumOf([b], f) == f(b);
  }

  lemma PairOfFacts(p: Position, q: Position)
    ensures FactsOf([], [p, q]) == [FromPosition(p), FromPosition(q)]
  {
    hide Map;
  }

  /** Two positions of one strategy and market without a snapshot: their scope is covered twice, and both are
      added. */
  lemma RepeatedPositionExample(
      collate: (Snapshot, Snapshot) -> bool, p: Position, q: Position, facts: seq<Fact>, realized: Metric,
      estimated: Metric)
    requires TotalOrder(collate) && PositionScope(p) == PositionScope(q)
    requires IsReport(collate, [], [p, q], facts, realized, estimated)
    ensures Present([], [p, q], PositionScope(p)) && CoverCount(facts, PositionScope(p)) == 2
    ensures realized == Available(p.realized + q.realized, 2, Positions)
  {
    hide TotalOrder, CoverCount, Choice, FactsOf, SumOf, Filter;
    var kept, fallback :|
      && Choice(collate, [], [p, q], kept, fallback)
      && multiset(facts) == multiset(FactsOf(kept, fallback))
      && realized == PnlMetric(facts, Realized, SourceOf(kept, fallback))
      && estimated == PnlMetric(facts, Unrealized, SourceOf(kept, fallback));
    CoverCountIs(collate, [], [p, q], kept, fallback, facts, PositionScope(p));
    assert p in [p, q];
    FilterPair(p, q, UncoveredAt([], PositionScope(p)));
    OnlyPositions(collate, p, q, kept, fallback);
    PairOfFacts(p, q);
    SameElements(facts, FactsOf(kept, fallback));
    SumOfPermutation(facts, FactsOf(kept, fallback), Realized);
    SumOfPair(FromPosition(p), FromPosition(q), Realized);
  }

  lemma PresentScope(snapshots: seq<Snapshot>, positions: seq<Position>, c: Scope)
    requires Present(snapshots, positions, c)
    ensures var n := |Filter(positions, UncoveredAt(snapshots, c))|;
            var s := if exists s | s in snapshots :: SnapshotCovers(s, c) then 1 else 0;
            s + n >= 1 && (s + n == 1 <==> AtMostOne(positions, UncoveredAt(snapshots, c)))
  {
    FilterAtMostOne(positions, UncoveredAt(snapshots, c));
    hide Filter, AtMostOne;
    if exists s | s in snapshots :: SnapshotCovers(s, c) {
      var s :| s in snapshots && SnapshotCovers(s, c);
      assert forall p | p in positions :: !UncoveredAt(snapshots, c)(p);
    } else {
      assert forall s | s in snapshots && ScopeOf(s) == c :: SnapshotCovers(s, c);
      var p :| p in positions && PositionScope(p) == c;
      assert UncoveredAt(snapshots, c)(p);
    }
  }

  lemma UncoveredDistinctIs(snapshots: seq<Snapshot>, positions: seq<Position>)
    ensures UncoveredDistinct(snapshots, positions) <==>
              forall c | Present(snapshots, positions, c) :: AtMostOne(positions, UncoveredAt(snapshots, c))
  {
    hide Uncovered;
    if forall c | Present(snapshots, positions, c) :: AtMostOne(positions, UncoveredAt(snapshots, c)) {
      forall i, j | 0 <= i < j < |positions| && Uncovered(snapshots, positions[i]) && Uncovered(snapshots, positions[j])
        ensures PositionScope(positions[i]) != PositionScope(positions[j])
      {
        var c := PositionScope(positions[i]);
        assert positions[i] in positions;
        assert Present(snapshots, positions, c);
        assert AtMostOne(positions, UncoveredAt(snapshots, c));
      }
    }
  }

  lemma FactsPresent(
      collate: (Snapshot, Snapshot) -> bool, snapshots: seq<Snapshot>, positions: seq<Position>, kept: seq<Snapshot>,
      fallback: seq<Position>, facts: seq<Fact>)
    requires Choice(collate, snapshots, positions, kept, fallback)
    requires multiset(facts) == multiset(FactsOf(kept, fallback))
    ensures forall f | f in facts :: exists c | Present(snapshots, positions, c) :: Covers(f, c)
  {
    FilterMembers(positions, (p: Position) => Uncovered(snapshots, p));
    SameElements(facts, FactsOf(kept, fallback));
    hide Filter, Uncovered, Distinct;
    forall f | f in facts
      ensures exists c | Present(snapshots, positions, c) :: Covers(f, c)
    {
      assert f in FactsOf(kept, fallback);
      match f
      case FromSnapshot(s) =>
        assert s in kept;
        assert Present(snapshots, positions, ScopeOf(s));
      case FromPosition(p) =>
        assert p in fallback;
        assert Present(snapshots, positions, PositionScope(p));
    }
  }

  // ----- order independence and availability -----

  lemma ChoicePermutes(
      collate: (Snapshot, Snapshot) -> bool, snapshots: seq<Snapshot>, positions: seq<Position>,
      snapshots': seq<Snapshot>, positions': seq<Position>, kept: seq<Snapshot>, fallback: seq<Position>,
      kept': seq<Snapshot>, fallback': seq<Position>)
    requires Choice(collate, snapshots, positions, kept, fallback)
    requires Choice(collate, snapshots', positions', kept', fallback')
    requires multiset(snapshots) == multiset(snapshots') && multiset(positions) == multiset(positions')
    ensures multiset(FactsOf(kept, fallback)) == multiset(FactsOf(kept', fallback'))
    ensures SourceOf(kept, fallback) == SourceOf(kept', fallback')
  {
    SameElements(snapshots, snapshots');
    hide Filter, Map;
    ReportedPermutes(collate, snapshots, snapshots');
    DistinctSameElements(kept, kept');
    FilterAgree(positions', (p: Position) => Uncovered(snapshots', p), (p: Position) => Uncovered(snapshots, p));
    FilterPermutation(positions, positions', (p: Position) => Uncovered(snapshots, p));
    hide Distinct, Reported, Uncovered;
    SameElements(kept, kept');
    SameElements(fallback, fallback');
    MapPermutation(kept, kept', SnapshotFact);
    MapPermutation(fallback, fallback', PositionFact);
  }

  lemma ReportedPermutes(collate: (Snapshot, Snapshot) -> bool, snapshots: seq<Snapshot>, snapshots': seq<Snapshot>)
    requires forall s :: s in snapshots <==> s in snapshots'
    ensures forall s :: Reported(collate, snapshots, s) <==> Reported(collate, snapshots', s)
  {
    hide Beats;
  }

  /** Any two reports of the same inputs, in whatever order the rows arrived and whatever order the facts are
      listed in, hold the same facts and the same metrics. */
  lemma ReportOrderIndependent(
      collate: (Snapshot, Snapshot) -> bool, snapshots: seq<Snapshot>, positions: seq<Position>, facts: seq<Fact>,
      realized: Metric, estimated: Metric, snapshots': seq<Snapshot>, positions': seq<Position>, facts': seq<Fact>,
      realized': Metric, estimated': Metric)
    requires IsReport(collate, snapshots, positions, facts, realized, estimated)
    requires IsReport(collate, snapshots', positions', facts', realized', estimated')
    requires multiset(snapshots) == multiset(snapshots') && multiset(positions) == multiset(positions')
    ensures multiset(facts) == multiset(facts') && realized == realized' && estimated == estimated'
  {
    hide Choice, FactsOf, SumOf;
    var kept, fallback :|
      && Choice(collate, snapshots, positions, kept, fallback)
      && multiset(facts) == multiset(FactsOf(kept, fallback))
      && realized == PnlMetric(facts, Realized, SourceOf(kept, fallback))
      && estimated == PnlMetric(facts, Unrealized, SourceOf(kept, fallback));
    var kept', fallback' :|
      && Choice(collate, snapshots', positions', kept', fallback')
      && multiset(facts') == multiset(FactsOf(kept', fallback'))
      && realized' == PnlMetric(facts', Realized, SourceOf(kept', fallback'))
      && estimated' == PnlMetric(facts', Unrealized, SourceOf(kept', fallback'));
    ChoicePermutes(collate, snapshots, positions, snapshots', positions', kept, fallback, kept', fallback');
    SameElements(facts, facts');
    SumOfPermutation(facts, facts', Realized);
    SumOfPermutation(facts, facts', Unrealized);
  }

  /** The metrics are unavailable exactly when there was no row at all: no input is reported as missing. */
  lemma AvailableIff(
      collate: (Snapshot, Snapshot) -> bool, snapshots: seq<Snapshot>, positions: seq<Position>, facts: seq<Fact>,
      realized: Metric, estimated: Metric)
    requires TotalOrder(collate) && IsReport(collate, snapshots, positions, facts, realized, estimated)
    ensures realized.Unavailable? <==> snapshots == [] && positions == []
    ensures estimated.Unavailable? <==> snapshots == [] && positions == []
  {
    ExactCoverIff(collate, snapshots, positions, facts, realized, estimated);
    hide TotalOrder, Choice;
    if snapshots != [] || positions != [] {
      var c := SomeScope(snapshots, positions);
      assert CoverCount(facts, c) >= 1;
    } else {
      NoMembers(facts);
    }
  }

  ghost function SomeScope(snapshots: seq<Snapshot>, positions: seq<Position>): (c: Scope)
    requires snapshots != [] || positions != []
    ensures Present(snapshots, positions, c)
  {
    if snapshots != [] then
      assert snapshots[0] in snapshots; ScopeOf(snapshots[0])
    else
      assert positions[0] in positions; PositionScope(positions[0])
  }

  // ----- the report, from the rows -----

  /** `s` is the newest row of its strategy and market, by the collation among equally new ones, and no row sums
      up its whole strategy unless it is that row. */
  ghost predicate ReportedRow(collate: (Snapshot, Snapshot) -> bool, snapshots: seq<Snapshot>, s: Snapshot) {
    && s in snapshots
    && (forall t | t in snapshots && t.strategy == s.strategy && t.market == s.market && t != s ::
          t.capturedAt < s.capturedAt || (t.capturedAt == s.capturedAt && collate(t, s)))
    && (s.market.Some? ==> forall t | t in snapshots && t.strategy == s.strategy :: t.market.Some?)
  }

  /** No snapshot of the position's strategy is for its market or for the whole strategy. */
  predicate UncoveredRow(snapshots: seq<Snapshot>, p: Position) {
    forall s | s in snapshots && s.strategy == p.strategy :: s.market.Some? && s.market.value != p.market
  }

  lemma ReportedIsRow(collate: (Snapshot, Snapshot) -> bool, snapshots: seq<Snapshot>, s: Snapshot)
    requires TotalOrder(collate)
    ensures Reported(collate, snapshots, s) <==> ReportedRow(collate, snapshots, s)
  {}

  lemma UncoveredIsRow(snapshots: seq<Snapshot>, p: Position)
    ensures Uncovered(snapshots, p) <==> UncoveredRow(snapshots, p)
  {}

  lemma {:induction false} SumOfFacts(kept: seq<Snapshot>, fallback: seq<Position>)
    ensures SumOf(FactsOf(kept, fallback), Realized)
         == SumOf(kept, (s: Snapshot) => s.realized) + SumOf(fallback, (p: Position) => p.realized)
    ensures SumOf(FactsOf(kept, fallback), Unrealized)
         == SumOf(kept, (s: Snapshot) => s.unrealized) + SumOf(fallback, (p: Position) => p.unrealized)
  {
    hide SumOf, Map;
    SumOfConcat(Map(kept, SnapshotFact), Map(fallback, PositionFact), Realized);
    SumOfConcat(Map(kept, SnapshotFact), Map(fallback, PositionFact), Unrealized);
    SumOfMap(kept, SnapshotFact, Realized, (s: Snapshot) => s.realized);
    SumOfMap(kept, SnapshotFact, Unrealized, (s: Snapshot) => s.unrealized);
    SumOfMap(fallback, PositionFact, Realized, (p: Position) => p.realized);
    SumOfMap(fallback, PositionFact, Unrealized, (p: Position) => p.unrealized);
  }

  /** What the metrics are, field by field from the rows: the realized metric adds the realized amounts, the
      estimate the unrealized ones, over the reported snapshots and the uncovered positions; samples are those
      rows, and the source names the kinds of rows there are. */
  lemma MetricsFromRows(
      collate: (Snapshot, Snapshot) -> bool, snapshots: seq<Snapshot>, positions: seq<Position>, facts: seq<Fact>,
      realized: Metric, estimated: Metric)
    returns (kept: seq<Snapshot>, fallback: seq<Position>)
    requires TotalOrder(collate) && IsReport(collate, snapshots, positions, facts, realized, estimated)
    ensures Distinct(kept) && forall s :: s in kept <==> ReportedRow(collate, snapshots, s)
    ensures fallback == Filter(positions, (p: Position) => UncoveredRow(snapshots, p))
    ensures realized.Unavailable? <==> kept == [] && fallback == []
    ensures estimated.Unavailable? <==> kept == [] && fallback == []
    ensures realized.Available? ==>
              realized.value
                == SumOf(kept, (s: Snapshot) => s.realized) + SumOf(fallback, (p: Position) => p.realized)
    ensures estimated.Available? ==>
              estimated.value
                == SumOf(kept, (s: Snapshot) => s.unrealized) + SumOf(fallback, (p: Position) => p.unrealized)
    ensures forall m | m in [realized, estimated] && m.Available? ::
              && m.sampleCount == |kept| + |fallback|
              && (m.source == Snapshots <==> fallback == [])
              && (m.source == Positions <==> kept == [])
              && (m.source == SnapshotsAndPositions <==> kept != [] && fallback != [])
  {
    hide TotalOrder, SumOf, Filter, Distinct, Uncovered, UncoveredRow, Reported, ReportedRow, Map;
    kept, fallback :|
      && Choice(collate, snapshots, positions, kept, fallback)
      && multiset(facts) == multiset(FactsOf(kept, fallback))
      && realized == PnlMetric(facts, Realized, SourceOf(kept, fallback))
      && estimated == PnlMetric(facts, Unrealized, SourceOf(kept, fallback));
    forall s
      ensures Reported(collate, snapshots, s) <==> ReportedRow(collate, snapshots, s)
    {
      ReportedIsRow(collate, snapshots, s);
    }
    forall p
      ensures Uncovered(snapshots, p) <==> UncoveredRow(snapshots, p)
    {
      UncoveredIsRow(snapshots, p);
    }
    FilterAgree(positions, (p: Position) => Uncovered(snapshots, p), (p: Position) => UncoveredRow(snapshots, p));
    SameElements(facts, FactsOf(kept, fallback));
    SumOfPermutation(facts, FactsOf(kept, fallback), Realized);
    SumOfPermutation(facts, FactsOf(kept, fallback), Unrealized);
    SumOfFacts(kept, fallback);
  }
}
