/** The consistency report between the broker candidates of a backtest and the orders of the paper runtime. */
module BacktestConsistency {
  import opened Sequences

  /** A candidate record after normalisation: every present value is its canonical text. */
  datatype Entry = Entry(
    key: string, strategyId: Option<string>, exchangeId: string, market: string, side: string, orderType: string,
    requestedQuantity: string, requestedPrice: Option<string>, lifecycleStatus: Option<string>,
    fillStatus: Option<string>, fillReasonCode: Option<string>, filledQuantity: Option<string>,
    remainingQuantity: Option<string>, totalFee: Option<string>, orderbookReceivedAt: Option<string>,
    slippageBps: Option<string>)

  datatype Field =
    | ExchangeId | Market | Side | OrderType | RequestedQuantity | RequestedPrice | LifecycleStatus | FillStatus
    | FillReasonCode | FilledQuantity | RemainingQuantity | TotalFee | OrderbookReceivedAt | SlippageBps

  /** The compared fields, in the order they are reported. */
  const ComparedFields: seq<Field> :=
    [ExchangeId, Market, Side, OrderType, RequestedQuantity, RequestedPrice, LifecycleStatus, FillStatus,
     FillReasonCode, FilledQuantity, RemainingQuantity, TotalFee, OrderbookReceivedAt, SlippageBps]

  function Read(e: Entry, f: Field): Option<string> {
    match f
    case ExchangeId => Some(e.exchangeId)
    case Market => Some(e.market)
    case Side => Some(e.side)
    case OrderType => Some(e.orderType)
    case RequestedQuantity => Some(e.requestedQuantity)
    case RequestedPrice => e.requestedPrice
    case LifecycleStatus => e.lifecycleStatus
    case FillStatus => e.fillStatus
    case FillReasonCode => e.fillReasonCode
    case FilledQuantity => e.filledQuantity
    case RemainingQuantity => e.remainingQuantity
    case TotalFee => e.totalFee
    case OrderbookReceivedAt => e.orderbookReceivedAt
    case SlippageBps => e.slippageBps
  }

  /** A value of the count record: a number, or the text that adding one to an inherited member leaves. */
  datatype Count = Times(n: nat) | NotANumber

  datatype Difference =
    | DuplicateBacktest(count: Count) | DuplicatePaper(count: Count) | PaperMissing | BacktestMissing
    | FieldDiffers(field: Field, backtest: Option<string>, paper: Option<string>)

  datatype Mismatch = Mismatch(key: string, difference: Difference)

  function Key(e: Entry): string { e.key }

  function HasKey(k: string): Entry -> bool { (e: Entry) => e.key == k }

  function Occurrences(es: seq<Entry>, k: string): nat { |Filter(es, HasKey(k))| }

  /** The first entry of a key; later ones do not replace it. */
  function FirstWith(es: seq<Entry>, k: string): Option<Entry> {
    if es == [] then None
    else
      var before := FirstWith(es[..|es| - 1], k);
      if before.Some? then before else if es[|es| - 1].key == k then Some(es[|es| - 1]) else None
  }

  lemma {:induction false} FirstWithExact(es: seq<Entry>, k: string)
    ensures FirstWith(es, k).Some? <==> exists e | e in es :: e.key == k
    ensures FirstWith(es, k).Some? ==> FirstWith(es, k).value in es && FirstWith(es, k).value.key == k
  {
    if es != [] {
      var init, last := es[..|es| - 1], es[|es| - 1];
      assert es == init + [last];
      FirstWithExact(init, k);
    }
  }

  lemma FirstWithStep(es: seq<Entry>, n: nat, k: string)
    requires n < |es|
    ensures FirstWith(es[..n + 1], k)
         == if FirstWith(es[..n], k).Some? then FirstWith(es[..n], k) else if es[n].key == k then Some(es[n]) else None
  {
    assert es[..n + 1][..n] == es[..n];
  }

  /** Keys in the order they first occur. */
  function KeysOf(es: seq<Entry>): seq<string> { FirstSeen(Map(es, Key)) }

  lemma KeysOfStep(es: seq<Entry>, n: nat)
    requires n < |es|
    ensures KeysOf(es[..n + 1])
         == if es[n].key in KeysOf(es[..n]) then KeysOf(es[..n]) else KeysOf(es[..n]) + [es[n].key]
  {
    hide Map, FirstSeen;
    assert es[..n + 1][..n] == es[..n];
    MapLast(es[..n + 1], Key);
    FirstSeenStep(Map(es[..n], Key), es[n].key);
  }

  lemma KeysOfExact(es: seq<Entry>)
    ensures Distinct(KeysOf(es)) && forall k :: k in KeysOf(es) <==> FirstWith(es, k).Some?
  {
    hide Map, FirstSeen, Distinct, FirstWith;
    FirstSeenExact(Map(es, Key));
    MapMembers(es, Key);
    forall k
      ensures k in KeysOf(es) <==> FirstWith(es, k).Some?
    {
      FirstWithExact(es, k);
    }
  }

  /** `createCandidateMap`; `order` is the insertion order of the map. */
  method CreateCandidateMap(es: seq<Entry>) returns (byKey: map<string, Entry>, order: seq<string>)
    ensures forall k :: FirstWith(es, k) == if k in byKey then Some(byKey[k]) else None
    ensures order == KeysOf(es)
  {
    byKey, order := map[], [];
    for n := 0 to |es|
      invariant forall k :: FirstWith(es[..n], k) == if k in byKey then Some(byKey[k]) else None
      invariant order == KeysOf(es[..n])
    {
      hide FirstWith, KeysOf;
      var e := es[n];
      forall k
        ensures FirstWith(es[..n + 1], k)
             == if k in byKey then Some(byKey[k]) else if e.key == k then Some(e) else None
      {
        FirstWithStep(es, n, k);
      }
      KeysOfStep(es, n);
      KeysOfExact(es[..n]);
      if e.key !in byKey {
        byKey, order := byKey[e.key := e], order + [e.key];
      }
    }
    assert es[..|es|] == es;
  }

  lemma OccurrencesStep(es: seq<Entry>, n: nat, k: string)
    requires n < |es|
    ensures Occurrences(es[..n + 1], k) == Occurrences(es[..n], k) + if es[n].key == k then 1 else 0
  {
    FilterStep(es, n, HasKey(k));
  }

  // ----- counting in a plain record -----

  /** Writing this key of a plain record changes its prototype, or nothing; it never becomes a key of its own. */
  const PROTO := "__proto__"

  predicate Ordinary(k: string) { k != PROTO }

  /** What the record answers for a key that was not counted yet. `inherited` holds the other names that a plain record
      inherits, such as "constructor". */
  function Initially(inherited: set<string>, k: string): Count {
    if k == PROTO || k in inherited then NotANumber else Times(0)
  }

  function Increment(c: Count): Count { if c.Times? then Times(c.n + 1) else NotANumber }

  /** `count <= 1`, which no text satisfies. */
  predicate AtMostOnce(c: Count) { c.Times? && c.n <= 1 }

  function CountOf(inherited: set<string>, es: seq<Entry>, k: string): Count {
    if k == PROTO || k in inherited then NotANumber else Times(Occurrences(es, k))
  }

  function Repeats(inherited: set<string>, es: seq<Entry>): string -> bool {
    (k: string) => !AtMostOnce(CountOf(inherited, es, k))
  }

  function Counted(inherited: set<string>, es: seq<Entry>): string -> (string, Count) {
    (k: string) => (k, CountOf(inherited, es, k))
  }

  /** The keys of the count record whose value is not at most one, with that value, in the order of the collation. */
  function Duplicates(inherited: set<string>, es: seq<Entry>, collate: (string, string) -> bool)
    : seq<(string, Count)>
  {
    Map(Filter(Sort(Filter(KeysOf(es), Ordinary), collate), Repeats(inherited, es)), Counted(inherited, es))
  }

  /** The running counts, and the keys in the order they came up. */
  ghost predicate Counts(inherited: set<string>, seen: seq<Entry>, counts: map<string, Count>, order: seq<string>) {
    && order == Filter(KeysOf(seen), Ordinary)
    && (forall k :: k in order <==> k in counts)
    && (forall k | k in counts :: counts[k] == CountOf(inherited, seen, k))
  }

  lemma KeysOfCounted(es: seq<Entry>, k: string)
    ensures Occurrences(es, k) > 0 <==> k in KeysOf(es)
  {
    hide Filter, KeysOf, FirstWith;
    KeysOfExact(es);
    FirstWithExact(es, k);
    FilterMembers(es, HasKey(k));
    var same := Filter(es, HasKey(k));
    if k in KeysOf(es) {
      assert FirstWith(es, k).value in same;
    }
    if Occurrences(es, k) > 0 {
      assert same[0] in same;
    }
  }

  lemma OrdinaryKeysStep(es: seq<Entry>, n: nat)
    requires n < |es|
    ensures var k, order := es[n].key, Filter(KeysOf(es[..n]), Ordinary);
            Filter(KeysOf(es[..n + 1]), Ordinary) == if k == PROTO || k in order then order else order + [k]
  {
    hide KeysOf, Filter;
    var k, keys := es[n].key, KeysOf(es[..n]);
    KeysOfStep(es, n);
    FilterMembers(keys, Ordinary);
    FilterConcat(keys, [k], Ordinary);
    FilterPrepend(k, [], Ordinary);
    FilterEmpty<string>(Ordinary);
    assert [k] + [] == [k] && Filter(keys, Ordinary) + [] == Filter(keys, Ordinary);
  }

  lemma CountsStep(
      inherited: set<string>, es: seq<Entry>, n: nat, counts: map<string, Count>, order: seq<string>)
    requires n < |es| && Counts(inherited, es[..n], counts, order)
    ensures var k := es[n].key;
            var current := if k in counts then counts[k] else Initially(inherited, k);
            if k == PROTO then Counts(inherited, es[..n + 1], counts, order)
            else Counts(inherited, es[..n + 1], counts[k := Increment(current)],
                        if k in counts then order else order + [k])
  {
    hide Occurrences, KeysOf, Filter;
    forall k
      ensures Occurrences(es[..n + 1], k) == Occurrences(es[..n], k) + if es[n].key == k then 1 else 0
    {
      OccurrencesStep(es, n, k);
    }
    OrdinaryKeysStep(es, n);
    FilterMembers(KeysOf(es[..n]), Ordinary);
    KeysOfCounted(es[..n], es[n].key);
  }

  lemma CountsStart(inherited: set<string>)
    ensures Counts(inherited, [], map[], [])
  {}

  /** One value per key, in a plain record. */
  method CountKeys(inherited: set<string>, es: seq<Entry>) returns (counts: map<string, Count>, order: seq<string>)
    ensures Counts(inherited, es, counts, order)
  {
    hide Counts;
    counts, order := map[], [];
    CountsStart(inherited);
    assert es[..0] == [];
    for n := 0 to |es|
      invariant Counts(inherited, es[..n], counts, order)
    {
      CountsStep(inherited, es, n, counts, order);
      var k := es[n].key;
      var current := if k in counts then counts[k] else Initially(inherited, k);
      if k != PROTO {
        if k !in counts {
          order := order + [k];
        }
        counts := counts[k := Increment(current)];
      }
    }
    assert es[..|es|] == es;
  }

  /** `appendDuplicateCandidateKeyMismatches`: count, sort, and report every value that is not at most one. */
  method DuplicateKeys(inherited: set<string>, es: seq<Entry>, collate: (string, string) -> bool)
    returns (duplicates: seq<(string, Count)>)
    ensures duplicates == Duplicates(inherited, es, collate)
  {
    hide CountOf, KeysOf, Sort, Filter, Map;
    var counts, order := CountKeys(inherited, es);
    var sorted := Sort(order, collate);
    SameElements(sorted, order);
    duplicates := [];
    FilterEmpty(Repeats(inherited, es));
    assert sorted[..0] == [];
    for i := 0 to |sorted|
      invariant duplicates == Map(Filter(sorted[..i], Repeats(inherited, es)), Counted(inherited, es))
    {
      MapFilterStep(sorted, i, Repeats(inherited, es), Counted(inherited, es));
      assert sorted[i] in order;
      var count := counts[sorted[i]];
      if AtMostOnce(count) {
        continue;
      }
      duplicates := duplicates + [(sorted[i], count)];
    }
    assert sorted[..|sorted|] == sorted;
  }

  /** A key that is reported as repeated: it occurs twice, or it occurs and is an inherited name; never "__proto__". */
  ghost predicate Doubled(inherited: set<string>, es: seq<Entry>, k: string) {
    k != PROTO && (if k in inherited then Occurrences(es, k) > 0 else Occurrences(es, k) > 1)
  }

  /** Every key that counts as repeated is listed once, with its value. */
  lemma DuplicatesExact(inherited: set<string>, es: seq<Entry>, collate: (string, string) -> bool)
    ensures forall k: string, c: Count :: (k, c) in Duplicates(inherited, es, collate) <==>
              c == CountOf(inherited, es, k) && Doubled(inherited, es, k)
    ensures Distinct(Duplicates(inherited, es, collate))
  {
    hide Occurrences, KeysOf, Sort, Filter, Map, Distinct;
    KeysOfExact(es);
    var keys := Filter(KeysOf(es), Ordinary);
    DistinctFilter(KeysOf(es), Ordinary);
    FilterMembers(KeysOf(es), Ordinary);
    var sorted := Sort(keys, collate);
    SameElements(sorted, keys);
    DistinctPermutes(keys, sorted);
    DistinctFilter(sorted, Repeats(inherited, es));
    FilterMembers(sorted, Repeats(inherited, es));
    DistinctMap(Filter(sorted, Repeats(inherited, es)), Counted(inherited, es));
    MapMembers(Filter(sorted, Repeats(inherited, es)), Counted(inherited, es));
    forall k: string, c: Count
      ensures (k, c) in Duplicates(inherited, es, collate) <==>
                c == CountOf(inherited, es, k) && Doubled(inherited, es, k)
    {
      KeysOfCounted(es, k);
    }
  }

  function Differs(a: Entry, b: Entry): Field -> bool { (f: Field) => Read(a, f) != Read(b, f) }

  function FieldMismatch(key: string, a: Entry, b: Entry): Field -> Mismatch {
    (f: Field) => Mismatch(key, FieldDiffers(f, Read(a, f), Read(b, f)))
  }

  /** One mismatch for each field that differs, in the order of the fields. */
  function FieldMismatches(key: string, a: Entry, b: Entry): seq<Mismatch> {
    Map(Filter(ComparedFields, Differs(a, b)), FieldMismatch(key, a, b))
  }

  /** `appendCandidateMismatches`. */
  method CompareFields(key: string, a: Entry, b: Entry) returns (r: seq<Mismatch>)
    ensures r == FieldMismatches(key, a, b)
  {
    hide Read, Filter, Map;
    r := [];
    FilterEmpty(Differs(a, b));
    assert ComparedFields[..0] == [];
    for n := 0 to |ComparedFields|
      invariant r == Map(Filter(ComparedFields[..n], Differs(a, b)), FieldMismatch(key, a, b))
    {
      var f := ComparedFields[n];
      MapFilterStep(ComparedFields, n, Differs(a, b), FieldMismatch(key, a, b));
      if Read(a, f) != Read(b, f) {
        r := r + [Mismatch(key, FieldDiffers(f, Read(a, f), Read(b, f)))];
      }
    }
    assert ComparedFields[..|ComparedFields|] == ComparedFields;
  }

  /** A mismatch that comes from comparing the fields of two records. */
  ghost predicate FromFields(key: string, a: Entry, b: Entry, m: Mismatch) {
    && m.key == key && m.difference.FieldDiffers? && m.difference.backtest == Read(a, m.difference.field)
    && m.difference.paper == Read(b, m.difference.field) && m.difference.backtest != m.difference.paper
  }

  lemma FieldMismatchesExact(key: string, a: Entry, b: Entry)
    ensures forall m :: m in FieldMismatches(key, a, b) <==> FromFields(key, a, b, m)
    ensures Distinct(FieldMismatches(key, a, b))
  {
    EveryFieldCompared();
    FieldsDistinct();
    hide Read, Filter, Map, Distinct, ComparedFields;
    DistinctFilter(ComparedFields, Differs(a, b));
    FilterMembers(ComparedFields, Differs(a, b));
    DistinctMap(Filter(ComparedFields, Differs(a, b)), FieldMismatch(key, a, b));
    MapMembers(Filter(ComparedFields, Differs(a, b)), FieldMismatch(key, a, b));
    forall m
      ensures m in FieldMismatches(key, a, b) <==> FromFields(key, a, b, m)
    {
      if m.difference.FieldDiffers? {
        assert FromFields(key, a, b, m) ==> FieldMismatch(key, a, b)(m.difference.field) == m;
      }
    }
  }

  function Rank(f: Field): nat {
    match f
    case ExchangeId => 0 case Market => 1 case Side => 2 case OrderType => 3 case RequestedQuantity => 4
    case RequestedPrice => 5 case LifecycleStatus => 6 case FillStatus => 7 case FillReasonCode => 8
    case FilledQuantity => 9 case RemainingQuantity => 10 case TotalFee => 11 case OrderbookReceivedAt => 12
    case SlippageBps => 13
  }

  lemma FieldsDistinct()
    ensures Distinct(ComparedFields)
  {
    forall i | 0 <= i < |ComparedFields|
      ensures Rank(ComparedFields[i]) == i
    {
      assert i == 0 || i == 1 || i == 2 || i == 3 || i == 4 || i == 5 || i == 6 || i == 7 || i == 8 || i == 9
          || i == 10 || i == 11 || i == 12 || i == 13;
    }
  }

  lemma EveryFieldCompared()
    ensures forall f: Field :: f in ComparedFields
  {
    forall f: Field
      ensures f in ComparedFields
    {
      match f
      case ExchangeId => assert ComparedFields[0] == f;
      case Market => assert ComparedFields[1] == f;
      case Side => assert ComparedFields[2] == f;
      case OrderType => assert ComparedFields[3] == f;
      case RequestedQuantity => assert ComparedFields[4] == f;
      case RequestedPrice => assert ComparedFields[5] == f;
      case LifecycleStatus => assert ComparedFields[6] == f;
      case FillStatus => assert ComparedFields[7] == f;
      case FillReasonCode => assert ComparedFields[8] == f;
      case FilledQuantity => assert ComparedFields[9] == f;
      case RemainingQuantity => assert ComparedFields[10] == f;
      case TotalFee => assert ComparedFields[11] == f;
      case OrderbookReceivedAt => assert ComparedFields[12] == f;
      case SlippageBps => assert ComparedFields[13] == f;
    }
  }

  // ----- the report -----

  /** The mismatches that the two lists deserve, by kind. */
  ghost predicate Justified(inherited: set<string>, backtest: seq<Entry>, paper: seq<Entry>, m: Mismatch) {
    match m.difference
    case DuplicateBacktest(c) => c == CountOf(inherited, backtest, m.key) && Doubled(inherited, backtest, m.key)
    case DuplicatePaper(c) => c == CountOf(inherited, paper, m.key) && Doubled(inherited, paper, m.key)
    case PaperMissing => FirstWith(backtest, m.key).Some? && FirstWith(paper, m.key).None?
    case BacktestMissing => FirstWith(paper, m.key).Some? && FirstWith(backtest, m.key).None?
    case FieldDiffers(f, x, y) =>
      && FirstWith(backtest, m.key).Some? && FirstWith(paper, m.key).Some?
      && x == Read(FirstWith(backtest, m.key).value, f) && y == Read(FirstWith(paper, m.key).value, f) && x != y
  }

  ghost function KeySet(es: seq<Entry>): set<string> { set e | e in es :: e.key }

  lemma KeySetIs(es: seq<Entry>, k: string)
    ensures k in KeySet(es) <==> FirstWith(es, k).Some?
  {
    FirstWithExact(es, k);
  }

  datatype Report = Report(
    matches: bool, backtestCount: nat, paperCount: nat, matchedCount: nat, mismatches: seq<Mismatch>)

  function BacktestDuplicate(d: (string, Count)): Mismatch { Mismatch(d.0, DuplicateBacktest(d.1)) }

  function PaperDuplicate(d: (string, Count)): Mismatch { Mismatch(d.0, DuplicatePaper(d.1)) }

  /** What a backtest key contributes: a missing paper candidate, or the differing fields. */
  function KeyMismatches(backtest: seq<Entry>, paper: seq<Entry>): string -> seq<Mismatch> {
    (k: string) =>
      var a, b := FirstWith(backtest, k), FirstWith(paper, k);
      if a.None? then [] else if b.None? then [Mismatch(k, PaperMissing)] else FieldMismatches(k, a.value, b.value)
  }

  function NotIn(es: seq<Entry>): string -> bool { (k: string) => FirstWith(es, k).None? }

  function MissingHere(k: string): Mismatch { Mismatch(k, BacktestMissing) }

  /** The loop over the backtest keys. */
  method CompareKeys(
      backtest: seq<Entry>, paper: seq<Entry>, backtestByKey: map<string, Entry>, order: seq<string>,
      paperByKey: map<string, Entry>)
    returns (r: seq<Mismatch>, matched: nat)
    requires forall k :: FirstWith(backtest, k) == if k in backtestByKey then Some(backtestByKey[k]) else None
    requires forall k :: FirstWith(paper, k) == if k in paperByKey then Some(paperByKey[k]) else None
    requires forall k | k in order :: k in backtestByKey
    ensures r == Flatten(Map(order, KeyMismatches(backtest, paper)))
    ensures matched == |Filter(order, (k: string) => k in paperByKey)|
  {
    hide FirstWith, FieldMismatches, Filter;
    r, matched := [], 0;
    FilterEmpty((k: string) => k in paperByKey);
    assert order[..0] == [];
    for n := 0 to |order|
      invariant r == Flatten(Map(order[..n], KeyMismatches(backtest, paper)))
      invariant matched == |Filter(order[..n], (k: string) => k in paperByKey)|
    {
      hide Flatten, Map;
      var k := order[n];
      FilterStep(order, n, (k: string) => k in paperByKey);
      FlattenMapStep(order, n, KeyMismatches(backtest, paper));
      assert k in order;
      if k !in paperByKey {
        r := r + [Mismatch(k, PaperMissing)];
        continue;
      }
      matched := matched + 1;
      var differing := CompareFields(k, backtestByKey[k], paperByKey[k]);
      r := r + differing;
    }
    assert order[..|order|] == order;
  }

  /** The loop over the paper keys. */
  method MissingBacktest(backtest: seq<Entry>, backtestByKey: map<string, Entry>, order: seq<string>)
    returns (r: seq<Mismatch>)
    requires forall k :: FirstWith(backtest, k) == if k in backtestByKey then Some(backtestByKey[k]) else None
    ensures r == Map(Filter(order, NotIn(backtest)), MissingHere)
  {
    hide FirstWith, Filter, Map;
    r := [];
    FilterEmpty(NotIn(backtest));
    assert order[..0] == [];
    for n := 0 to |order|
      invariant r == Map(Filter(order[..n], NotIn(backtest)), MissingHere)
    {
      MapFilterStep(order, n, NotIn(backtest), MissingHere);
      if order[n] !in backtestByKey {
        r := r + [Mismatch(order[n], BacktestMissing)];
      }
    }
    assert order[..|order|] == order;
  }

  /** The whole list, in the order it is reported: repeated keys of either side, then key by key. */
  ghost function AllMismatches(
      inherited: set<string>, backtest: seq<Entry>, paper: seq<Entry>, collate: (string, string) -> bool)
    : seq<Mismatch>
  {
    Map(Duplicates(inherited, backtest, collate), BacktestDuplicate)
    + Map(Duplicates(inherited, paper, collate), PaperDuplicate)
    + Flatten(Map(KeysOf(backtest), KeyMismatches(backtest, paper)))
    + Map(Filter(KeysOf(paper), NotIn(backtest)), MissingHere)
  }

  /** `createBacktestPaperConsistencyReport`. */
  method CreateConsistencyReport(
      inherited: set<string>, backtest: seq<Entry>, paper: seq<Entry>, collate: (string, string) -> bool)
    returns (report: Report)
    ensures report.mismatches == AllMismatches(inherited, backtest, paper, collate)
    ensures forall m :: m in report.mismatches <==> Justified(inherited, backtest, paper, m)
    ensures Distinct(report.mismatches)
    ensures report.matches <==> ConsistentAsCounted(inherited, backtest, paper)
    ensures report.matchedCount == |KeySet(backtest) * KeySet(paper)|
    ensures report.backtestCount == |backtest| && report.paperCount == |paper|
  {
    hide FirstWith, Filter, Map, ConsistentAsCounted, Distinct, KeySet, KeysOf, Duplicates, Flatten, Justified;
    var backtestByKey, backtestOrder := CreateCandidateMap(backtest);
    var paperByKey, paperOrder := CreateCandidateMap(paper);
    var backtestDuplicates := DuplicateKeys(inherited, backtest, collate);
    var paperDuplicates := DuplicateKeys(inherited, paper, collate);
    KeysOfExact(backtest);
    var mismatches := Map(backtestDuplicates, BacktestDuplicate) + Map(paperDuplicates, PaperDuplicate);
    var compared, matched := CompareKeys(backtest, paper, backtestByKey, backtestOrder, paperByKey);
    var missing := MissingBacktest(backtest, backtestByKey, paperOrder);
    MatchedIsIntersection(backtest, paper, backtestOrder, paperByKey);
    MatchesIff(inherited, backtest, paper);
    var all := mismatches + compared + missing;
    NoMembers(all);
    AllMismatchesExact(inherited, backtest, paper, collate);
    report := Report(all == [], |backtest|, |paper|, matched, all);
  }

  // ----- the list holds each deserved mismatch once -----

  lemma DuplicatePart(
      inherited: set<string>, es: seq<Entry>, collate: (string, string) -> bool, convert: ((string, Count)) -> Mismatch)
    requires forall d, e | convert(d) == convert(e) :: d == e
    ensures Distinct(Map(Duplicates(inherited, es, collate), convert))
    ensures forall m :: m in Map(Duplicates(inherited, es, collate), convert) <==>
              exists d | d in Duplicates(inherited, es, collate) :: convert(d) == m
  {
    hide Duplicates, Map, Distinct;
    DuplicatesExact(inherited, es, collate);
    DistinctMap(Duplicates(inherited, es, collate), convert);
    MapMembers(Duplicates(inherited, es, collate), convert);
  }

  lemma BacktestDuplicatePart(
      inherited: set<string>, backtest: seq<Entry>, paper: seq<Entry>, collate: (string, string) -> bool)
    ensures var r := Map(Duplicates(inherited, backtest, collate), BacktestDuplicate);
            Distinct(r)
            && forall m :: m in r <==> m.difference.DuplicateBacktest? && Justified(inherited, backtest, paper, m)
  {
    hide Duplicates, Map, Distinct, Occurrences, FirstWith, Read;
    DuplicatePart(inherited, backtest, collate, BacktestDuplicate);
    DuplicatesExact(inherited, backtest, collate);
    var r := Map(Duplicates(inherited, backtest, collate), BacktestDuplicate);
    forall m
      ensures m in r <==> m.difference.DuplicateBacktest? && Justified(inherited, backtest, paper, m)
    {
      if m.difference.DuplicateBacktest? {
        assert BacktestDuplicate((m.key, m.difference.count)) == m;
      }
    }
  }

  lemma PaperDuplicatePart(
      inherited: set<string>, backtest: seq<Entry>, paper: seq<Entry>, collate: (string, string) -> bool)
    ensures var r := Map(Duplicates(inherited, paper, collate), PaperDuplicate);
            Distinct(r)
            && forall m :: m in r <==> m.difference.DuplicatePaper? && Justified(inherited, backtest, paper, m)
  {
    hide Duplicates, Map, Distinct, Occurrences, FirstWith, Read;
    DuplicatePart(inherited, paper, collate, PaperDuplicate);
    DuplicatesExact(inherited, paper, collate);
    var r := Map(Duplicates(inherited, paper, collate), PaperDuplicate);
    forall m
      ensures m in r <==> m.difference.DuplicatePaper? && Justified(inherited, backtest, paper, m)
    {
      if m.difference.DuplicatePaper? {
        assert PaperDuplicate((m.key, m.difference.count)) == m;
      }
    }
  }

  lemma KeyMismatchesExact(inherited: set<string>, backtest: seq<Entry>, paper: seq<Entry>, k: string)
    ensures Distinct(KeyMismatches(backtest, paper)(k))
    ensures forall m :: m in KeyMismatches(backtest, paper)(k) <==>
              m.key == k && (m.difference.PaperMissing? || m.difference.FieldDiffers?)
              && Justified(inherited, backtest, paper, m)
  {
    hide FirstWith, Read, FieldMismatches, Occurrences;
    var a, b := FirstWith(backtest, k), FirstWith(paper, k);
    if a.Some? && b.Some? {
      hide Distinct;
      FieldMismatchesExact(k, a.value, b.value);
    }
  }

  lemma ComparedPart(inherited: set<string>, backtest: seq<Entry>, paper: seq<Entry>)
    ensures var r := Flatten(Map(KeysOf(backtest), KeyMismatches(backtest, paper)));
            && Distinct(r)
            && forall m :: m in r <==>
                 (m.difference.PaperMissing? || m.difference.FieldDiffers?) && Justified(inherited, backtest, paper, m)
  {
    var f, keys := KeyMismatches(backtest, paper), KeysOf(backtest);
    forall k
      ensures Distinct(f(k))
      ensures forall m :: m in f(k) <==>
                m.key == k && (m.difference.PaperMissing? || m.difference.FieldDiffers?)
                && Justified(inherited, backtest, paper, m)
    {
      KeyMismatchesExact(inherited, backtest, paper, k);
    }
    KeysOfExact(backtest);
    hide KeyMismatches, KeysOf, Map, Flatten, Distinct, FirstWith, Read, Occurrences;
    FlattenMapMembers(keys, f);
    FlattenMapDistinct(keys, f);
    forall m: Mismatch
      ensures m in Flatten(Map(keys, f)) <==>
                (m.difference.PaperMissing? || m.difference.FieldDiffers?) && Justified(inherited, backtest, paper, m)
    {
      assert m in f(m.key) && m.key in keys ==> exists k | k in keys :: m in f(k);
    }
  }

  lemma MissingPart(inherited: set<string>, backtest: seq<Entry>, paper: seq<Entry>)
    ensures var r := Map(Filter(KeysOf(paper), NotIn(backtest)), MissingHere);
            Distinct(r)
            && forall m :: m in r <==> m.difference.BacktestMissing? && Justified(inherited, backtest, paper, m)
  {
    hide KeysOf, Map, Filter, Distinct, FirstWith, Read, Occurrences;
    KeysOfExact(paper);
    DistinctFilter(KeysOf(paper), NotIn(backtest));
    FilterMembers(KeysOf(paper), NotIn(backtest));
    var keys := Filter(KeysOf(paper), NotIn(backtest));
    DistinctMap(keys, MissingHere);
    MapMembers(keys, MissingHere);
    forall m
      ensures m in Map(keys, MissingHere) <==> m.difference.BacktestMissing? && Justified(inherited, backtest, paper, m)
    {
      assert m.difference.BacktestMissing? ==> MissingHere(m.key) == m;
    }
  }

  /** The list holds exactly the justified mismatches, each once. */
  lemma AllMismatchesExact(
      inherited: set<string>, backtest: seq<Entry>, paper: seq<Entry>, collate: (string, string) -> bool)
    ensures forall m ::
              m in AllMismatches(inherited, backtest, paper, collate) <==> Justified(inherited, backtest, paper, m)
    ensures Distinct(AllMismatches(inherited, backtest, paper, collate))
  {
    hide Duplicates, Map, Flatten, Filter, Distinct, KeysOf, Justified, KeyMismatches;
    BacktestDuplicatePart(inherited, backtest, paper, collate);
    PaperDuplicatePart(inherited, backtest, paper, collate);
    ComparedPart(inherited, backtest, paper);
    MissingPart(inherited, backtest, paper);
    var a := Map(Duplicates(inherited, backtest, collate), BacktestDuplicate);
    var b := Map(Duplicates(inherited, paper, collate), PaperDuplicate);
    var c := Flatten(Map(KeysOf(backtest), KeyMismatches(backtest, paper)));
    var d := Map(Filter(KeysOf(paper), NotIn(backtest)), MissingHere);
    DistinctConcat(a, b);
    DistinctConcat(a + b, c);
    DistinctConcat(a + b + c, d);
    forall m
      ensures m in AllMismatches(inherited, backtest, paper, collate) <==> m in a || m in b || m in c || m in d
    {
      assert AllMismatches(inherited, backtest, paper, collate) == a + b + c + d;
    }
  }

  lemma {:induction false} DistinctCardinality<T(!new)>(s: seq<T>)
    requires Distinct(s)
    ensures |(set x | x in s)| == |s|
  {
    if s != [] {
      var init, last := s[..|s| - 1], s[|s| - 1];
      assert s == init + [last];
      DistinctCardinality(init);
      assert last !in init;
      assert (set x | x in s) == (set x | x in init) + {last};
    }
  }

  /** The matched count is the size of the key intersection. */
  lemma MatchedIsIntersection(
      backtest: seq<Entry>, paper: seq<Entry>, order: seq<string>, paperByKey: map<string, Entry>)
    requires Distinct(order)
    requires forall k :: k in order <==> FirstWith(backtest, k).Some?
    requires forall k :: k in paperByKey <==> FirstWith(paper, k).Some?
    ensures |Filter(order, (k: string) => k in paperByKey)| == |KeySet(backtest) * KeySet(paper)|
  {
    hide FirstWith, KeySet;
    var inPaper := (k: string) => k in paperByKey;
    DistinctFilter(order, inPaper);
    FilterMembers(order, inPaper);
    hide Filter;
    var matched := Filter(order, inPaper);
    DistinctCardinality(matched);
    forall k
      ensures k in matched <==> k in KeySet(backtest) && k in KeySet(paper)
    {
      KeySetIs(backtest, k);
      KeySetIs(paper, k);
    }
    assert (set k | k in matched) == KeySet(backtest) * KeySet(paper);
  }

  // ----- what a match means -----

  /** Records that say the same: equal in everything but the strategy. */
  predicate SameOutcome(a: Entry, b: Entry) { a == b.(strategyId := a.strategyId) }

  /** Keys are unique on both sides, the key sets are equal, and records of one key say the same. */
  ghost predicate Consistent(backtest: seq<Entry>, paper: seq<Entry>) {
    && Distinct(Map(backtest, Key)) && Distinct(Map(paper, Key)) && KeySet(backtest) == KeySet(paper)
    && forall a, b | a in backtest && b in paper && a.key == b.key :: SameOutcome(a, b)
  }

  /** The fourteen compared fields are all of a record but its key and strategy. */
  lemma FieldsDecide(a: Entry, b: Entry)
    requires a.key == b.key
    ensures (forall f: Field :: Read(a, f) == Read(b, f)) <==> SameOutcome(a, b)
  {
    if forall f: Field :: Read(a, f) == Read(b, f) {
      assert Read(a, ExchangeId) == Read(b, ExchangeId) && Read(a, Market) == Read(b, Market);
      assert Read(a, Side) == Read(b, Side) && Read(a, OrderType) == Read(b, OrderType);
      assert Read(a, RequestedQuantity) == Read(b, RequestedQuantity);
      assert Read(a, RequestedPrice) == Read(b, RequestedPrice);
      assert Read(a, LifecycleStatus) == Read(b, LifecycleStatus) && Read(a, FillStatus) == Read(b, FillStatus);
      assert Read(a, FillReasonCode) == Read(b, FillReasonCode) && Read(a, FilledQuantity) == Read(b, FilledQuantity);
      assert Read(a, RemainingQuantity) == Read(b, RemainingQuantity) && Read(a, TotalFee) == Read(b, TotalFee);
      assert Read(a, OrderbookReceivedAt) == Read(b, OrderbookReceivedAt);
      assert Read(a, SlippageBps) == Read(b, SlippageBps);
    }
  }

  /** Keys do not repeat, except "__proto__", whose repetition the count record cannot hold. */
  ghost predicate UniqueButProto(es: seq<Entry>) {
    forall i, j | 0 <= i < j < |es| && es[i].key == es[j].key :: es[i].key == "__proto__"
  }

  /** What a match means: no key is an inherited name, keys are unique on both sides but for "__proto__", the key sets
      are equal, and the first records of one key say the same. */
  ghost predicate ConsistentAsCounted(inherited: set<string>, backtest: seq<Entry>, paper: seq<Entry>) {
    && (forall e | e in backtest || e in paper :: e.key == "__proto__" || e.key !in inherited)
    && UniqueButProto(backtest) && UniqueButProto(paper) && KeySet(backtest) == KeySet(paper)
    && forall k | FirstWith(backtest, k).Some? && FirstWith(paper, k).Some? ::
         SameOutcome(FirstWith(backtest, k).value, FirstWith(paper, k).value)
  }

  lemma NoneDoubledIff(inherited: set<string>, es: seq<Entry>)
    ensures (forall k :: !Doubled(inherited, es, k)) <==>
              UniqueButProto(es) && forall e | e in es :: e.key == PROTO || e.key !in inherited
  {
    hide Filter;
    forall k
      ensures Occurrences(es, k) <= 1 <==> AtMostOne(es, HasKey(k))
      ensures Occurrences(es, k) == 0 <==> forall e | e in es :: e.key != k
    {
      FilterAtMostOne(es, HasKey(k));
    }
    hide Occurrences;
    if forall k :: !Doubled(inherited, es, k) {
      forall i, j | 0 <= i < j < |es| && es[i].key == es[j].key
        ensures es[i].key == PROTO
      {
        assert es[i] in es && !Doubled(inherited, es, es[i].key);
        assert HasKey(es[i].key)(es[i]) && HasKey(es[i].key)(es[j]);
      }
      forall e | e in es
        ensures e.key == PROTO || e.key !in inherited
      {
        assert !Doubled(inherited, es, e.key);
      }
    }
  }

  /** No mismatch is justified if and only if the two lists are consistent as counted. */
  lemma MatchesIff(inherited: set<string>, backtest: seq<Entry>, paper: seq<Entry>)
    ensures (forall m :: !Justified(inherited, backtest, paper, m)) <==> ConsistentAsCounted(inherited, backtest, paper)
  {
    hide FirstWith, Read, Occurrences, KeySet, SameOutcome, Doubled, UniqueButProto, CountOf;
    NoneDoubledIff(inherited, backtest);
    NoneDoubledIff(inherited, paper);
    if ConsistentAsCounted(inherited, backtest, paper) {
      forall m
        ensures !Justified(inherited, backtest, paper, m)
      {
        ConsistentUnjustified(inherited, backtest, paper, m);
      }
    }
    if forall m :: !Justified(inherited, backtest, paper, m) {
      forall k
        ensures !Doubled(inherited, backtest, k) && !Doubled(inherited, paper, k)
      {
        assert !Justified(inherited, backtest, paper, Mismatch(k, DuplicateBacktest(CountOf(inherited, backtest, k))));
        assert !Justified(inherited, backtest, paper, Mismatch(k, DuplicatePaper(CountOf(inherited, paper, k))));
      }
      forall k
        ensures k in KeySet(backtest) <==> k in KeySet(paper)
      {
        KeySetIs(backtest, k);
        KeySetIs(paper, k);
        assert !Justified(inherited, backtest, paper, Mismatch(k, PaperMissing));
        assert !Justified(inherited, backtest, paper, Mismatch(k, BacktestMissing));
      }
      forall k | FirstWith(backtest, k).Some? && FirstWith(paper, k).Some?
        ensures SameOutcome(FirstWith(backtest, k).value, FirstWith(paper, k).value)
      {
        FirstsAgree(inherited, backtest, paper, k);
      }
    }
  }

  lemma FirstsAgree(inherited: set<string>, backtest: seq<Entry>, paper: seq<Entry>, k: string)
    requires FirstWith(backtest, k).Some? && FirstWith(paper, k).Some?
    requires forall m :: !Justified(inherited, backtest, paper, m)
    ensures SameOutcome(FirstWith(backtest, k).value, FirstWith(paper, k).value)
  {
    hide FirstWith, Read, Doubled, SameOutcome;
    var a, b := FirstWith(backtest, k).value, FirstWith(paper, k).value;
    forall f: Field
      ensures Read(a, f) == Read(b, f)
    {
      assert !Justified(inherited, backtest, paper, Mismatch(k, FieldDiffers(f, Read(a, f), Read(b, f))));
    }
    FirstWithExact(backtest, k);
    FirstWithExact(paper, k);
    FieldsDecide(a, b);
  }

  lemma ConsistentUnjustified(inherited: set<string>, backtest: seq<Entry>, paper: seq<Entry>, m: Mismatch)
    requires ConsistentAsCounted(inherited, backtest, paper)
    ensures !Justified(inherited, backtest, paper, m)
  {
    hide FirstWith, Read, Occurrences, KeySet, SameOutcome, Doubled, UniqueButProto;
    NoneDoubledIff(inherited, backtest);
    NoneDoubledIff(inherited, paper);
    KeySetIs(backtest, m.key);
    KeySetIs(paper, m.key);
    FirstWithExact(backtest, m.key);
    FirstWithExact(paper, m.key);
    if FirstWith(backtest, m.key).Some? && FirstWith(paper, m.key).Some? {
      FieldsDecide(FirstWith(backtest, m.key).value, FirstWith(paper, m.key).value);
    }
  }

  // ----- where a match means consistency -----

  lemma {:induction false} UniqueIsFirst(es: seq<Entry>, e: Entry)
    requires Distinct(Map(es, Key)) && e in es
    ensures FirstWith(es, e.key) == Some(e)
  {
    hide Map;
    FirstWithExact(es, e.key);
    var i :| 0 <= i < |es| && es[i] == e;
    var first := FirstWith(es, e.key).value;
    var j :| 0 <= j < |es| && es[j] == first;
    assert Map(es, Key)[i] == Map(es, Key)[j];
  }

  lemma UniqueWithoutProto(es: seq<Entry>)
    requires forall e | e in es :: e.key != PROTO
    ensures UniqueButProto(es) <==> Distinct(Map(es, Key))
  {
    hide Map;
    assert forall i | 0 <= i < |es| :: es[i] in es && Map(es, Key)[i] == es[i].key;
  }

  /** For keys that a plain record can count, a report matches if and only if keys are unique on both sides, key sets
      are equal and records of one key say the same. */
  lemma MatchMeansConsistent(inherited: set<string>, backtest: seq<Entry>, paper: seq<Entry>)
    requires forall e | e in backtest || e in paper :: e.key != "__proto__" && e.key !in inherited
    ensures ConsistentAsCounted(inherited, backtest, paper) <==> Consistent(backtest, paper)
  {
    hide Map, FirstWith, SameOutcome, KeySet, Distinct, UniqueButProto;
    UniqueWithoutProto(backtest);
    UniqueWithoutProto(paper);
    if Distinct(Map(backtest, Key)) && Distinct(Map(paper, Key)) {
      forall k | FirstWith(backtest, k).Some? && FirstWith(paper, k).Some?
        ensures FirstWith(backtest, k).value in backtest && FirstWith(paper, k).value in paper
        ensures FirstWith(backtest, k).value.key == k == FirstWith(paper, k).value.key
      {
        FirstWithExact(backtest, k);
        FirstWithExact(paper, k);
      }
      forall a, b | a in backtest && b in paper && a.key == b.key
        ensures FirstWith(backtest, a.key) == Some(a) && FirstWith(paper, a.key) == Some(b)
      {
        UniqueIsFirst(backtest, a);
        UniqueIsFirst(paper, b);
      }
    }
  }

  /** One candidate on either side, equal in everything, is reported as a duplicate if its key is an inherited name. */
  lemma ConstructorExample(inherited: set<string>, e: Entry)
    requires e.key == "constructor" && "constructor" in inherited
    ensures Consistent([e], [e]) && !ConsistentAsCounted(inherited, [e], [e])
    ensures Justified(inherited, [e], [e], Mismatch("constructor", DuplicateBacktest(NotANumber)))
  {
    hide Map, FirstWith, Read;
    assert e in [e];
    assert "constructor"[0] != PROTO[0];
    hide PROTO;
    FilterAtMostOne([e], HasKey("constructor"));
    hide Filter;
    assert HasKey("constructor")(e);
  }

  /** A repeated "__proto__" key is never reported. */
  lemma ProtoExample(inherited: set<string>, e: Entry)
    requires e.key == "__proto__"
    ensures !Consistent([e, e], [e, e]) && ConsistentAsCounted(inherited, [e, e], [e, e])
  {
    hide Map, FirstWith;
    var keys := Map([e, e], Key);
    assert keys[0] == keys[1];
  }
}
