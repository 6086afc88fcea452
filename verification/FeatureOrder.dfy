/** Feature input ordering: events become order candidates, are validated, and are sorted, so that no feature can
    depend on the order in which events arrived. */
module FeatureOrder {
  import opened Sequences
  import opened MarketReplay
  import opened DecimalText
  import opened JsonText

  /** Prices and quantities are kept as text; a feature parses what it reads. */
  datatype BookLevel = BookLevel(price: string, size: string)

  datatype TradeSide = Bid | Ask | Unknown

  datatype Body =
    | Trade(receivedNanos: int, tradeId: string, price: string, quantity: string, side: TradeSide)
    | Book(receivedNanos: int, asks: seq<BookLevel>, bids: seq<BookLevel>)
    | Ticker(receivedNanos: int, tradePrice: string, changeRate: string, volume: string)
    | Status(status: string, reasonCode: string, lagMs: Option<int>, reconnects: Option<int>)

  /** An order text on the event: missing, usable, or present but not a non-empty string. */
  datatype OrderText = Absent | Given(text: string) | Unusable

  /** `extra` stands for everything the canonical payload leaves out. */
  datatype FeatureEvent = FeatureEvent(
    exchangeId: string, market: Option<string>, nanos: int, body: Body, sequence: OrderText, tieBreakKey: OrderText,
    extra: string)

  /** The fields that the canonical payload lists: all that any feature reads. */
  datatype Canonical = Canonical(exchangeId: string, market: string, nanos: int, body: Body)

  datatype Candidate = Candidate(key: OrderKey, market: Option<string>, canonical: Canonical, payloadKey: string)

  /** What is left of a candidate for the features. */
  datatype View = View(key: OrderKey, canonical: Canonical)

  datatype Reason = InsufficientInput | InvalidMarketValue | InvalidDecimal

  function CanonicalOf(e: FeatureEvent): Canonical {
    Canonical(e.exchangeId, MarketText(e.market), e.nanos, e.body)
  }

  // ----- canonical payload -----

  function SideText(side: TradeSide): string {
    match side
    case Bid => "BID"
    case Ask => "ASK"
    case Unknown => "UNKNOWN"
  }

  function OrStar(n: Option<int>): Json { if n.Some? then JNumber(n.value) else JText("*") }

  function Pair(l: BookLevel): Json { JArray(List([JText(l.price), JText(l.size)])) }

  /** `orderbookLevelPayloadKey`. */
  function Levels(levels: seq<BookLevel>): Json { JArray(List(Map(levels, Pair))) }

  /** What every payload starts with. */
  function Front(c: Canonical): seq<Json> {
    [JText(KindText(c.body)), JText(c.exchangeId), JText(c.market), JText(IntText(c.nanos))]
  }

  function Rest(b: Body): seq<Json> {
    match b
    case Trade(received, tradeId, price, quantity, side) =>
      [JText(IntText(received)), JText(tradeId), JText(price), JText(quantity), JText(SideText(side))]
    case Book(received, asks, bids) => [JText(IntText(received)), Levels(asks), Levels(bids)]
    case Ticker(received, tradePrice, changeRate, volume) =>
      [JText(IntText(received)), JText(tradePrice), JText(changeRate), JText(volume)]
    case Status(status, reasonCode, lagMs, reconnects) =>
      [JText(status), JText(reasonCode), OrStar(lagMs), OrStar(reconnects)]
  }

  /** The array that the payload key is the text of. */
  function Payload(c: Canonical): Json { JArray(List(Front(c) + Rest(c.body))) }

  function KindText(b: Body): string {
    match b
    case Trade(_, _, _, _, _) => "trade"
    case Book(_, _, _) => "orderbook"
    case Ticker(_, _, _, _) => "ticker"
    case Status(_, _, _, _) => "status"
  }

  /** `createCanonicalEventPayloadKey`. */
  function PayloadText(c: Canonical): string { Stringify(Payload(c)) }

  lemma IntTextExact(m: int, n: int)
    ensures IntText(m) == IntText(n) <==> m == n
  {
    if IntText(m) == IntText(n) {
      assert IntText(m) + "" == IntText(n) + "";
      IntTextSplit(m, n, "", "");
    }
  }

  lemma PairExact(a: BookLevel, b: BookLevel)
    ensures Pair(a) == Pair(b) <==> a == b
  {
    var x, y := [JText(a.price), JText(a.size)], [JText(b.price), JText(b.size)];
    ListExact(x, y);
    assert x == y ==> x[0] == y[0] && x[1] == y[1];
  }

  lemma LevelsExact(a: seq<BookLevel>, b: seq<BookLevel>)
    ensures Levels(a) == Levels(b) <==> a == b
  {
    hide Map, Pair, List;
    var x, y := Map(a, Pair), Map(b, Pair);
    ListExact(x, y);
    if x == y {
      forall i | 0 <= i < |a|
        ensures a[i] == b[i]
      {
        assert x[i] == Pair(a[i]) && y[i] == Pair(b[i]);
        PairExact(a[i], b[i]);
      }
    }
  }

  lemma KindTextExact(a: Body, b: Body)
    ensures KindText(a) == KindText(b) ==>
              a.Trade? == b.Trade? && a.Book? == b.Book? && a.Ticker? == b.Ticker? && a.Status? == b.Status?
  {
    assert "trade"[1] == 'r' && "ticker"[1] == 'i' && "orderbook"[0] == 'o' && "status"[0] == 's';
  }

  lemma SideTextExact(a: TradeSide, b: TradeSide)
    ensures SideText(a) == SideText(b) ==> a == b
  {
    assert "BID"[0] == 'B' && "ASK"[0] == 'A' && "UNKNOWN"[0] == 'U';
  }

  lemma BodyExact(a: Body, b: Body)
    requires Rest(a) == Rest(b)
    requires a.Trade? == b.Trade? && a.Book? == b.Book? && a.Ticker? == b.Ticker? && a.Status? == b.Status?
    ensures a == b
  {
    hide IntText, Levels, SideText;
    var x, y := Rest(a), Rest(b);
    assert x[0] == y[0] && x[1] == y[1] && x[2] == y[2];
    match a
    case Trade(received, _, _, _, side) =>
      assert x[3] == y[3] && x[4] == y[4];
      IntTextExact(received, b.receivedNanos);
      SideTextExact(side, b.side);
    case Book(received, asks, bids) =>
      IntTextExact(received, b.receivedNanos);
      LevelsExact(asks, b.asks);
      LevelsExact(bids, b.bids);
    case Ticker(received, _, _, _) =>
      assert x[3] == y[3];
      IntTextExact(received, b.receivedNanos);
    case Status(_, _, _, _) =>
      assert x[3] == y[3];
  }

  lemma FrontExact(a: Canonical, b: Canonical)
    requires Front(a) == Front(b)
    ensures KindText(a.body) == KindText(b.body) && a.exchangeId == b.exchangeId && a.market == b.market
    ensures a.nanos == b.nanos
  {
    hide IntText, KindText;
    var x, y := Front(a), Front(b);
    assert x[0] == y[0] && x[1] == y[1] && x[2] == y[2] && x[3] == y[3];
    IntTextExact(a.nanos, b.nanos);
  }

  /** The payload text determines everything that a feature may read: equal texts, equal payloads. */
  lemma PayloadTextExact(a: Canonical, b: Canonical)
    ensures PayloadText(a) == PayloadText(b) <==> a == b
  {
    hide Stringify, List, Front, Rest, KindText;
    StringifyInjective(Payload(a), Payload(b));
    var x, y := Front(a) + Rest(a.body), Front(b) + Rest(b.body);
    ListExact(x, y);
    if x == y {
      FrontLength(a);
      FrontLength(b);
      assert Front(a) == x[..4] && Front(b) == y[..4] && Rest(a.body) == x[4..] && Rest(b.body) == y[4..];
      FrontExact(a, b);
      KindTextExact(a.body, b.body);
      BodyExact(a.body, b.body);
    }
  }

  lemma FrontLength(c: Canonical)
    ensures |Front(c)| == 4
  {}

  // ----- candidates -----

  function FallbackSequence(e: FeatureEvent): string {
    match e.body
    case Trade(_, tradeId, _, _, _) => "trade:" + tradeId
    case Book(received, _, _) => "orderbook:" + IntText(received)
    case Ticker(received, _, _, _) => "ticker:" + IntText(received)
    case Status(status, _, _, _) => "status:" + status + ":" + IntText(e.nanos)
  }

  predicate Usable(e: FeatureEvent) {
    && !e.sequence.Unusable? && e.sequence != Given("")
    && !e.tieBreakKey.Unusable? && e.tieBreakKey != Given("")
  }

  /** `createEventOrderCandidate`. */
  function CandidateOf(e: FeatureEvent): Candidate {
    var canonical := CanonicalOf(e);
    var sequence := if e.sequence.Given? then e.sequence.text else FallbackSequence(e);
    var tieBreak := if e.tieBreakKey.Given? then e.tieBreakKey.text else PayloadText(canonical);
    Candidate(OrderKey(e.nanos, e.exchangeId, MarketText(e.market), sequence, tieBreak), e.market, canonical,
              PayloadText(canonical))
  }

  function ViewOf(c: Candidate): View { View(c.key, c.canonical) }

  /** The event comparator only looks at the order key. */
  function Proxy(k: OrderKey): MarketEvent {
    MarketEvent("", k.exchangeId, Some(k.market), k.nanos, k.sequence, k.tieBreakKey, "", "")
  }

  function CandidateNotAfter(a: Candidate, b: Candidate): bool { NotAfter(Proxy(a.key), Proxy(b.key)) }

  function ViewNotAfter(a: View, b: View): bool { NotAfter(Proxy(a.key), Proxy(b.key)) }

  // ----- validation -----

  ghost predicate SingleScope(cs: seq<Candidate>) {
    && (forall a, b | a in cs && b in cs :: a.key.exchangeId == b.key.exchangeId)
    && (forall a, b | a in cs && b in cs && a.market.Some? && b.market.Some? :: a.market == b.market)
  }

  ghost predicate ConsistentPayloads(cs: seq<Candidate>) {
    forall a, b | a in cs && b in cs && a.key == b.key :: a.payloadKey == b.payloadKey
  }

  /** `validateSingleMarketBoundary`: remembers the first exchange and the first market it meets. */
  method ValidateSingleMarketBoundary(cs: seq<Candidate>) returns (ok: bool)
    ensures ok <==> SingleScope(cs)
  {
    var exchange: Option<string>, market: Option<string> := None, None;
    for n := 0 to |cs|
      invariant exchange.Some? <==> n > 0
      invariant forall i | 0 <= i < n :: exchange == Some(cs[i].key.exchangeId)
      invariant forall i | 0 <= i < n && cs[i].market.Some? :: market == cs[i].market
      invariant market.Some? ==> exists i | 0 <= i < n :: cs[i].market == market
    {
      var c := cs[n];
      assert c in cs;
      if exchange.None? {
        exchange := Some(c.key.exchangeId);
      } else if exchange.value != c.key.exchangeId {
        assert cs[0] in cs;
        return false;
      }
      if c.market.Some? {
        if market.None? {
          market := c.market;
        } else if market != c.market {
          ghost var i :| 0 <= i < n && cs[i].market == market;
          assert cs[i] in cs;
          return false;
        }
      }
    }
    return true;
  }

  function CountAt(cs: seq<Candidate>, t: int): nat {
    if cs == [] then 0
    else CountAt(cs[..|cs| - 1], t) + if cs[|cs| - 1].key.nanos == t then 1 else 0
  }

  lemma {:induction false} CountAtLeast(cs: seq<Candidate>, t: int, i: nat, j: nat)
    requires i < j < |cs| && cs[i].key.nanos == t && cs[j].key.nanos == t
    ensures CountAt(cs, t) >= 2
  {
    var init := cs[..|cs| - 1];
    if j < |cs| - 1 {
      CountAtLeast(init, t, i, j);
    } else {
      CountAtOne(init, t, i);
    }
  }

  lemma {:induction false} CountAtOne(cs: seq<Candidate>, t: int, i: nat)
    requires i < |cs| && cs[i].key.nanos == t
    ensures CountAt(cs, t) >= 1
  {
    if i < |cs| - 1 {
      CountAtOne(cs[..|cs| - 1], t, i);
    }
  }

  /** How many candidates share each timestamp. */
  method CountTimestamps(cs: seq<Candidate>) returns (counts: map<int, nat>)
    ensures forall i | 0 <= i < |cs| ::
              cs[i].key.nanos in counts && counts[cs[i].key.nanos] == CountAt(cs, cs[i].key.nanos)
  {
    counts := map[];
    for n := 0 to |cs|
      invariant forall t :: (if t in counts then counts[t] else 0) == CountAt(cs[..n], t)
      invariant forall i | 0 <= i < n :: cs[i].key.nanos in counts
    {
      var t := cs[n].key.nanos;
      assert cs[..n + 1][..n] == cs[..n];
      counts := counts[t := (if t in counts then counts[t] else 0) + 1];
    }
    assert cs[..|cs|] == cs;
  }

  /** What the scan remembers of the candidates that share their timestamp. */
  ghost predicate Remembers(cs: seq<Candidate>, n: nat, seen: map<OrderKey, string>)
    requires n <= |cs|
  {
    && (forall i | 0 <= i < n && CountAt(cs, cs[i].key.nanos) >= 2 ::
          cs[i].key in seen && seen[cs[i].key] == cs[i].payloadKey)
    && (forall k | k in seen :: exists i | 0 <= i < n :: cs[i].key == k && seen[k] == cs[i].payloadKey)
  }

  lemma RememberedConsistent(cs: seq<Candidate>, seen: map<OrderKey, string>)
    requires Remembers(cs, |cs|, seen)
    ensures ConsistentPayloads(cs)
  {
    hide CountAt;
    forall a, b | a in cs && b in cs && a.key == b.key
      ensures a.payloadKey == b.payloadKey
    {
      var i :| 0 <= i < |cs| && cs[i] == a;
      var j :| 0 <= j < |cs| && cs[j] == b;
      if i < j {
        CountAtLeast(cs, a.key.nanos, i, j);
      } else if j < i {
        CountAtLeast(cs, a.key.nanos, j, i);
      }
    }
  }

  /** `validateDuplicateTimestampOrderKeys`: timestamps that occur once are skipped. */
  method ValidateDuplicateOrderKeys(cs: seq<Candidate>) returns (ok: bool)
    ensures ok <==> ConsistentPayloads(cs)
  {
    hide CountAt;
    var counts := CountTimestamps(cs);
    var seen: map<OrderKey, string> := map[];
    for n := 0 to |cs|
      invariant Remembers(cs, n, seen)
    {
      var c := cs[n];
      if counts[c.key.nanos] < 2 {
        RememberSkip(cs, n, seen);
        continue;
      }
      if c.key in seen && seen[c.key] != c.payloadKey {
        ghost var i :| 0 <= i < n && cs[i].key == c.key && seen[c.key] == cs[i].payloadKey;
        assert cs[i] in cs && c in cs;
        return false;
      }
      RememberOne(cs, n, seen);
      seen := seen[c.key := c.payloadKey];
    }
    RememberedConsistent(cs, seen);
    return true;
  }

  lemma RememberSkip(cs: seq<Candidate>, n: nat, seen: map<OrderKey, string>)
    requires n < |cs| && Remembers(cs, n, seen) && CountAt(cs, cs[n].key.nanos) < 2
    ensures Remembers(cs, n + 1, seen)
  {
    hide CountAt;
  }

  lemma RememberOne(cs: seq<Candidate>, n: nat, seen: map<OrderKey, string>)
    requires n < |cs| && Remembers(cs, n, seen)
    requires cs[n].key in seen ==> seen[cs[n].key] == cs[n].payloadKey
    ensures Remembers(cs, n + 1, seen[cs[n].key := cs[n].payloadKey])
  {
    hide CountAt;
    var seen' := seen[cs[n].key := cs[n].payloadKey];
    forall k | k in seen'
      ensures exists i | 0 <= i < n + 1 :: cs[i].key == k && seen'[k] == cs[i].payloadKey
    {
      if k != cs[n].key {
        var i :| 0 <= i < n && cs[i].key == k && seen[k] == cs[i].payloadKey;
        assert seen'[k] == cs[i].payloadKey;
      }
    }
  }

  function Candidates(events: seq<FeatureEvent>): seq<Candidate> {
    Map(events, CandidateOf)
  }

  ghost predicate Accepted(events: seq<FeatureEvent>) {
    && (forall e | e in events :: Usable(e))
    && SingleScope(Candidates(events)) && ConsistentPayloads(Candidates(events))
  }

  /** The validated, sorted candidates, or the one reason every rejection carries. */
  ghost function Validated(events: seq<FeatureEvent>): Result<seq<Candidate>, Reason> {
    if Accepted(events) then Ok(Sort(Candidates(events), CandidateNotAfter)) else Err(InvalidMarketValue)
  }

  /** `sortAndValidateEvents`. */
  method SortAndValidateEvents(events: seq<FeatureEvent>)
    returns (r: Result<seq<Candidate>, Reason>)
    ensures r == Validated(events)
  {
    hide Sort;
    for n := 0 to |events|
      invariant forall i | 0 <= i < n :: Usable(events[i])
    {
      if !Usable(events[n]) {
        assert events[n] in events;
        return Err(InvalidMarketValue);
      }
    }
    var cs := Candidates(events);
    var single := ValidateSingleMarketBoundary(cs);
    if !single {
      return Err(InvalidMarketValue);
    }
    var consistent := ValidateDuplicateOrderKeys(cs);
    if !consistent {
      return Err(InvalidMarketValue);
    }
    return Ok(Sort(cs, CandidateNotAfter));
  }

  // ----- order independence -----

  ghost predicate Ordered(cs: seq<Candidate>) {
    forall a, b, c | a in cs && b in cs && c in cs :: !StraddledBy(Proxy(a.key), Proxy(b.key), Proxy(c.key))
  }

  /** Every sequence text of one timestamp is a digit string, or none is. */
  ghost predicate HomogeneousTexts(cs: seq<Candidate>) {
    forall a, b | a in cs && b in cs && a.key.nanos == b.key.nanos ::
      IsUnsignedInteger(a.key.sequence) == IsUnsignedInteger(b.key.sequence)
  }

  lemma HomogeneousOrdered(cs: seq<Candidate>)
    requires HomogeneousTexts(cs)
    ensures Ordered(cs)
  {
    hide CompareSequence, Less, IsUnsignedInteger;
  }

  lemma FallbackHead(e: FeatureEvent)
    ensures var s := FallbackSequence(e); s != "" && !IsDigit(s[0]) && s[0] > '9'
  {
    hide IntText;
  }

  lemma NotBelowDigits(a: string, x: string)
    requires IsUnsignedInteger(a) && x != "" && x[0] > '9'
    ensures !Less(x, a) && !IsUnsignedInteger(x)
  {
    assert IsDigit(a[0]) && !IsDigit(x[0]);
  }

  /** If every sequence that is given is a digit string, the comparator is consistent: fallback texts start with a
      letter, so they come after every number. */
  lemma GivenDigitsOrdered(events: seq<FeatureEvent>)
    requires forall e | e in events && e.sequence.Given? :: IsUnsignedInteger(e.sequence.text)
    ensures Ordered(Candidates(events))
  {
    hide PayloadText, FallbackSequence, CompareSequence, Less, IsUnsignedInteger;
    var cs := Candidates(events);
    forall a, b, c | a in cs && b in cs && c in cs
      ensures !StraddledBy(Proxy(a.key), Proxy(b.key), Proxy(c.key))
    {
      CandidateSequence(events, c);
      if IsUnsignedInteger(a.key.sequence) && !IsUnsignedInteger(c.key.sequence) {
        NotBelowDigits(a.key.sequence, c.key.sequence);
      }
    }
  }

  lemma CandidateSequence(events: seq<FeatureEvent>, c: Candidate)
    requires forall e | e in events && e.sequence.Given? :: IsUnsignedInteger(e.sequence.text)
    requires c in Candidates(events)
    ensures IsUnsignedInteger(c.key.sequence) || (c.key.sequence != "" && c.key.sequence[0] > '9')
  {
    hide PayloadText, FallbackSequence, Map;
    MapMembers(events, CandidateOf);
    var e :| e in events && CandidateOf(e) == c;
    FallbackHead(e);
  }

  lemma CandidatesPreordered(cs: seq<Candidate>)
    requires Ordered(cs)
    ensures TotalOn(cs, CandidateNotAfter) && TransitiveOn(cs, CandidateNotAfter)
  {
    hide NotAfter, StraddledBy;
    forall a, b | a in cs && b in cs
      ensures CandidateNotAfter(a, b) || CandidateNotAfter(b, a)
    {
      ProxyTotal(a.key, b.key);
    }
    forall a, b, c | a in cs && b in cs && c in cs && CandidateNotAfter(a, b) && CandidateNotAfter(b, c)
      ensures CandidateNotAfter(a, c)
    {
      NotAfterTransitive(Proxy(a.key), Proxy(b.key), Proxy(c.key));
    }
  }

  lemma ProxyTotal(a: OrderKey, b: OrderKey)
    ensures NotAfter(Proxy(a), Proxy(b)) || NotAfter(Proxy(b), Proxy(a))
    ensures NotAfter(Proxy(a), Proxy(b)) && NotAfter(Proxy(b), Proxy(a)) ==> a == b
  {
    CompareEventsLaws(Proxy(a), Proxy(b));
  }

  /** Candidates whose keys tie carry the same view, because equal keys were forced to equal payloads. */
  lemma ViewsTieEqual(cs: seq<Candidate>, views: seq<View>)
    requires ConsistentPayloads(cs)
    requires forall c | c in cs :: c.payloadKey == PayloadText(c.canonical)
    requires forall v | v in views :: exists c | c in cs :: ViewOf(c) == v
    ensures TiesEqual(views, ViewNotAfter)
  {
    hide NotAfter, PayloadText;
    forall v, w | v in views && w in views && ViewNotAfter(v, w) && ViewNotAfter(w, v)
      ensures v == w
    {
      ProxyTotal(v.key, w.key);
      var a :| a in cs && ViewOf(a) == v;
      var b :| b in cs && ViewOf(b) == w;
      assert a.payloadKey == b.payloadKey;
      PayloadTextExact(a.canonical, b.canonical);
    }
  }

  lemma SortedViews(cs: seq<Candidate>)
    requires SortedBy(cs, CandidateNotAfter)
    ensures SortedBy(Map(cs, ViewOf), ViewNotAfter)
  {
    hide NotAfter;
  }

  lemma ScopePermutes(a: seq<Candidate>, b: seq<Candidate>)
    requires multiset(a) == multiset(b)
    ensures SingleScope(a) <==> SingleScope(b)
    ensures ConsistentPayloads(a) <==> ConsistentPayloads(b)
  {
    SameElements(a, b);
  }

  /** Permuting the input events changes neither the verdict, nor the reason code, nor the sequence of views that
      every feature is computed from. */
  lemma OrderIndependence(a: seq<FeatureEvent>, b: seq<FeatureEvent>)
    requires multiset(a) == multiset(b) && (Accepted(a) ==> Ordered(Candidates(a)))
    ensures ReadAlike(a, b)
  {
    hide Accepted, Ordered, Candidates, Sort, Map;
    AcceptedPermutes(a, b);
    if Accepted(a) {
      AcceptedViewsAgree(a, b);
    }
  }

  lemma AcceptedViewsAgree(a: seq<FeatureEvent>, b: seq<FeatureEvent>)
    requires multiset(a) == multiset(b) && Accepted(a) && Ordered(Candidates(a))
    ensures Map(Sort(Candidates(a), CandidateNotAfter), ViewOf) == Map(Sort(Candidates(b), CandidateNotAfter), ViewOf)
  {
    CandidatePayloads(a);
    hide Sort, CandidateNotAfter, ViewNotAfter, Usable, SingleScope, ConsistentPayloads, CandidateOf, Ordered, Map;
    MapPermutation(a, b, CandidateOf);
    SortedViewsAgree(Candidates(a), Candidates(b));
  }

  /** The features cannot tell the inputs apart: both are rejected for one reason, or both give the same views. */
  ghost predicate ReadAlike(a: seq<FeatureEvent>, b: seq<FeatureEvent>) {
    && (Validated(a).Err? <==> Validated(b).Err?)
    && (Validated(a).Err? ==> Validated(a) == Validated(b))
    && (Validated(a).Ok? && Validated(b).Ok? ==> Map(Validated(a).value, ViewOf) == Map(Validated(b).value, ViewOf))
  }

  /** Views are sorted as their candidates are. */
  lemma ViewsSorted(events: seq<FeatureEvent>)
    requires Validated(events).Ok?
    ensures Map(Validated(events).value, ViewOf) == Sort(Map(events, ViewOfEvent), ViewNotAfter)
  {
    hide Sort, NotAfter, Map, Accepted;
    SortMap(Candidates(events), CandidateNotAfter, ViewOf, ViewNotAfter);
    assert Map(Candidates(events), ViewOf) == Map(events, ViewOfEvent);
  }

  function ViewOfEvent(e: FeatureEvent): View { ViewOf(CandidateOf(e)) }

  lemma ViewNotAfterSelf(v: View)
    ensures ViewNotAfter(v, v)
  {
    NotAfterSelf(Proxy(v.key));
  }

  /** Three views that straddle keep whichever order their events come in. */
  lemma StraddledViews(front: seq<FeatureEvent>, a: FeatureEvent, b: FeatureEvent, c: FeatureEvent)
    requires StraddledBy(Proxy(ViewOfEvent(a).key), Proxy(ViewOfEvent(b).key), Proxy(ViewOfEvent(c).key))
    ensures var p, q := Map(front + [a, b, c], ViewOfEvent), Map(front + [b, c, a], ViewOfEvent);
            Sort(p, ViewNotAfter) != Sort(q, ViewNotAfter)
  {
    hide Sort, NotAfter, StraddledBy, Map, ViewOfEvent;
    var x, y, z := ViewOfEvent(a), ViewOfEvent(b), ViewOfEvent(c);
    StraddleCompares(Proxy(x.key), Proxy(y.key), Proxy(z.key));
    SortCycle(x, y, z, ViewNotAfter);
    SortCycle(y, z, x, ViewNotAfter);
    assert [x, y, z][0] != [y, z, x][0];
    forall v | v in Map(front, ViewOfEvent)
      ensures ViewNotAfter(v, v)
    {
      ViewNotAfterSelf(v);
    }
    SortTellsApart(Map(front, ViewOfEvent), [x, y, z], [y, z, x], ViewNotAfter);
    MapConcat(front, [a, b, c], ViewOfEvent);
    MapConcat(front, [b, c, a], ViewOfEvent);
    assert Map([a, b, c], ViewOfEvent) == [x, y, z] && Map([b, c, a], ViewOfEvent) == [y, z, x];
  }

  lemma StraddledEvents(events: seq<FeatureEvent>) returns (a: FeatureEvent, b: FeatureEvent, c: FeatureEvent)
    requires !Ordered(Candidates(events))
    ensures a in events && b in events && c in events && a != b && b != c && c != a
    ensures StraddledBy(Proxy(ViewOfEvent(a).key), Proxy(ViewOfEvent(b).key), Proxy(ViewOfEvent(c).key))
  {
    hide StraddledBy, CandidateOf, Map;
    MapMembers(events, CandidateOf);
    var cs := Candidates(events);
    var x, y, z :| x in cs && y in cs && z in cs && StraddledBy(Proxy(x.key), Proxy(y.key), Proxy(z.key));
    a :| a in events && CandidateOf(a) == x;
    b :| b in events && CandidateOf(b) == y;
    c :| c in events && CandidateOf(c) == z;
    StraddleCompares(Proxy(x.key), Proxy(y.key), Proxy(z.key));
  }

  /** A straddle among accepted events makes some arrival order read differently. */
  lemma StraddleReadsApart(events: seq<FeatureEvent>)
    requires Accepted(events) && !Ordered(Candidates(events))
    ensures exists shuffled :: multiset(shuffled) == multiset(events) && !ReadAlike(events, shuffled)
  {
    hide Accepted, Ordered, Candidates, ReadAlike, Sort, Map, StraddledBy, ViewOfEvent;
    var a, b, c := StraddledEvents(events);
    var front := ThreeLast(events, a, b, c);
    var p, q := front + [a, b, c], front + [b, c, a];
    StraddledViews(front, a, b, c);
    ReadApart(events, p, q);
  }

  /** The exact condition: every arrival order of the events reads alike if and only if the input is rejected or no
      timestamp straddles. */
  lemma OrderIndependentIff(events: seq<FeatureEvent>)
    ensures (forall shuffled | multiset(shuffled) == multiset(events) :: ReadAlike(events, shuffled)) <==>
              (Accepted(events) ==> Ordered(Candidates(events)))
  {
    hide Accepted, Ordered, Candidates, ReadAlike;
    if Accepted(events) ==> Ordered(Candidates(events)) {
      forall shuffled | multiset(shuffled) == multiset(events)
        ensures ReadAlike(events, shuffled)
      {
        OrderIndependence(events, shuffled);
      }
    } else {
      StraddleReadsApart(events);
    }
  }

  lemma ReadApart(events: seq<FeatureEvent>, p: seq<FeatureEvent>, q: seq<FeatureEvent>)
    requires Accepted(events) && multiset(p) == multiset(events) && multiset(q) == multiset(events)
    requires Sort(Map(p, ViewOfEvent), ViewNotAfter) != Sort(Map(q, ViewOfEvent), ViewNotAfter)
    ensures !ReadAlike(events, p) || !ReadAlike(events, q)
  {
    hide Accepted, Sort, Map, Candidates;
    AcceptedPermutes(events, p);
    AcceptedPermutes(events, q);
    ViewsSorted(p);
    ViewsSorted(q);
  }

  lemma AcceptedPermutes(a: seq<FeatureEvent>, b: seq<FeatureEvent>)
    requires multiset(a) == multiset(b)
    ensures Accepted(a) <==> Accepted(b)
  {
    hide Usable, SingleScope, ConsistentPayloads, CandidateOf, Map;
    SameElements(a, b);
    MapPermutation(a, b, CandidateOf);
    ScopePermutes(Candidates(a), Candidates(b));
  }

  lemma CandidatePayloads(events: seq<FeatureEvent>)
    ensures forall c | c in Candidates(events) :: c.payloadKey == PayloadText(c.canonical)
  {}

  lemma ViewsComeFrom(x: seq<Candidate>, cs: seq<Candidate>)
    requires forall c | c in x :: c in cs
    ensures forall v | v in Map(x, ViewOf) :: exists c | c in cs :: ViewOf(c) == v
  {
    forall v | v in Map(x, ViewOf)
      ensures exists c | c in cs :: ViewOf(c) == v
    {
      var i :| 0 <= i < |x| && Map(x, ViewOf)[i] == v;
      assert x[i] in cs && ViewOf(x[i]) == v;
    }
  }

  lemma SortedViewsAgree(cs: seq<Candidate>, ds: seq<Candidate>)
    requires multiset(cs) == multiset(ds) && Ordered(cs) && ConsistentPayloads(cs)
    requires forall c | c in cs :: c.payloadKey == PayloadText(c.canonical)
    ensures Map(Sort(cs, CandidateNotAfter), ViewOf) == Map(Sort(ds, CandidateNotAfter), ViewOf)
  {
    hide Sort, CandidateNotAfter, ViewNotAfter, Map, ConsistentPayloads, TotalOn, TransitiveOn, SortedBy, TiesEqual;
    OrderedPermutes(cs, ds);
    CandidatesPreordered(cs);
    CandidatesPreordered(ds);
    hide Ordered;
    SortSorted(cs, CandidateNotAfter);
    SortSorted(ds, CandidateNotAfter);
    var x, y := Sort(cs, CandidateNotAfter), Sort(ds, CandidateNotAfter);
    SortedViews(x);
    SortedViews(y);
    MapPermutation(x, y, ViewOf);
    SameElements(x, cs);
    ViewsComeFrom(x, cs);
    ViewsTieEqual(cs, Map(x, ViewOf));
    SortedUnique(Map(x, ViewOf), Map(y, ViewOf), ViewNotAfter);
  }

  lemma OrderedPermutes(cs: seq<Candidate>, ds: seq<Candidate>)
    requires multiset(cs) == multiset(ds) && Ordered(cs)
    ensures Ordered(ds)
  {
    hide StraddledBy;
    SameElements(cs, ds);
  }

  // ----- what is accepted, and in which order -----

  /** Input is refused exactly for an empty or unusable order text, a second exchange, a second market, or two
      events of one order key that say different things. */
  lemma ValidatedIff(events: seq<FeatureEvent>)
    ensures Validated(events).Ok? <==>
              && (forall e | e in events ::
                    && e.sequence != Unusable && e.sequence != Given("")
                    && e.tieBreakKey != Unusable && e.tieBreakKey != Given(""))
              && (forall a, b | a in events && b in events :: a.exchangeId == b.exchangeId)
              && (forall a, b | a in events && b in events && a.market.Some? && b.market.Some? :: a.market == b.market)
              && (forall a, b | a in events && b in events && CandidateOf(a).key == CandidateOf(b).key ::
                    a.body == b.body)
    ensures Validated(events).Err? ==> Validated(events).error == InvalidMarketValue
  {
    hide Sort, Map, PayloadText, FallbackSequence;
    MapMembers(events, CandidateOf);
    forall a, b | a in events && b in events && CandidateOf(a).key == CandidateOf(b).key
      ensures CandidateOf(a).payloadKey == CandidateOf(b).payloadKey <==> a.body == b.body
    {
      PayloadTextExact(CanonicalOf(a), CanonicalOf(b));
    }
    CandidatesConsistentIff(events);
    CandidatesScopeIff(events);
    hide CandidateOf, SingleScope, ConsistentPayloads;
  }

  lemma CandidatesScopeIff(events: seq<FeatureEvent>)
    ensures SingleScope(Candidates(events)) <==>
              && (forall a, b | a in events && b in events :: a.exchangeId == b.exchangeId)
              && (forall a, b | a in events && b in events && a.market.Some? && b.market.Some? :: a.market == b.market)
  {
    hide Map, PayloadText, FallbackSequence;
    MapMembers(events, CandidateOf);
    forall e | e in events
      ensures CandidateOf(e) in Candidates(events) && CandidateOf(e).market == e.market
      ensures CandidateOf(e).key.exchangeId == e.exchangeId
    {}
  }

  lemma CandidatesConsistentIff(events: seq<FeatureEvent>)
    ensures ConsistentPayloads(Candidates(events)) <==>
              forall a, b | a in events && b in events && CandidateOf(a).key == CandidateOf(b).key ::
                CandidateOf(a).payloadKey == CandidateOf(b).payloadKey
  {
    hide Map, CandidateOf;
    MapMembers(events, CandidateOf);
    forall e | e in events
      ensures CandidateOf(e) in Candidates(events)
    {}
  }

  /** The order key of an event: its own texts where it has them; otherwise a sequence made of its kind and its
      trade id, receive time or status, and a tie break that tells apart all that a feature may read. */
  lemma OrderKeyMeaning(a: FeatureEvent, b: FeatureEvent)
    ensures var k := CandidateOf(a).key;
            && k.nanos == a.nanos && k.exchangeId == a.exchangeId
            && k.market == (if a.market.None? then "*" else a.market.value)
            && (a.sequence.Given? ==> k.sequence == a.sequence.text)
            && (!a.sequence.Given? ==>
                  && (a.body.Trade? ==> k.sequence == "trade:" + a.body.tradeId)
                  && (a.body.Book? ==> k.sequence == "orderbook:" + IntText(a.body.receivedNanos))
                  && (a.body.Ticker? ==> k.sequence == "ticker:" + IntText(a.body.receivedNanos))
                  && (a.body.Status? ==> k.sequence == "status:" + a.body.status + ":" + IntText(a.nanos)))
            && (a.tieBreakKey.Given? ==> k.tieBreakKey == a.tieBreakKey.text)
            && (!a.tieBreakKey.Given? && !b.tieBreakKey.Given? ==>
                  (k.tieBreakKey == CandidateOf(b).key.tieBreakKey <==> CanonicalOf(a) == CanonicalOf(b)))
  {
    hide PayloadText, IntText;
    PayloadTextExact(CanonicalOf(a), CanonicalOf(b));
  }

  lemma {:induction false} LessAfter(front: string, x: string, y: string)
    ensures Less(front + x, front + y) <==> Less(x, y)
  {
    if front == "" {
      assert front + x == x && front + y == y;
    } else {
      assert (front + x)[1..] == front[1..] + x && (front + y)[1..] == front[1..] + y;
      LessAfter(front[1..], x, y);
    }
  }

  lemma FrontNotDigits(front: string, x: string)
    requires front != "" && !IsDigit(front[0])
    ensures !IsUnsignedInteger(front + x)
  {
    assert (front + x)[0] == front[0];
  }

  /** At one timestamp, trades without sequences of their own are in the order of their ids as texts. */
  lemma DefaultTradeOrder(a: FeatureEvent, b: FeatureEvent)
    requires a.body.Trade? && b.body.Trade? && !a.sequence.Given? && !b.sequence.Given? && a.nanos == b.nanos
    requires a.body.tradeId != b.body.tradeId
    ensures CandidateNotAfter(CandidateOf(a), CandidateOf(b)) <==> Less(a.body.tradeId, b.body.tradeId)
  {
    hide PayloadText, Less, CompareSequence, CompareString, MarketText;
    var x, y := a.body.tradeId, b.body.tradeId;
    LessAfter("trade:", x, y);
    FrontNotDigits("trade:", x);
    CompareSequenceLaws("trade:" + x, "trade:" + y);
    CompareStringLaws("trade:" + x, "trade:" + y);
    assert ("trade:" + x)[6..] == x && ("trade:" + y)[6..] == y;
  }
}
