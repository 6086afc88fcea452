/** Deterministic replay: the order of market events, the unique-key check, and windowed replay of a fixture.
    Texts are ordered character by character. */
module MarketReplay {
  import opened Sequences
  import opened DecimalText

  // ----- comparing text -----

  /** `<` on JavaScript strings. */
  predicate Less(a: string, b: string) {
    if b == "" then false
    else if a == "" then true
    else if a[0] != b[0] then a[0] < b[0]
    else Less(a[1..], b[1..])
  }

  /** One text is less than another exactly when, after a common front, it ends or has the smaller character. */
  lemma {:induction false} LessExact(a: string, b: string)
    ensures Less(a, b) <==>
              exists n: nat | n <= |a| && n < |b| :: a[..n] == b[..n] && (n == |a| || a[n] < b[n])
  {
    if a != "" && b != "" && a[0] == b[0] {
      var a', b' := a[1..], b[1..];
      LessExact(a', b');
      if Less(a, b) {
        var n: nat :| n <= |a'| && n < |b'| && a'[..n] == b'[..n] && (n == |a'| || a'[n] < b'[n]);
        assert a[..n + 1] == [a[0]] + a'[..n] && b[..n + 1] == [b[0]] + b'[..n];
      }
      if n: nat :| n <= |a| && n < |b| && a[..n] == b[..n] && (n == |a| || a[n] < b[n]) {
        assert n > 0;
        assert a'[..n - 1] == a[..n][1..] && b'[..n - 1] == b[..n][1..];
      }
    } else if a != "" && b != "" {
      if Less(a, b) {
        assert a[..0] == b[..0];
      }
    } else if b != "" {
      assert a[..0] == b[..0];
    }
  }

  lemma {:induction false} LessIrreflexive(a: string)
    ensures !Less(a, a)
  {
    if a != "" {
      LessIrreflexive(a[1..]);
    }
  }

  lemma {:induction false} LessTotal(a: string, b: string)
    ensures Less(a, b) || Less(b, a) || a == b
  {
    if a != "" && b != "" && a[0] == b[0] {
      LessTotal(a[1..], b[1..]);
      assert a == [a[0]] + a[1..] && b == [b[0]] + b[1..];
    }
  }

  lemma {:induction false} LessTransitive(a: string, b: string, c: string)
    requires Less(a, b) && Less(b, c)
    ensures Less(a, c)
  {
    if a != "" && a[0] == b[0] && b[0] == c[0] {
      LessTransitive(a[1..], b[1..], c[1..]);
    }
  }

  lemma LessAsymmetric(a: string, b: string)
    ensures !(Less(a, b) && Less(b, a))
  {
    if Less(a, b) && Less(b, a) {
      LessTransitive(a, b, a);
      LessIrreflexive(a);
    }
  }

  function CompareString(a: string, b: string): int {
    if a == b then 0 else if Less(a, b) then -1 else 1
  }

  function CompareInt(a: int, b: int): int {
    if a == b then 0 else if a < b then -1 else 1
  }

  // ----- comparing sequences -----

  predicate IsUnsignedInteger(s: string) { s != "" && AllDigits(s) }

  function DropZeroes(s: string): string {
    if s != "" && s[0] == '0' then DropZeroes(s[1..]) else s
  }

  function TrimLeadingZeroes(s: string): string {
    if DropZeroes(s) == "" then "0" else DropZeroes(s)
  }

  /** `compareSequence`: digit strings by length and digits after trimming, then by raw text; anything else by text. */
  function CompareSequence(left: string, right: string): int {
    if left == right then 0
    else if IsUnsignedInteger(left) && IsUnsignedInteger(right) then
      var l, r := TrimLeadingZeroes(left), TrimLeadingZeroes(right);
      if |l| != |r| then |l| - |r|
      else if CompareString(l, r) != 0 then CompareString(l, r)
      else CompareString(left, right)
    else CompareString(left, right)
  }

  lemma ShiftProduct(d: int, p: int, rest: int, last: int)
    ensures 10 * (d * p + rest) + last == d * (10 * p) + (10 * rest + last)
  {}

  lemma NumberLast(s: string)
    requires AllDigits(s) && s != ""
    ensures Number(s) == 10 * Number(s[..|s| - 1]) + DigitValue(s[|s| - 1])
  {}

  lemma {:induction false} NumberFromFront(s: string)
    requires AllDigits(s) && s != ""
    ensures Number(s) == DigitValue(s[0]) * Pow10(|s| - 1) + Number(s[1..])
  {
    if |s| == 1 {
      assert s[..0] == "" && s[1..] == "";
    } else {
      var n := |s| - 1;
      var init, tail := s[..n], s[1..];
      assert Pow10(n) == 10 * Pow10(n - 1);
      hide Number, Pow10;
      assert tail[..n - 1] == init[1..] && tail[n - 1] == s[n] && init[0] == s[0];
      NumberLast(s);
      NumberLast(tail);
      NumberFromFront(init);
      ShiftProduct(DigitValue(s[0]), Pow10(n - 1), Number(init[1..]), DigitValue(s[n]));
    }
  }

  lemma {:induction false} DropZeroesKeepsNumber(s: string)
    requires AllDigits(s)
    ensures AllDigits(DropZeroes(s)) && Number(DropZeroes(s)) == Number(s)
    ensures DropZeroes(s) != "" ==> DropZeroes(s)[0] != '0'
  {
    if s != "" && s[0] == '0' {
      NumberFromFront(s);
      DropZeroesKeepsNumber(s[1..]);
    }
  }

  lemma TrimKeepsNumber(s: string)
    requires AllDigits(s)
    ensures AllDigits(TrimLeadingZeroes(s)) && Number(TrimLeadingZeroes(s)) == Number(s)
    ensures TrimLeadingZeroes(s) != ""
    ensures TrimLeadingZeroes(s)[0] == '0' ==> TrimLeadingZeroes(s) == "0"
  {
    DropZeroesKeepsNumber(s);
    assert "0"[..0] == "";
    assert Number("0") == 0;
  }

  lemma {:induction false} Pow10Monotone(a: nat, b: nat)
    requires a <= b
    ensures Pow10(a) <= Pow10(b)
  {
    if a < b {
      Pow10Monotone(a, b - 1);
    }
  }

  /** Without leading zeroes, more digits means a larger number. */
  lemma ShorterIsSmaller(a: string, b: string)
    requires AllDigits(a) && AllDigits(b) && a != "" && |a| < |b| && b[0] != '0'
    ensures Number(a) < Number(b)
  {
    assert DigitValue(b[0]) >= 1;
    hide Number, Pow10, DigitValue;
    NumberBound(a);
    Pow10Monotone(|a|, |b| - 1);
    NumberFromFront(b);
    LeadingDigitWins(0, DigitValue(b[0]), Pow10(|b| - 1), Number(a), Number(b[1..]));
  }

  lemma LeadingDigitWins(x: int, y: int, p: int, u: int, v: int)
    requires x < y && 0 <= u < p && 0 <= v
    ensures x * p + u < y * p + v
  {
    assert (x + 1) * p <= y * p;
  }

  /** At equal length, text order is numeric order. */
  lemma {:induction false} TextOrderIsNumeric(a: string, b: string)
    requires AllDigits(a) && AllDigits(b) && |a| == |b| && Less(a, b)
    ensures Number(a) < Number(b)
  {
    hide Number, Pow10;
    NumberFromFront(a);
    NumberFromFront(b);
    if a[0] == b[0] {
      TextOrderIsNumeric(a[1..], b[1..]);
    } else {
      assert DigitValue(a[0]) < DigitValue(b[0]);
      hide DigitValue;
      NumberBound(a[1..]);
      LeadingDigitWins(DigitValue(a[0]), DigitValue(b[0]), Pow10(|a| - 1), Number(a[1..]), Number(b[1..]));
    }
  }

  /** On digit strings of any length the comparison is that of their values, then of their texts. */
  lemma DigitsCompareByValue(a: string, b: string)
    requires IsUnsignedInteger(a) && IsUnsignedInteger(b)
    ensures Number(a) < Number(b) ==> CompareSequence(a, b) < 0
    ensures Number(a) > Number(b) ==> CompareSequence(a, b) > 0
    ensures Number(a) == Number(b) ==> CompareSequence(a, b) == CompareString(a, b)
  {
    TrimKeepsNumber(a);
    TrimKeepsNumber(b);
    var l, r := TrimLeadingZeroes(a), TrimLeadingZeroes(b);
    hide TrimLeadingZeroes, Number;
    if |l| < |r| {
      ShorterIsSmaller(l, r);
    } else if |l| > |r| {
      ShorterIsSmaller(r, l);
    } else if l != r {
      LessTotal(l, r);
      LessAsymmetric(l, r);
      if Less(l, r) {
        TextOrderIsNumeric(l, r);
      } else {
        TextOrderIsNumeric(r, l);
      }
    }
  }

  lemma CompareStringLaws(a: string, b: string)
    ensures CompareString(a, b) == 0 <==> a == b
    ensures CompareString(a, b) < 0 <==> Less(a, b)
    ensures CompareString(a, b) < 0 <==> CompareString(b, a) > 0
  {
    LessTotal(a, b);
    LessAsymmetric(a, b);
    LessIrreflexive(a);
  }

  lemma CompareSequenceLaws(a: string, b: string)
    ensures CompareSequence(a, b) == 0 <==> a == b
    ensures CompareSequence(a, b) < 0 <==> CompareSequence(b, a) > 0
    ensures !(IsUnsignedInteger(a) && IsUnsignedInteger(b)) ==> CompareSequence(a, b) == CompareString(a, b)
  {
    CompareStringLaws(a, b);
    if IsUnsignedInteger(a) && IsUnsignedInteger(b) {
      DigitsCompareByValue(a, b);
      DigitsCompareByValue(b, a);
      CompareStringLaws(b, a);
    }
  }

  /** Two digit strings and a text between them in text order, against their numeric order. */
  predicate Straddles(a: string, b: string, x: string) {
    && IsUnsignedInteger(a) && IsUnsignedInteger(b) && !IsUnsignedInteger(x)
    && CompareSequence(a, b) < 0 && Less(b, x) && Less(x, a)
  }

  /** A straddled pair makes the comparison cyclic. */
  lemma StraddleCycles(a: string, b: string, x: string)
    requires Straddles(a, b, x)
    ensures CompareSequence(a, b) < 0 && CompareSequence(b, x) < 0 && CompareSequence(x, a) < 0
  {
    CompareSequenceLaws(b, x);
    CompareSequenceLaws(x, a);
    CompareStringLaws(b, x);
    CompareStringLaws(x, a);
  }

  lemma CompareStringTransitive(a: string, b: string, c: string)
    requires CompareString(a, b) < 0 && CompareString(b, c) < 0
    ensures CompareString(a, c) < 0
  {
    CompareStringLaws(a, b);
    CompareStringLaws(b, c);
    CompareStringLaws(a, c);
    LessTransitive(a, b, c);
  }

  lemma DigitsTransitive(a: string, b: string, c: string)
    requires IsUnsignedInteger(a) && IsUnsignedInteger(b) && IsUnsignedInteger(c)
    requires CompareSequence(a, b) < 0 && CompareSequence(b, c) < 0
    ensures CompareSequence(a, c) < 0
  {
    DigitsCompareByValue(a, b);
    DigitsCompareByValue(b, c);
    DigitsCompareByValue(a, c);
    hide CompareSequence, Number, CompareString;
    if Number(a) == Number(b) == Number(c) {
      CompareStringTransitive(a, b, c);
    }
  }

  /** The only way for the comparison to be intransitive is a straddle. */
  lemma SequenceTransitive(a: string, b: string, c: string)
    requires CompareSequence(a, b) < 0 && CompareSequence(b, c) < 0
    requires !Straddles(a, b, c) && !Straddles(b, c, a) && !Straddles(c, a, b)
    ensures CompareSequence(a, c) < 0
  {
    CompareSequenceLaws(a, b);
    CompareSequenceLaws(b, c);
    CompareSequenceLaws(a, c);
    CompareSequenceLaws(c, a);
    CompareStringLaws(a, b);
    CompareStringLaws(b, c);
    CompareStringLaws(a, c);
    CompareStringLaws(c, a);
    hide CompareSequence, CompareString, Less;
    if IsUnsignedInteger(a) && IsUnsignedInteger(b) && IsUnsignedInteger(c) {
      DigitsTransitive(a, b, c);
    } else if CompareString(a, b) < 0 && CompareString(b, c) < 0 {
      CompareStringTransitive(a, b, c);
    }
  }

  // ----- comparing events -----

  datatype MarketEvent = MarketEvent(
    kind: string, exchangeId: string, market: Option<string>, nanos: int, sequence: string, tieBreakKey: string,
    sourceId: string, payload: string)

  /** `createMarketEventOrderKey`: JSON of a list of strings is injective, so the list itself is the key. */
  datatype OrderKey = OrderKey(nanos: int, exchangeId: string, market: string, sequence: string, tieBreakKey: string)

  function MarketText(m: Option<string>): string { if m.Some? then m.value else "*" }

  function KeyOf(e: MarketEvent): OrderKey {
    OrderKey(e.nanos, e.exchangeId, MarketText(e.market), e.sequence, e.tieBreakKey)
  }

  function CompareEvents(left: MarketEvent, right: MarketEvent): int {
    if CompareInt(left.nanos, right.nanos) != 0 then CompareInt(left.nanos, right.nanos)
    else if CompareSequence(left.sequence, right.sequence) != 0 then CompareSequence(left.sequence, right.sequence)
    else if CompareString(left.tieBreakKey, right.tieBreakKey) != 0 then
      CompareString(left.tieBreakKey, right.tieBreakKey)
    else if CompareString(left.exchangeId, right.exchangeId) != 0 then CompareString(left.exchangeId, right.exchangeId)
    else CompareString(MarketText(left.market), MarketText(right.market))
  }

  function NotAfter(a: MarketEvent, b: MarketEvent): bool { CompareEvents(a, b) <= 0 }

  function SortEvents(events: seq<MarketEvent>): seq<MarketEvent> {
    Sort(events, NotAfter)
  }

  /** Two events tie exactly when their order keys coincide, and swapping the arguments swaps the sign. */
  lemma CompareEventsLaws(a: MarketEvent, b: MarketEvent)
    ensures CompareEvents(a, b) == 0 <==> KeyOf(a) == KeyOf(b)
    ensures CompareEvents(a, b) < 0 <==> CompareEvents(b, a) > 0
  {
    CompareSequenceLaws(a.sequence, b.sequence);
    CompareStringLaws(a.tieBreakKey, b.tieBreakKey);
    CompareStringLaws(a.exchangeId, b.exchangeId);
    CompareStringLaws(MarketText(a.market), MarketText(b.market));
    CompareSequenceLaws(b.sequence, a.sequence);
    CompareStringLaws(b.tieBreakKey, a.tieBreakKey);
    CompareStringLaws(b.exchangeId, a.exchangeId);
    CompareStringLaws(MarketText(b.market), MarketText(a.market));
    hide CompareSequence, CompareString, MarketText;
  }

  /** The replay order, key by key: time, then the sequence (by number where both are digits, the text deciding between
      equal numbers), then the tie-break key, the exchange and the market, where no market reads as "*". */
  lemma EventOrderExact(a: MarketEvent, b: MarketEvent)
    ensures var digits := a.sequence != "" && b.sequence != "" && AllDigits(a.sequence) && AllDigits(b.sequence);
            var less := if digits && Number(a.sequence) != Number(b.sequence)
                        then Number(a.sequence) < Number(b.sequence) else Less(a.sequence, b.sequence);
            var m, n := if a.market.None? then "*" else a.market.value, if b.market.None? then "*" else b.market.value;
            CompareEvents(a, b) < 0 <==>
              || a.nanos < b.nanos
              || (a.nanos == b.nanos
                  && (|| less
                      || (a.sequence == b.sequence
                          && (|| Less(a.tieBreakKey, b.tieBreakKey)
                              || (a.tieBreakKey == b.tieBreakKey
                                  && (|| Less(a.exchangeId, b.exchangeId)
                                      || (a.exchangeId == b.exchangeId && Less(m, n))))))))
  {
    CompareSequenceLaws(a.sequence, b.sequence);
    CompareStringLaws(a.sequence, b.sequence);
    CompareStringLaws(a.tieBreakKey, b.tieBreakKey);
    CompareStringLaws(a.exchangeId, b.exchangeId);
    CompareStringLaws(MarketText(a.market), MarketText(b.market));
    if IsUnsignedInteger(a.sequence) && IsUnsignedInteger(b.sequence) {
      DigitsCompareByValue(a.sequence, b.sequence);
    }
    hide CompareSequence, CompareString, Less, AllDigits, Number;
  }

  ghost predicate StraddledBy(a: MarketEvent, b: MarketEvent, x: MarketEvent) {
    a.nanos == b.nanos == x.nanos && Straddles(a.sequence, b.sequence, x.sequence)
  }

  /** No timestamp holds two digit sequences with a mixed one between them. */
  ghost predicate NoStraddle(events: seq<MarketEvent>) {
    forall a, b, x | a in events && b in events && x in events :: !StraddledBy(a, b, x)
  }

  /** Within each timestamp the sequences are all digit strings or all not. */
  ghost predicate Homogeneous(events: seq<MarketEvent>) {
    forall a, b | a in events && b in events && a.nanos == b.nanos ::
      IsUnsignedInteger(a.sequence) == IsUnsignedInteger(b.sequence)
  }

  lemma HomogeneousNoStraddle(events: seq<MarketEvent>)
    requires Homogeneous(events)
    ensures NoStraddle(events)
  {
    hide CompareSequence, Less, IsUnsignedInteger;
  }

  lemma TextTail(a: MarketEvent, b: MarketEvent, c: MarketEvent)
    requires a.nanos == b.nanos == c.nanos && a.sequence == b.sequence == c.sequence
    requires CompareEvents(a, b) < 0 && CompareEvents(b, c) < 0
    ensures CompareEvents(a, c) < 0
  {
    CompareSequenceLaws(a.sequence, b.sequence);
    CompareStringLaws(a.tieBreakKey, b.tieBreakKey);
    CompareStringLaws(b.tieBreakKey, c.tieBreakKey);
    CompareStringLaws(a.exchangeId, b.exchangeId);
    CompareStringLaws(b.exchangeId, c.exchangeId);
    hide CompareSequence, CompareString, MarketText;
    if CompareString(a.tieBreakKey, b.tieBreakKey) != 0 && CompareString(b.tieBreakKey, c.tieBreakKey) != 0 {
      CompareStringTransitive(a.tieBreakKey, b.tieBreakKey, c.tieBreakKey);
    } else if a.tieBreakKey == b.tieBreakKey == c.tieBreakKey {
      CompareStringLaws(a.tieBreakKey, c.tieBreakKey);
      if CompareString(a.exchangeId, b.exchangeId) != 0 && CompareString(b.exchangeId, c.exchangeId) != 0 {
        CompareStringTransitive(a.exchangeId, b.exchangeId, c.exchangeId);
      } else if a.exchangeId == b.exchangeId == c.exchangeId {
        CompareStringTransitive(MarketText(a.market), MarketText(b.market), MarketText(c.market));
      }
    }
  }

  lemma EventsTransitive(a: MarketEvent, b: MarketEvent, c: MarketEvent)
    requires CompareEvents(a, b) < 0 && CompareEvents(b, c) < 0
    requires !StraddledBy(a, b, c) && !StraddledBy(b, c, a) && !StraddledBy(c, a, b)
    ensures CompareEvents(a, c) < 0
  {
    CompareSequenceLaws(a.sequence, b.sequence);
    CompareSequenceLaws(b.sequence, c.sequence);
    if a.nanos == b.nanos == c.nanos {
      if a.sequence == b.sequence == c.sequence {
        TextTail(a, b, c);
      } else if a.sequence != b.sequence && b.sequence != c.sequence {
        hide CompareString;
        SequenceTransitive(a.sequence, b.sequence, c.sequence);
      }
    }
    hide CompareSequence, CompareString, MarketText, Straddles;
  }

  /** The comparator is a total preorder on a set of events exactly when no timestamp has a straddle. */
  lemma TransitiveIffNoStraddle(events: seq<MarketEvent>)
    ensures TotalOn(events, NotAfter)
    ensures TransitiveOn(events, NotAfter) <==> NoStraddle(events)
  {
    forall a, b | a in events && b in events
      ensures NotAfter(a, b) || NotAfter(b, a)
    {
      CompareEventsLaws(a, b);
    }
    if NoStraddle(events) {
      forall a, b, c | a in events && b in events && c in events && NotAfter(a, b) && NotAfter(b, c)
        ensures NotAfter(a, c)
      {
        NotAfterTransitive(a, b, c);
      }
    }
    if a, b, x :| a in events && b in events && x in events && StraddledBy(a, b, x) {
      StraddleCycles(a.sequence, b.sequence, x.sequence);
      CompareEventsLaws(a, x);
      assert NotAfter(a, b) && NotAfter(b, x) && !NotAfter(a, x) by {
        hide CompareSequence, CompareString, MarketText, Straddles;
      }
    }
  }

  lemma NotAfterTransitive(a: MarketEvent, b: MarketEvent, c: MarketEvent)
    requires NotAfter(a, b) && NotAfter(b, c)
    requires !StraddledBy(a, b, c) && !StraddledBy(b, c, a) && !StraddledBy(c, a, b)
    ensures NotAfter(a, c)
  {
    CompareEventsLaws(a, b);
    CompareEventsLaws(b, c);
    if CompareEvents(a, b) == 0 {
      SameKeySameOrder(a, b, c);
    } else if CompareEvents(b, c) == 0 {
      CompareEventsLaws(c, a);
      CompareEventsLaws(b, a);
      SameKeySameOrder(c, b, a);
      CompareEventsLaws(c, b);
    } else {
      EventsTransitive(a, b, c);
    }
  }

  lemma SameKeySameOrder(a: MarketEvent, b: MarketEvent, c: MarketEvent)
    requires KeyOf(a) == KeyOf(b)
    ensures CompareEvents(a, c) == CompareEvents(b, c)
  {
    hide CompareSequence, CompareString;
  }

  /** Mixed sequences inside one timestamp do break the order. */
  lemma MixedSequencesCycle()
    ensures CompareSequence("9", "10") < 0 && CompareSequence("10", "5x") < 0 && CompareSequence("5x", "9") < 0
  {
    assert TrimLeadingZeroes("9") == "9" && TrimLeadingZeroes("10") == "10";
    assert !IsDigit("5x"[1]);
  }

  // ----- the unique-key check -----

  ghost predicate UniqueKeys(events: seq<MarketEvent>) {
    forall i, j | 0 <= i < j < |events| :: KeyOf(events[i]) != KeyOf(events[j])
  }

  /** `assertUniqueMarketEventOrderKeys`: reports the first key seen twice. */
  method AssertUniqueOrderKeys(events: seq<MarketEvent>) returns (duplicate: Option<OrderKey>)
    ensures duplicate.None? <==> UniqueKeys(events)
    ensures duplicate.Some? ==>
              exists i, j :: 0 <= i < j < |events| && KeyOf(events[i]) == KeyOf(events[j]) == duplicate.value
                             && UniqueKeys(events[..j])
  {
    var seen: set<OrderKey> := {};
    for n := 0 to |events|
      invariant UniqueKeys(events[..n])
      invariant forall k :: k in seen <==> exists i | 0 <= i < n :: KeyOf(events[i]) == k
    {
      var key := KeyOf(events[n]);
      if key in seen {
        ghost var i :| 0 <= i < n && KeyOf(events[i]) == key;
        assert 0 <= i < n < |events| && KeyOf(events[i]) == KeyOf(events[n]) == key && UniqueKeys(events[..n]);
        return Some(key);
      }
      seen := seen + {key};
      assert events[..n + 1] == events[..n] + [events[n]];
    }
    assert events[..|events|] == events;
    return None;
  }

  // ----- one replay order -----

  lemma UniqueTiesEqual(events: seq<MarketEvent>)
    requires UniqueKeys(events)
    ensures TiesEqual(events, NotAfter)
  {
    forall x, y | x in events && y in events && NotAfter(x, y) && NotAfter(y, x)
      ensures x == y
    {
      CompareEventsLaws(x, y);
      var i :| 0 <= i < |events| && events[i] == x;
      var j :| 0 <= j < |events| && events[j] == y;
      assert i == j;
    }
  }

  /** A fixture with unique keys and no straddle has exactly one sorted arrangement: every sort, of every permutation
      of its events, produces it. */
  lemma ReplayOrderUnique(events: seq<MarketEvent>, shuffled: seq<MarketEvent>, sorted: seq<MarketEvent>)
    requires UniqueKeys(events) && NoStraddle(events)
    requires multiset(shuffled) == multiset(events)
    ensures SortEvents(shuffled) == SortEvents(events)
    ensures SortedBy(SortEvents(events), NotAfter)
    ensures multiset(sorted) == multiset(events) && SortedBy(sorted, NotAfter) ==> sorted == SortEvents(events)
  {
    hide NotAfter, Sort;
    TransitiveIffNoStraddle(events);
    UniqueTiesEqual(events);
    SortPermutation(events, shuffled, NotAfter);
    SortSorted(events, NotAfter);
    if multiset(sorted) == multiset(events) && SortedBy(sorted, NotAfter) {
      SameElements(sorted, events);
      SortedUnique(sorted, SortEvents(events), NotAfter);
    }
  }

  /** Whatever order the events arrive in, they sort the same. */
  ghost predicate SortsAlike(events: seq<MarketEvent>) {
    forall shuffled | multiset(shuffled) == multiset(events) :: SortEvents(shuffled) == SortEvents(events)
  }

  lemma StraddleCompares(a: MarketEvent, b: MarketEvent, x: MarketEvent)
    requires StraddledBy(a, b, x)
    ensures NotAfter(a, b) && NotAfter(b, x) && NotAfter(x, a) && a != b && b != x && x != a
  {
    StraddleCycles(a.sequence, b.sequence, x.sequence);
    CompareSequenceLaws(a.sequence, a.sequence);
    CompareSequenceLaws(b.sequence, b.sequence);
    CompareSequenceLaws(x.sequence, x.sequence);
    hide CompareSequence, CompareString, Less, Straddles;
  }

  lemma NotAfterSelf(e: MarketEvent)
    ensures NotAfter(e, e)
  {
    CompareEventsLaws(e, e);
  }

  /** A straddle makes the outcome depend on the order of arrival, whatever other events there are. */
  lemma StraddleSortsApart(events: seq<MarketEvent>, a: MarketEvent, b: MarketEvent, x: MarketEvent)
    requires a in events && b in events && x in events && StraddledBy(a, b, x)
    ensures !SortsAlike(events)
  {
    hide Sort, NotAfter, StraddledBy;
    StraddleCompares(a, b, x);
    var front := ThreeLast(events, a, b, x);
    SortCycle(a, b, x, NotAfter);
    SortCycle(b, x, a, NotAfter);
    assert [a, b, x][0] != [b, x, a][0];
    forall e | e in front
      ensures NotAfter(e, e)
    {
      NotAfterSelf(e);
    }
    SortTellsApart(front, [a, b, x], [b, x, a], NotAfter);
    ApartNotAlike(events, front + [a, b, x], front + [b, x, a]);
  }

  lemma ApartNotAlike(events: seq<MarketEvent>, p: seq<MarketEvent>, q: seq<MarketEvent>)
    requires multiset(p) == multiset(events) && multiset(q) == multiset(events) && SortEvents(p) != SortEvents(q)
    ensures !SortsAlike(events)
  {
    hide SortEvents;
  }

  /** A fixture with unique keys replays alike from every arrival order if and only if no timestamp straddles. */
  lemma SortsAlikeIffNoStraddle(events: seq<MarketEvent>)
    requires UniqueKeys(events)
    ensures SortsAlike(events) <==> NoStraddle(events)
  {
    hide UniqueKeys, StraddledBy, SortEvents;
    if NoStraddle(events) {
      forall shuffled | multiset(shuffled) == multiset(events)
        ensures SortEvents(shuffled) == SortEvents(events)
      {
        ReplayOrderUnique(events, shuffled, []);
      }
    } else {
      var a, b, x :| a in events && b in events && x in events && StraddledBy(a, b, x);
      StraddleSortsApart(events, a, b, x);
    }
  }

  // ----- windowed replay -----

  datatype ReplayRequest = ReplayRequest(
    exchangeId: Option<string>, markets: Option<set<string>>, from: Option<int>, to: Option<int>,
    sourceId: Option<string>, limit: Option<int>)

  /** The filters of a request other than its time range. */
  predicate MatchesScope(e: MarketEvent, r: ReplayRequest) {
    && (r.exchangeId.Some? ==> e.exchangeId == r.exchangeId.value)
    && (r.sourceId.Some? ==> e.sourceId == r.sourceId.value)
    && (r.markets.Some? && e.market.Some? ==> e.market.value in r.markets.value)
  }

  predicate Matches(e: MarketEvent, r: ReplayRequest) {
    && MatchesScope(e, r)
    && (r.from.Some? ==> r.from.value <= e.nanos)
    && (r.to.Some? ==> e.nanos <= r.to.value)
  }

  function Matching(r: ReplayRequest): MarketEvent -> bool {
    (e: MarketEvent) => Matches(e, r)
  }

  function Take<T>(s: seq<T>, limit: Option<int>): seq<T>
    requires limit.Some? ==> limit.value >= 0
  {
    if limit.None? || limit.value >= |s| then s else s[..limit.value]
  }

  class FixtureHistoricalEventSource {
    const orderedEvents: seq<MarketEvent>

    constructor (events: seq<MarketEvent>)
      ensures orderedEvents == SortEvents(events)
    {
      orderedEvents := SortEvents(events);
    }

    /** The generator's yields, in order. A negative limit is refused. */
    method Replay(request: ReplayRequest) returns (r: Result<seq<MarketEvent>, ()>)
      ensures r.Err? <==> request.limit.Some? && request.limit.value < 0
      ensures r.Ok? ==> r.value == Take(Filter(orderedEvents, Matching(request)), request.limit)
    {
      hide Filter, Matches;
      if request.limit.Some? && request.limit.value < 0 {
        return Err(());
      }
      FilterEmpty(Matching(request));
      var yielded: seq<MarketEvent> := [];
      if request.limit == Some(0) {
        return Ok(yielded);
      }
      for n := 0 to |orderedEvents|
        invariant yielded == Filter(orderedEvents[..n], Matching(request))
        invariant request.limit.Some? ==> |yielded| < request.limit.value
      {
        FilterStep(orderedEvents, n, Matching(request));
        assert Matching(request)(orderedEvents[n]) == Matches(orderedEvents[n], request);
        if !Matches(orderedEvents[n], request) {
          continue;
        }
        yielded := yielded + [orderedEvents[n]];
        if request.limit.Some? && |yielded| >= request.limit.value {
          FilterConcat(orderedEvents[..n + 1], orderedEvents[n + 1..], Matching(request));
          assert orderedEvents == orderedEvents[..n + 1] + orderedEvents[n + 1..];
          return Ok(yielded);
        }
      }
      assert orderedEvents[..|orderedEvents|] == orderedEvents;
      return Ok(yielded);
    }
  }

  /** Constructing a source fails exactly on duplicate keys. */
  method CreateSource(events: seq<MarketEvent>)
    returns (source: FixtureHistoricalEventSource?, duplicate: Option<OrderKey>)
    ensures source != null <==> UniqueKeys(events)
    ensures source != null ==> source.orderedEvents == SortEvents(events)
    ensures source == null ==> duplicate.Some?
  {
    duplicate := AssertUniqueOrderKeys(events);
    source := null;
    if duplicate.None? {
      source := new FixtureHistoricalEventSource(events);
    }
  }

  /** A replay without limit yields an event as often as the fixture holds it if the event is of the requested exchange
      and source, of no market or of a requested one, and within the closed time range; and it yields no other. */
  lemma ReplayedExactly(events: seq<MarketEvent>, request: ReplayRequest, e: MarketEvent)
    ensures multiset(Filter(SortEvents(events), Matching(request)))[e]
         == if && (request.exchangeId == None || request.exchangeId == Some(e.exchangeId))
               && (request.sourceId == None || request.sourceId == Some(e.sourceId))
               && (request.markets == None || e.market == None || e.market.value in request.markets.value)
               && (request.from == None || request.from.value <= e.nanos)
               && (request.to == None || e.nanos <= request.to.value)
            then multiset(events)[e] else 0
  {
    hide Filter, Sort, NotAfter;
    FilterCount(SortEvents(events), Matching(request), e);
  }

  function UpTo(t: int, p: MarketEvent -> bool): MarketEvent -> bool {
    (e: MarketEvent) => p(e) && e.nanos <= t
  }

  function Beyond(t: int, p: MarketEvent -> bool): MarketEvent -> bool {
    (e: MarketEvent) => p(e) && e.nanos > t
  }

  function TimeOf(e: MarketEvent): int { e.nanos }

  ghost predicate TimeOrdered(events: seq<MarketEvent>) { OrderedByKey(events, TimeOf) }

  /** In time order, a filter splits cleanly at any instant. */
  lemma FilterSplitsAtInstant(events: seq<MarketEvent>, p: MarketEvent -> bool, t: int)
    requires TimeOrdered(events)
    ensures Filter(events, p) == Filter(events, UpTo(t, p)) + Filter(events, Beyond(t, p))
  {
    FilterSplit(events, UpTo(t, p), Beyond(t, p), p);
  }

  /** Unlimited replay up to an instant, followed by unlimited replay from the next nanosecond on, is replay of the
      whole range: nothing is repeated, dropped or reordered at the seam. */
  lemma AdjacentRangesConcatenate(events: seq<MarketEvent>, request: ReplayRequest, t: int)
    requires request.from.Some? ==> request.from.value <= t
    requires request.to.Some? ==> t <= request.to.value
    ensures var ordered := SortEvents(events);
            Filter(ordered, Matching(request.(to := Some(t))))
            + Filter(ordered, Matching(request.(from := Some(t + 1))))
            == Filter(ordered, Matching(request))
  {
    hide Filter, Sort, SortEvents;
    var ordered := SortEvents(events);
    SortedInTime(events);
    FilterSplitsAtInstant(ordered, Matching(request), t);
    FilterAgree(ordered, Matching(request.(to := Some(t))), UpTo(t, Matching(request)));
    FilterAgree(ordered, Matching(request.(from := Some(t + 1))), Beyond(t, Matching(request)));
  }

  lemma TimeComesFirst()
    ensures KeyFirst(NotAfter, TimeOf)
  {
    hide CompareSequence, CompareString;
  }

  /** Sorted events are in time order even where a straddle leaves the order within a timestamp open. */
  lemma SortedInTime(events: seq<MarketEvent>)
    ensures TimeOrdered(SortEvents(events))
  {
    TimeComesFirst();
    hide NotAfter, Sort;
    SortOrdered(events, NotAfter, TimeOf);
  }

  /** A limit only cuts the stream short. */
  lemma LimitIsPrefix(ordered: seq<MarketEvent>, request: ReplayRequest, limit: nat)
    ensures Take(Filter(ordered, Matching(request)), Some(limit)) <= Filter(ordered, Matching(request))
    ensures |Take(Filter(ordered, Matching(request)), Some(limit))| <= limit
  {}
}
