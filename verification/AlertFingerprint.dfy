/** Alert fingerprints and the notification retry payload that must reproduce them.
    `String.prototype.trim` and `toLowerCase` are arbitrary functions here, so every result holds for
    whatever the runtime's Unicode tables say. */
module AlertFingerprint {
  import opened Sequences
  import opened Calendar

  datatype Severity = P0 | P1 | P2 | P3

  datatype TextOps = TextOps(trim: string -> string, lower: string -> string)

  datatype FingerprintInput = FingerprintInput(
    environment: string, runMode: string, severity: Severity, alertType: string,
    market: Option<string>, strategyId: Option<string>, reasonCode: string, dedupeKey: Option<string>)

  // ----- normalising one segment -----

  predicate Kept(c: char) {
    'a' <= c <= 'z' || '0' <= c <= '9' || c == '_' || c == ':' || c == '-'
  }

  /** Every maximal run of other characters becomes one underscore. */
  function CollapseRuns(s: string, inRun: bool): (r: string)
    ensures forall c | c in r :: Kept(c)
  {
    if s == "" then ""
    else if Kept(s[0]) then [s[0]] + CollapseRuns(s[1..], false)
    else (if inRun then "" else "_") + CollapseRuns(s[1..], true)
  }

  /** Text made of lower-case letters, digits, underscores, colons and hyphens is left alone, and no other is. */
  lemma {:induction false} CollapseKeepsIff(s: string, inRun: bool)
    ensures CollapseRuns(s, inRun) == s <==>
              forall c | c in s :: 'a' <= c <= 'z' || '0' <= c <= '9' || c == '_' || c == ':' || c == '-'
  {
    if s != "" {
      assert s == [s[0]] + s[1..];
      CollapseKeepsIff(s[1..], false);
      if Kept(s[0]) {
        assert CollapseRuns(s, inRun)[1..] == CollapseRuns(s[1..], false);
        assert forall c | c in s :: c == s[0] || c in s[1..];
        assert forall c | c in s[1..] :: c in s;
      } else {
        assert s[0] in s;
      }
    }
  }

  /** Between two parts that do not end or start with a dropped character, a whole run of dropped characters
      becomes one underscore. */
  lemma {:induction false} CollapseOneRun(a: string, run: string, b: string, inRun: bool)
    requires a != "" ==> Kept(a[|a| - 1])
    requires a == "" ==> !inRun
    requires b != "" ==> Kept(b[0])
    requires run != "" && forall c | c in run :: !Kept(c)
    ensures CollapseRuns(a + run + b, inRun) == CollapseRuns(a, inRun) + "_" + CollapseRuns(b, false)
    decreases |a|
  {
    hide CollapseRuns;
    if a == "" {
      assert a + run + b == [run[0]] + (run[1..] + b);
      CollapseStep(run[0], run[1..] + b, false);
      CollapseRest(run[1..], b);
      CollapseEmpty();
    } else {
      assert a + run + b == [a[0]] + (a[1..] + run + b) && a == [a[0]] + a[1..];
      CollapseStep(a[0], a[1..] + run + b, inRun);
      CollapseStep(a[0], a[1..], inRun);
      CollapseOneRun(a[1..], run, b, !Kept(a[0]));
    }
  }

  lemma CollapseStep(c: char, rest: string, inRun: bool)
    ensures CollapseRuns([c] + rest, inRun)
         == (if Kept(c) then [c] else if inRun then "" else "_") + CollapseRuns(rest, !Kept(c))
  {
    assert ([c] + rest)[1..] == rest;
  }

  lemma CollapseEmpty()
    ensures forall inRun :: CollapseRuns("", inRun) == ""
  {}

  lemma {:induction false} CollapseRest(run: string, b: string)
    requires b != "" ==> Kept(b[0])
    requires forall c | c in run :: !Kept(c)
    ensures CollapseRuns(run + b, true) == CollapseRuns(b, false)
  {
    if run == "" {
      assert run + b == b;
    } else {
      assert (run + b)[1..] == run[1..] + b;
      CollapseRest(run[1..], b);
    }
  }

  /** Escapes the separator inside a segment. */
  function EscapeColons(s: string): (r: string)
    ensures ':' !in r
  {
    if s == "" then "" else (if s[0] == ':' then "%3a" else [s[0]]) + EscapeColons(s[1..])
  }

  /** The canonical form of one dimension, before escaping. */
  function Canonical(ops: TextOps, value: string): string {
    CollapseRuns(ops.lower(ops.trim(value)), false)
  }

  function NormalizePart(ops: TextOps, value: string): (r: string)
    ensures ':' !in r
  {
    EscapeColons(Canonical(ops, value))
  }

  function UnescapeColons(s: string): string {
    if s == "" then ""
    else if s[0] == '%' && |s| >= 3 then ":" + UnescapeColons(s[3..])
    else [s[0]] + UnescapeColons(s[1..])
  }

  /** Canonical text has no percent sign, so its escape can be undone. */
  lemma {:induction false} UnescapeEscape(s: string)
    requires forall c | c in s :: Kept(c)
    ensures UnescapeColons(EscapeColons(s)) == s
  {
    if s != "" {
      assert s == [s[0]] + s[1..];
      assert s[0] in s;
      UnescapeEscape(s[1..]);
      var e := EscapeColons(s);
      if s[0] == ':' {
        assert e[3..] == EscapeColons(s[1..]);
      } else {
        assert e[1..] == EscapeColons(s[1..]);
      }
    }
  }

  // ----- joining segments -----

  function Join(parts: seq<string>): string
    requires parts != []
  {
    if |parts| == 1 then parts[0] else parts[0] + ":" + Join(parts[1..])
  }

  /** Splits at every colon. */
  function Split(s: string): (r: seq<string>)
    ensures r != []
  {
    if s == "" then [""]
    else if s[0] == ':' then [""] + Split(s[1..])
    else
      var rest := Split(s[1..]);
      [[s[0]] + rest[0]] + rest[1..]
  }

  lemma {:induction false} SplitSegment(head: string, tail: string)
    requires ':' !in head
    ensures Split(head + ":" + tail) == [head] + Split(tail)
  {
    if head == "" {
      assert (head + ":" + tail)[1..] == tail;
    } else {
      assert head[0] in head;
      assert (head + ":" + tail)[1..] == head[1..] + ":" + tail;
      SplitSegment(head[1..], tail);
      assert [head[0]] + head[1..] == head;
    }
  }

  lemma {:induction false} SplitLast(segment: string)
    requires ':' !in segment
    ensures Split(segment) == [segment]
  {
    if segment != "" {
      assert segment[0] in segment;
      SplitLast(segment[1..]);
      assert [segment[0]] + segment[1..] == segment;
    }
  }

  /** Segments free of the separator are recovered exactly, whatever their number. */
  lemma {:induction false} SplitJoin(parts: seq<string>)
    requires parts != [] && forall p | p in parts :: ':' !in p
    ensures Split(Join(parts)) == parts
  {
    assert parts[0] in parts;
    if |parts| == 1 {
      SplitLast(parts[0]);
    } else {
      SplitJoin(parts[1..]);
      SplitSegment(parts[0], Join(parts[1..]));
      assert [parts[0]] + parts[1..] == parts;
    }
  }

  // ----- fingerprints -----

  function SeverityText(s: Severity): string {
    match s
    case P0 => "P0"
    case P1 => "P1"
    case P2 => "P2"
    case P3 => "P3"
  }

  function OrGlobal(v: Option<string>): string {
    match v
    case None => "global"
    case Some(text) => text
  }

  function Parts(ops: TextOps, a: FingerprintInput): (r: seq<string>)
    ensures r != [] && forall p | p in r :: ':' !in p
  {
    var base := ["alert", NormalizePart(ops, a.environment), NormalizePart(ops, a.runMode), SeverityText(a.severity),
      NormalizePart(ops, a.alertType), NormalizePart(ops, OrGlobal(a.market)),
      NormalizePart(ops, OrGlobal(a.strategyId)),
      NormalizePart(ops, a.reasonCode)];
    match a.dedupeKey
    case None => base
    case Some(key) => base + [NormalizePart(ops, key)]
  }

  function Fingerprint(ops: TextOps, a: FingerprintInput): string {
    Join(Parts(ops, a))
  }

  /** The operational dimensions agree after canonicalisation; an absent market or strategy reads as "global". */
  predicate SameEvent(ops: TextOps, a: FingerprintInput, b: FingerprintInput) {
    && a.severity == b.severity
    && Canonical(ops, a.environment) == Canonical(ops, b.environment)
    && Canonical(ops, a.runMode) == Canonical(ops, b.runMode)
    && Canonical(ops, a.alertType) == Canonical(ops, b.alertType)
    && Canonical(ops, if a.market.Some? then a.market.value else "global")
       == Canonical(ops, if b.market.Some? then b.market.value else "global")
    && Canonical(ops, if a.strategyId.Some? then a.strategyId.value else "global")
       == Canonical(ops, if b.strategyId.Some? then b.strategyId.value else "global")
    && Canonical(ops, a.reasonCode) == Canonical(ops, b.reasonCode)
    && a.dedupeKey.Some? == b.dedupeKey.Some?
    && (a.dedupeKey.Some? ==> Canonical(ops, a.dedupeKey.value) == Canonical(ops, b.dedupeKey.value))
  }

  lemma NormalizeInjective(ops: TextOps, a: string, b: string)
    ensures NormalizePart(ops, a) == NormalizePart(ops, b) <==> Canonical(ops, a) == Canonical(ops, b)
  {
    UnescapeEscape(Canonical(ops, a));
    UnescapeEscape(Canonical(ops, b));
  }

  /** Two requests share a fingerprint exactly when they are the same operational event. */
  lemma FingerprintExact(ops: TextOps, a: FingerprintInput, b: FingerprintInput)
    ensures Fingerprint(ops, a) == Fingerprint(ops, b) <==> SameEvent(ops, a, b)
  {
    hide NormalizePart, Canonical, Split, Join;
    var p, q := Parts(ops, a), Parts(ops, b);
    SplitJoin(p);
    SplitJoin(q);
    NormalizeInjective(ops, a.environment, b.environment);
    NormalizeInjective(ops, a.runMode, b.runMode);
    NormalizeInjective(ops, a.alertType, b.alertType);
    NormalizeInjective(ops, OrGlobal(a.market), OrGlobal(b.market));
    NormalizeInjective(ops, OrGlobal(a.strategyId), OrGlobal(b.strategyId));
    NormalizeInjective(ops, a.reasonCode, b.reasonCode);
    if a.dedupeKey.Some? && b.dedupeKey.Some? {
      NormalizeInjective(ops, a.dedupeKey.value, b.dedupeKey.value);
    }
    PartsEqualIff(ops, a, b);
  }

  lemma PartsEqualIff(ops: TextOps, a: FingerprintInput, b: FingerprintInput)
    ensures Parts(ops, a) == Parts(ops, b) <==>
              && a.severity == b.severity
              && NormalizePart(ops, a.environment) == NormalizePart(ops, b.environment)
              && NormalizePart(ops, a.runMode) == NormalizePart(ops, b.runMode)
              && NormalizePart(ops, a.alertType) == NormalizePart(ops, b.alertType)
              && NormalizePart(ops, OrGlobal(a.market)) == NormalizePart(ops, OrGlobal(b.market))
              && NormalizePart(ops, OrGlobal(a.strategyId)) == NormalizePart(ops, OrGlobal(b.strategyId))
              && NormalizePart(ops, a.reasonCode) == NormalizePart(ops, b.reasonCode)
              && a.dedupeKey.Some? == b.dedupeKey.Some?
              && (a.dedupeKey.Some? ==> NormalizePart(ops, a.dedupeKey.value) == NormalizePart(ops, b.dedupeKey.value))
  {
    hide NormalizePart, OrGlobal;
    var p, q := Parts(ops, a), Parts(ops, b);
    assert |p| == (if a.dedupeKey.Some? then 9 else 8) && |q| == (if b.dedupeKey.Some? then 9 else 8);
    SeverityTextInjective(a.severity, b.severity);
    if p == q {
      assert p[1] == q[1] && p[2] == q[2] && p[3] == q[3] && p[4] == q[4];
      assert p[5] == q[5] && p[6] == q[6] && p[7] == q[7];
      assert a.dedupeKey.Some? ==> p[8] == q[8];
    }
  }

  lemma SeverityTextInjective(a: Severity, b: Severity)
    ensures SeverityText(a) == SeverityText(b) <==> a == b
  {
    assert SeverityText(a)[1] == SeverityText(b)[1] ==> a == b;
  }

  // ----- retry payloads -----

  datatype Json = JNull | JString(text: string) | JOther | JObject(fields: map<string, Json>)

  /** The keys of a retry payload record. */
  datatype Field =
    | Environment | RunMode | SeverityCode | AlertType | Market | StrategyId | ReasonCode | Title | Body
    | FingerprintText | OccurredAt | CorrelationId | DedupeKey | Metadata

  type Payload = map<Field, Json>

  datatype TimestampInput = AsDate(millis: int) | AsText(text: string)

  datatype AlertRequest = AlertRequest(
    input: FingerprintInput, title: string, body: string, occurredAt: Option<TimestampInput>,
    correlationId: Option<string>, metadata: Option<map<string, Json>>)

  datatype RetryPlan = RetryPlan(
    idempotencyKey: string, payload: Payload, runAfter: TimestampInput, maxAttempts: nat)

  datatype PayloadError = BadField(key: Field) | NotDurable

  predicate Durable(s: Severity) { s == P0 || s == P1 }

  function ToIso(t: TimestampInput): string {
    match t
    case AsDate(ms) => IsoString(ms)
    case AsText(text) => text
  }

  function OrNull(v: Option<string>): Json {
    match v
    case None => JNull
    case Some(text) => JString(text)
  }

  function PlanRetry(request: AlertRequest, fingerprint: string, occurredAt: TimestampInput): RetryPlan {
    var at := ToIso(occurredAt);
    var i := request.input;
    RetryPlan(
      RetryKey(fingerprint, at),
      map[
        Environment := JString(i.environment),
        RunMode := JString(i.runMode),
        SeverityCode := JString(SeverityText(i.severity)),
        AlertType := JString(i.alertType),
        Market := OrNull(i.market),
        StrategyId := OrNull(i.strategyId),
        ReasonCode := JString(i.reasonCode),
        Title := JString(request.title),
        Body := JString(request.body),
        FingerprintText := JString(fingerprint),
        OccurredAt := JString(at),
        CorrelationId := OrNull(request.correlationId),
        DedupeKey := OrNull(i.dedupeKey),
        Metadata := JObject(if request.metadata.Some? then request.metadata.value else map[])
      ],
      occurredAt,
      3)
  }

  lemma {:induction false} SplitThen(parts: seq<string>, tail: string)
    requires parts != [] && forall p | p in parts :: ':' !in p
    ensures Split(Join(parts) + ":" + tail) == parts + Split(tail)
  {
    hide Split;
    assert parts[0] in parts;
    if |parts| == 1 {
      SplitSegment(parts[0], tail);
      assert parts == [parts[0]];
    } else {
      SplitThen(parts[1..], tail);
      SplitSegment(parts[0], Join(parts[1..]) + ":" + tail);
      assert Join(parts) + ":" + tail == parts[0] + ":" + (Join(parts[1..]) + ":" + tail);
      assert [parts[0]] + parts[1..] == parts;
    }
  }

  lemma {:induction false} JoinSplit(s: string)
    ensures Join(Split(s)) == s
  {
    if s != "" {
      JoinSplit(s[1..]);
      var rest := Split(s[1..]);
      if s[0] == ':' {
        assert ([""] + rest)[1..] == rest;
      } else {
        assert ([[s[0]] + rest[0]] + rest[1..])[1..] == rest[1..];
      }
    }
  }

  lemma SplitExact(s: string, t: string)
    ensures Split(s) == Split(t) <==> s == t
  {
    JoinSplit(s);
    JoinSplit(t);
  }

  function RetryKey(fingerprint: string, at: string): string {
    Join(["notification_retry", fingerprint, at])
  }

  lemma RetryKeySplit(parts: seq<string>, at: string)
    requires parts != [] && forall p | p in parts :: ':' !in p
    ensures Split(RetryKey(Join(parts), at)) == ["notification_retry"] + (parts + Split(at))
  {
    hide Split;
    SplitThen(parts, at);
    SplitSegment("notification_retry", Join(parts) + ":" + at);
    var fp := Join(parts);
    assert ["notification_retry", fp, at][1..] == [fp, at] && [fp, at][1..] == [at];
    assert Join([at]) == at;
    assert Join([fp, at]) == fp + ":" + at;
    assert RetryKey(fp, at) == "notification_retry" + ":" + (fp + ":" + at);
  }

  /** Exactly when two retries share an idempotency key. With or without a dedupe key on both, they are the same
      event at the same time text. With one on the first only, the second event is the first without it, and its
      time text is the dedupe segment and the time text of the first. */
  lemma RetryKeyExact(ops: TextOps, a: FingerprintInput, b: FingerprintInput, at: string, bt: string)
    requires b.dedupeKey.Some? ==> a.dedupeKey.Some?
    ensures RetryKey(Fingerprint(ops, a), at) == RetryKey(Fingerprint(ops, b), bt) <==>
              if a.dedupeKey.Some? == b.dedupeKey.Some? then SameEvent(ops, a, b) && at == bt
              else SameEvent(ops, a.(dedupeKey := None), b) && bt == NormalizePart(ops, a.dedupeKey.value) + ":" + at
  {
    hide NormalizePart, Split, Join, SameEvent, RetryKey;
    RetryKeySplit(Parts(ops, a), at);
    RetryKeySplit(Parts(ops, b), bt);
    SplitExact(RetryKey(Fingerprint(ops, a), at), RetryKey(Fingerprint(ops, b), bt));
    SplitExact(at, bt);
    var front := Parts(ops, a.(dedupeKey := None));
    PartsExact(ops, a, b);
    PartsExact(ops, a.(dedupeKey := None), b);
    if a.dedupeKey.Some? {
      var segment := NormalizePart(ops, a.dedupeKey.value);
      SplitSegment(segment, at);
      SplitExact(segment + ":" + at, bt);
      assert Parts(ops, a) + Split(at) == front + ([segment] + Split(at));
      if b.dedupeKey.None? {
        SameFront(front, Parts(ops, b), [segment] + Split(at), Split(bt));
      } else {
        SameFront(Parts(ops, a), Parts(ops, b), Split(at), Split(bt));
      }
    } else {
      SameFront(Parts(ops, a), Parts(ops, b), Split(at), Split(bt));
    }
    SameFront(["notification_retry"], ["notification_retry"], Parts(ops, a) + Split(at), Parts(ops, b) + Split(bt));
  }

  lemma PartsExact(ops: TextOps, a: FingerprintInput, b: FingerprintInput)
    ensures Parts(ops, a) == Parts(ops, b) <==> SameEvent(ops, a, b)
    ensures |Parts(ops, a)| == if a.dedupeKey.Some? then 9 else 8
  {
    hide NormalizePart, SameEvent;
    FingerprintExact(ops, a, b);
    SplitJoin(Parts(ops, a));
    SplitJoin(Parts(ops, b));
    hide Split, Join;
  }

  lemma SameFront(p: seq<string>, q: seq<string>, x: seq<string>, y: seq<string>)
    requires |p| == |q|
    ensures p + x == q + y <==> p == q && x == y
  {
    assert (p + x)[..|p|] == p && (q + y)[..|q|] == q;
    assert (p + x)[|p|..] == x && (q + y)[|q|..] == y;
  }

  predicate Blank(ops: TextOps, text: string) { ops.trim(text) == "" }

  function ReadRequired(ops: TextOps, payload: Payload, key: Field): Result<string, PayloadError> {
    if key in payload && payload[key].JString? && !Blank(ops, payload[key].text) then Ok(payload[key].text)
    else Err(BadField(key))
  }

  function ReadOptional(ops: TextOps, payload: Payload, key: Field): Result<Option<string>, PayloadError> {
    if key !in payload || payload[key] == JNull then Ok(None)
    else if payload[key].JString? && !Blank(ops, payload[key].text) then Ok(Some(payload[key].text))
    else Err(BadField(key))
  }

  function ReadRecord(payload: Payload, key: Field): Result<Option<map<string, Json>>, PayloadError> {
    if key !in payload || payload[key] == JNull then Ok(None)
    else if payload[key].JObject? then Ok(Some(payload[key].fields))
    else Err(BadField(key))
  }

  function ReadSeverity(ops: TextOps, payload: Payload): Result<Severity, PayloadError> {
    var text :- ReadRequired(ops, payload, SeverityCode);
    if text == "P0" then Ok(P0)
    else if text == "P1" then Ok(P1)
    else if text == "P2" then Ok(P2)
    else if text == "P3" then Ok(P3)
    else Err(BadField(SeverityCode))
  }

  /** Restores a request from a queued payload, or reports the first field that is not usable. */
  function Restore(ops: TextOps, payload: Payload): Result<AlertRequest, PayloadError> {
    var severity :- ReadSeverity(ops, payload);
    if !Durable(severity) then Err(NotDurable) else
      var correlationId :- ReadOptional(ops, payload, CorrelationId);
      var dedupeKey :- ReadOptional(ops, payload, DedupeKey);
      var market :- ReadOptional(ops, payload, Market);
      var strategyId :- ReadOptional(ops, payload, StrategyId);
      var environment :- ReadRequired(ops, payload, Environment);
      var runMode :- ReadRequired(ops, payload, RunMode);
      var alertType :- ReadRequired(ops, payload, AlertType);
      var reasonCode :- ReadRequired(ops, payload, ReasonCode);
      var title :- ReadRequired(ops, payload, Title);
      var body :- ReadRequired(ops, payload, Body);
      var occurredAt :- ReadRequired(ops, payload, OccurredAt);
      var metadata :- ReadRecord(payload, Metadata);
      Ok(AlertRequest(
        FingerprintInput(environment, runMode, severity, alertType, market, strategyId, reasonCode, dedupeKey),
        title, body, Some(AsText(occurredAt)), correlationId,
        Some(if metadata.Some? then metadata.value else map[])))
  }

  /** The field texts that the payload reader accepts. */
  predicate Restorable(ops: TextOps, request: AlertRequest, occurredAt: TimestampInput) {
    var i := request.input;
    && (i.severity == P0 || i.severity == P1) && !Blank(ops, SeverityText(i.severity))
    && !Blank(ops, i.environment) && !Blank(ops, i.runMode) && !Blank(ops, i.alertType) && !Blank(ops, i.reasonCode)
    && !Blank(ops, request.title) && !Blank(ops, request.body) && !Blank(ops, ToIso(occurredAt))
    && (request.correlationId.Some? ==> !Blank(ops, request.correlationId.value))
    && (i.dedupeKey.Some? ==> !Blank(ops, i.dedupeKey.value))
    && (i.market.Some? ==> !Blank(ops, i.market.value))
    && (i.strategyId.Some? ==> !Blank(ops, i.strategyId.value))
  }

  /** What a queued plan restores to: the request itself, with its time as text and its metadata present. */
  function Requeued(request: AlertRequest, occurredAt: TimestampInput): AlertRequest {
    request.(occurredAt := Some(AsText(ToIso(occurredAt))),
             metadata := Some(if request.metadata.Some? then request.metadata.value else map[]))
  }

  ghost predicate Reads(ops: TextOps, p: Payload, key: Field, text: string) {
    ReadRequired(ops, p, key) == if Blank(ops, text) then Err(BadField(key)) else Ok(text)
  }

  ghost predicate ReadsOption(ops: TextOps, p: Payload, key: Field, v: Option<string>) {
    ReadOptional(ops, p, key) == if v.Some? && Blank(ops, v.value) then Err(BadField(key)) else Ok(v)
  }

  lemma PlanFields(request: AlertRequest, fingerprint: string, occurredAt: TimestampInput)
    ensures var p := PlanRetry(request, fingerprint, occurredAt).payload;
            var i := request.input;
            && {Environment, RunMode, SeverityCode, AlertType, Market, StrategyId, ReasonCode, Title, Body, OccurredAt,
                CorrelationId, DedupeKey, Metadata} <= p.Keys
            && p[Environment] == JString(i.environment) && p[RunMode] == JString(i.runMode)
            && p[SeverityCode] == JString(SeverityText(i.severity)) && p[AlertType] == JString(i.alertType)
            && p[Market] == OrNull(i.market) && p[StrategyId] == OrNull(i.strategyId)
            && p[ReasonCode] == JString(i.reasonCode) && p[Title] == JString(request.title)
            && p[Body] == JString(request.body) && p[OccurredAt] == JString(ToIso(occurredAt))
            && p[CorrelationId] == OrNull(request.correlationId) && p[DedupeKey] == OrNull(i.dedupeKey)
            && p[Metadata] == JObject(if request.metadata.Some? then request.metadata.value else map[])
  {
    hide ToIso, Join, SeverityText, OrNull;
  }

  lemma PlanReads(ops: TextOps, request: AlertRequest, fingerprint: string, occurredAt: TimestampInput)
    ensures var p := PlanRetry(request, fingerprint, occurredAt).payload;
            var i := request.input;
            && Reads(ops, p, Environment, i.environment) && Reads(ops, p, RunMode, i.runMode)
            && Reads(ops, p, SeverityCode, SeverityText(i.severity))
            && Reads(ops, p, AlertType, i.alertType) && Reads(ops, p, ReasonCode, i.reasonCode)
            && Reads(ops, p, Title, request.title) && Reads(ops, p, Body, request.body)
            && Reads(ops, p, OccurredAt, ToIso(occurredAt))
            && ReadsOption(ops, p, Market, i.market) && ReadsOption(ops, p, StrategyId, i.strategyId)
            && ReadsOption(ops, p, DedupeKey, i.dedupeKey) && ReadsOption(ops, p, CorrelationId, request.correlationId)
            && ReadRecord(p, Metadata) == Ok(Some(if request.metadata.Some? then request.metadata.value else map[]))
  {
    hide ToIso, Blank, SeverityText, PlanRetry;
    PlanFields(request, fingerprint, occurredAt);
  }

  lemma PlanReadsSeverity(ops: TextOps, p: Payload, s: Severity)
    requires Reads(ops, p, SeverityCode, SeverityText(s))
    ensures ReadSeverity(ops, p) == if Blank(ops, SeverityText(s)) then Err(BadField(SeverityCode)) else Ok(s)
  {
    hide Blank, ReadRequired;
    SeverityTextInjective(s, P0);
    SeverityTextInjective(s, P1);
    SeverityTextInjective(s, P2);
  }

  /** A planned retry restores exactly when its texts are usable, and then to the same request. */
  lemma RestorePlan(ops: TextOps, request: AlertRequest, fingerprint: string, occurredAt: TimestampInput)
    ensures Restore(ops, PlanRetry(request, fingerprint, occurredAt).payload).Ok? <==>
              Restorable(ops, request, occurredAt)
    ensures Restorable(ops, request, occurredAt) ==>
              Restore(ops, PlanRetry(request, fingerprint, occurredAt).payload) == Ok(Requeued(request, occurredAt))
  {
    hide ToIso, Blank, PlanRetry, ReadRequired, ReadOptional, ReadRecord, ReadSeverity, SeverityText;
    PlanReads(ops, request, fingerprint, occurredAt);
    PlanReadsSeverity(ops, PlanRetry(request, fingerprint, occurredAt).payload, request.input.severity);
  }

  /** The time a dispatch attaches to its retry plan. */
  function AlertTime(request: AlertRequest, reservationAt: TimestampInput): TimestampInput {
    match request.occurredAt
    case None => reservationAt
    case Some(t) => t
  }

  /** The plan a failed dispatch of `request` queues when it reserved at `reservationAt`. */
  function FailedDispatchPlan(ops: TextOps, request: AlertRequest, reservationAt: TimestampInput): RetryPlan {
    PlanRetry(request, Fingerprint(ops, request.input), AlertTime(request, reservationAt))
  }

  /** What a failed dispatch queues: a retry that runs at the alert's own time if it has one and at the reservation's
      otherwise, three times at most, under a key and a payload that name the fingerprint and that time. */
  lemma FailedDispatchPlanIs(ops: TextOps, request: AlertRequest, reservationAt: TimestampInput)
    ensures var plan := FailedDispatchPlan(ops, request, reservationAt);
            var at := if request.occurredAt.Some? then request.occurredAt.value else reservationAt;
            var text := if at.AsText? then at.text else IsoString(at.millis);
            var fp := Fingerprint(ops, request.input);
            && plan.runAfter == at && plan.maxAttempts == 3
            && plan.idempotencyKey == "notification_retry:" + fp + ":" + text
            && FingerprintText in plan.payload && plan.payload[FingerprintText] == JString(fp)
            && OccurredAt in plan.payload && plan.payload[OccurredAt] == JString(text)
  {
    hide Fingerprint, IsoString, SeverityText, OrNull;
    var fp, text := Fingerprint(ops, request.input), ToIso(AlertTime(request, reservationAt));
    assert ["notification_retry", fp, text][1..] == [fp, text] && [fp, text][1..] == [text];
    assert Join([text]) == text;
    assert Join([fp, text]) == fp + ":" + text;
    assert RetryKey(fp, text) == "notification_retry" + ":" + (fp + ":" + text);
  }

  /** The payload left in the queue after the retries made at the given later times all fail. */
  function PayloadAfter(ops: TextOps, payload: Payload, retriesAt: seq<TimestampInput>)
    : Result<RetryPlan, PayloadError>
    requires retriesAt != []
    decreases |retriesAt|
  {
    var request :- Restore(ops, payload);
    var plan := FailedDispatchPlan(ops, request, retriesAt[0]);
    if |retriesAt| == 1 then Ok(plan) else PayloadAfter(ops, plan.payload, retriesAt[1..])
  }

  /** However often a retry fails, and whenever, it plans the same idempotency key and the same payload again,
      and every attempt carries the fingerprint of the first. */
  lemma {:induction false} RetryFixpoint(
      ops: TextOps, request: AlertRequest, reservationAt: TimestampInput, retriesAt: seq<TimestampInput>)
    requires retriesAt != []
    requires Restorable(ops, request, AlertTime(request, reservationAt))
    ensures var first := FailedDispatchPlan(ops, request, reservationAt);
            var again := PayloadAfter(ops, first.payload, retriesAt);
            && again.Ok?
            && again.value.idempotencyKey == first.idempotencyKey
            && again.value.payload == first.payload
            && Fingerprint(ops, Restore(ops, first.payload).value.input) == Fingerprint(ops, request.input)
    decreases |retriesAt|
  {
    hide Restore, Fingerprint, Restorable, Blank, Join;
    var at := AlertTime(request, reservationAt);
    var first := FailedDispatchPlan(ops, request, reservationAt);
    RestorePlan(ops, request, Fingerprint(ops, request.input), at);
    var next := Requeued(request, at);
    assert Restorable(ops, next, AlertTime(next, retriesAt[0])) by {
      RequeuedRestorable(ops, request, at, retriesAt[0]);
    }
    assert FailedDispatchPlan(ops, next, retriesAt[0]).payload == first.payload;
    if |retriesAt| > 1 {
      RetryFixpoint(ops, next, retriesAt[0], retriesAt[1..]);
    }
  }

  lemma RequeuedRestorable(ops: TextOps, request: AlertRequest, at: TimestampInput, later: TimestampInput)
    requires Restorable(ops, request, at)
    ensures Restorable(ops, Requeued(request, at), AlertTime(Requeued(request, at), later))
  {}
}
