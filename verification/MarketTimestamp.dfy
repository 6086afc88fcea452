/** Market event timestamps: the parser of `src/domain/market-event.ts` and the printer of
    `src/application/backtest/backtest-report.ts`, in nanoseconds since the epoch. */
module MarketTimestamp {
  import opened Sequences
  import opened Calendar
  import opened DecimalText

  const NANOS_PER_SECOND := 1_000_000_000

  datatype TimestampError = NoExplicitTimezone | BadOffset | BadCalendarValue

  datatype Offset = Utc | Shift(ahead: bool, hours: int, minutes: int)

  /** The captures of the timestamp pattern. */
  datatype Fields = Fields(
    year: int, month: int, day: int, hour: int, minute: int, second: int, fraction: string, offset: Offset)

  /** The text after the seconds: an optional fraction of one to nine digits, then the zone. */
  function MatchFraction(s: string): (r: Option<(string, string)>)
    ensures r.Some? ==> AllDigits(r.value.0) && |r.value.0| <= 9
    ensures r.Some? ==> s == (if r.value.0 == "" then "" else "." + r.value.0) + r.value.1
  {
    if s != "" && s[0] == '.' then
      var n := DigitRun(s[1..]);
      if 1 <= n <= 9 then Some((s[1..][..n], s[1..][n..])) else None
    else Some(("", s))
  }

  function MatchZone(s: string): Option<Offset> {
    if s == "Z" then Some(Utc)
    else if |s| == 6 && (s[0] == '+' || s[0] == '-') && AllDigits(s[1..3]) && s[3] == ':' && AllDigits(s[4..6]) then
      Some(Shift(s[0] == '+', Number(s[1..3]), Number(s[4..6])))
    else None
  }

  /** Whether the first nineteen characters read `YYYY-MM-DDTHH:MM:SS`. */
  predicate MatchesClock(s: string) {
    && |s| >= 19
    && AllDigits(s[0..4]) && s[4] == '-' && AllDigits(s[5..7]) && s[7] == '-' && AllDigits(s[8..10])
    && s[10] == 'T' && AllDigits(s[11..13]) && s[13] == ':' && AllDigits(s[14..16]) && s[16] == ':'
    && AllDigits(s[17..19])
  }

  function Match(s: string): (r: Option<Fields>)
    ensures r.Some? ==> AllDigits(r.value.fraction) && |r.value.fraction| <= 9
  {
    if !MatchesClock(s) then None else
      match MatchFraction(s[19..])
      case None => None
      case Some((fraction, zone)) =>
        match MatchZone(zone)
        case None => None
        case Some(offset) =>
          Some(Fields(Number(s[0..4]), Number(s[5..7]), Number(s[8..10]), Number(s[11..13]), Number(s[14..16]),
                      Number(s[17..19]), fraction, offset))
  }

  /** Builds the instant with carrying setters, then rejects it unless every field reads back unchanged. */
  function UtcMillisFromParts(f: Fields): Option<int> {
    var t := Instant(MakeDay(f.year, f.month - 1, f.day), f.hour, f.minute, f.second, 0);
    if && UtcFullYear(t) == f.year && UtcMonth(t) == f.month && UtcDate(t) == f.day
       && UtcHours(t) == f.hour && UtcMinutes(t) == f.minute && UtcSeconds(t) == f.second
    then Some(t) else None
  }

  function OffsetSeconds(o: Offset): int {
    match o
    case Utc => 0
    case Shift(ahead, hours, minutes) => (hours * 60 + minutes) * 60 * (if ahead then 1 else -1)
  }

  function ZeroFill(s: string): string
    requires |s| <= 9
  {
    s + seq(9 - |s|, _ => '0')
  }

  function FractionNanos(s: string): int
    requires AllDigits(s) && |s| <= 9
  {
    if s == "" then 0 else Number(ZeroFill(s))
  }

  function TruncDiv(a: int, b: int): int
    requires b > 0
  {
    if a >= 0 then a / b else -((-a) / b)
  }

  /** Parses a timestamp with an explicit zone into epoch nanoseconds. */
  function Parse(s: string): Result<int, TimestampError> {
    match Match(s)
    case None => Err(NoExplicitTimezone)
    case Some(f) =>
      if f.offset.Shift? && (f.offset.hours > 23 || f.offset.minutes > 59) then Err(BadOffset)
      else
        match UtcMillisFromParts(f)
        case None => Err(BadCalendarValue)
        case Some(t) =>
          Ok((TruncDiv(t, 1_000) - OffsetSeconds(f.offset)) * NANOS_PER_SECOND + FractionNanos(f.fraction))
  }

  /** The read-back test of the setters accepts exactly the dates and times that exist. */
  lemma PartsAcceptedIff(f: Fields)
    ensures UtcMillisFromParts(f).Some? <==> ValidDate(f.year, f.month, f.day) && ValidTime(f.hour, f.minute, f.second)
    ensures UtcMillisFromParts(f).Some? ==>
              UtcMillisFromParts(f).value == Instant(MakeDay(f.year, f.month - 1, f.day), f.hour, f.minute, f.second, 0)
  {
    hide YearOf, MonthOf, DateOf, MakeDay;
    var day := MakeDay(f.year, f.month - 1, f.day);
    var t := Instant(day, f.hour, f.minute, f.second, 0);
    FieldsInstant(t);
    DateOfDay(DayNumber(t));
    if ValidDate(f.year, f.month, f.day) && ValidTime(f.hour, f.minute, f.second) {
      InstantFields(day, f.hour, f.minute, f.second, 0);
      DayOfDate(f.year, f.month, f.day);
    }
  }

  // ----- printing -----

  /** Truncating division of a signed `bigint`, then the correction that makes the fraction nonnegative. */
  function SplitNanos(n: int): (r: (int, int))
    ensures n == r.0 * NANOS_PER_SECOND + r.1 && 0 <= r.1 < NANOS_PER_SECOND
  {
    var seconds := TruncDiv(n, NANOS_PER_SECOND);
    var fraction := n - seconds * NANOS_PER_SECOND;
    if fraction < 0 then (seconds - 1, fraction + NANOS_PER_SECOND) else (seconds, fraction)
  }

  function StripZeros(s: string): (r: string)
    ensures |r| <= |s| && r == s[..|r|]
    ensures forall i | |r| <= i < |s| :: s[i] == '0'
    ensures r != "" ==> r[|r| - 1] != '0'
  {
    if s == "" || s[|s| - 1] != '0' then s else StripZeros(s[..|s| - 1])
  }

  function Format(n: int): string {
    var (seconds, fraction) := SplitNanos(n);
    var iso := IsoString(seconds * 1_000);
    var clock := if |iso| <= 19 then iso else iso[..19];
    if fraction == 0 then clock + "Z" else clock + "." + StripZeros(Pad(fraction, 9)) + "Z"
  }

  /** The UTC year of a nanosecond instant. */
  function YearOfNanos(n: int): int {
    UtcFullYear(SplitNanos(n).0 * 1_000)
  }

  /** `normalizeTimestampInput` on text: parse, then print. */
  function Normalize(s: string): Result<string, TimestampError> {
    match Parse(s)
    case Err(e) => Err(e)
    case Ok(n) => Ok(Format(n))
  }

  // ----- the printed text parses back -----

  function Clock(t: int): string {
    IsoDate(t) + "T" + IsoTime(t)
  }

  lemma ClockShape(y: string, m: string, d: string, h: string, mi: string, sec: string)
    requires AllDigits(y) && AllDigits(m) && AllDigits(d) && AllDigits(h) && AllDigits(mi) && AllDigits(sec)
    requires |y| == 4 && |m| == 2 && |d| == 2 && |h| == 2 && |mi| == 2 && |sec| == 2
    ensures var s := (y + "-" + m + "-" + d) + "T" + (h + ":" + mi + ":" + sec);
            && |s| == 19 && MatchesClock(s)
            && s[0..4] == y && s[5..7] == m && s[8..10] == d && s[11..13] == h && s[14..16] == mi && s[17..19] == sec
  {
    var s := (y + "-" + m + "-" + d) + "T" + (h + ":" + mi + ":" + sec);
    assert s[0..4] == y && s[5..7] == m && s[8..10] == d;
    assert s[11..13] == h && s[14..16] == mi && s[17..19] == sec;
  }

  lemma TextPrefix(a: string, b: string, c: string, d: string)
    ensures |a + b + c + d| >= |a| && (a + b + c + d)[..|a|] == a
  {}

  lemma ClockText(t: int)
    requires 0 <= UtcFullYear(t) <= 9999
    ensures |Clock(t)| == 19 && MatchesClock(Clock(t))
    ensures Clock(t)[0..4] == Pad(UtcFullYear(t), 4) && Clock(t)[5..7] == Pad(UtcMonth(t), 2)
    ensures Clock(t)[8..10] == Pad(UtcDate(t), 2) && Clock(t)[11..13] == Pad(UtcHours(t), 2)
    ensures Clock(t)[14..16] == Pad(UtcMinutes(t), 2) && Clock(t)[17..19] == Pad(UtcSeconds(t), 2)
  {
    hide MatchesClock, Pad, UtcFullYear, UtcMonth, UtcDate, UtcHours, UtcMinutes, UtcSeconds;
    ClockShape(Pad(UtcFullYear(t), 4), Pad(UtcMonth(t), 2), Pad(UtcDate(t), 2),
               Pad(UtcHours(t), 2), Pad(UtcMinutes(t), 2), Pad(UtcSeconds(t), 2));
  }

  /** The first nineteen characters of the ISO text are its clock. */
  lemma IsoClock(t: int)
    requires 0 <= UtcFullYear(t) <= 9999
    ensures |IsoString(t)| > 19 && IsoString(t)[..19] == Clock(t)
  {
    ClockText(t);
    hide UtcFullYear, IsoDate, IsoTime, Pad;
    TextPrefix(Clock(t), ".", Pad(UtcMillis(t), 3), "Z");
  }

  lemma ClockNumbers(t: int)
    requires 0 <= UtcFullYear(t) <= 9999
    ensures MatchesClock(Clock(t))
    ensures Number(Clock(t)[0..4]) == UtcFullYear(t) && Number(Clock(t)[5..7]) == UtcMonth(t)
    ensures Number(Clock(t)[8..10]) == UtcDate(t) && Number(Clock(t)[11..13]) == UtcHours(t)
    ensures Number(Clock(t)[14..16]) == UtcMinutes(t) && Number(Clock(t)[17..19]) == UtcSeconds(t)
  {
    hide UtcFullYear, UtcMonth, UtcDate, UtcHours, UtcMinutes, UtcSeconds, MatchesClock, Clock, Pad, Number;
    ClockText(t);
    Pow10Table();
    NumberOfPad(UtcFullYear(t), 4);
    NumberOfPad(UtcMonth(t), 2);
    NumberOfPad(UtcDate(t), 2);
    NumberOfPad(UtcHours(t), 2);
    NumberOfPad(UtcMinutes(t), 2);
    NumberOfPad(UtcSeconds(t), 2);
  }

  /** Appending a fraction and a zone to a clock text adds just those captures. */
  lemma MatchClockThen(clock: string, fraction: string, zone: string)
    requires |clock| == 19 && MatchesClock(clock)
    requires AllDigits(fraction) && |fraction| <= 9 && MatchZone(zone).Some?
    ensures var s := clock + (if fraction == "" then "" else "." + fraction) + zone;
            Match(s) == Some(Fields(Number(clock[0..4]), Number(clock[5..7]), Number(clock[8..10]),
                                    Number(clock[11..13]), Number(clock[14..16]), Number(clock[17..19]),
                                    fraction, MatchZone(zone).value))
  {
    hide Number, MatchZone;
    var s := clock + (if fraction == "" then "" else "." + fraction) + zone;
    var tail := (if fraction == "" then "" else "." + fraction) + zone;
    assert s == clock + tail;
    assert s[19..] == tail;
    assert s[0..4] == clock[0..4] && s[5..7] == clock[5..7] && s[8..10] == clock[8..10];
    assert s[11..13] == clock[11..13] && s[14..16] == clock[14..16] && s[17..19] == clock[17..19];
    FractionThen(fraction, zone);
  }

  lemma FractionThen(fraction: string, zone: string)
    requires AllDigits(fraction) && |fraction| <= 9 && MatchZone(zone).Some?
    ensures MatchFraction((if fraction == "" then "" else "." + fraction) + zone) == Some((fraction, zone))
  {
    var tail := (if fraction == "" then "" else "." + fraction) + zone;
    if fraction == "" {
      assert tail == zone;
    } else {
      assert tail[1..] == fraction + zone;
      DigitRunExact(fraction, zone);
      assert tail[1..][..|fraction|] == fraction && tail[1..][|fraction|..] == zone;
    }
  }

  /** Dropping trailing zeros of a padded fraction loses nothing. */
  lemma FractionRoundTrip(fraction: int)
    requires 0 < fraction < NANOS_PER_SECOND
    ensures var s := StripZeros(Pad(fraction, 9)); AllDigits(s) && 1 <= |s| <= 9 && FractionNanos(s) == fraction
  {
    Pow10Table();
    NumberOfPad(fraction, 9);
    var p := Pad(fraction, 9);
    var s := StripZeros(p);
    assert forall i | 0 <= i < |s| :: s[i] == p[i];
    assert ZeroFill(s) == p;
    if s == "" {
      ZerosValue(p);
    }
  }

  lemma {:induction false} ZerosValue(s: string)
    requires forall i | 0 <= i < |s| :: s[i] == '0'
    ensures AllDigits(s) && Number(s) == 0
  {
    if s != "" {
      ZerosValue(s[..|s| - 1]);
    }
  }

  lemma PartsOfInstant(t: int, fraction: string)
    requires t % 1_000 == 0
    ensures UtcMillisFromParts(Fields(UtcFullYear(t), UtcMonth(t), UtcDate(t), UtcHours(t), UtcMinutes(t),
                                      UtcSeconds(t), fraction, Utc)) == Some(t)
  {
    hide YearOf, MonthOf, DateOf, MakeDay;
    DateOfDay(DayNumber(t));
    FieldsInstant(t);
  }

  /** The instant the calendar test accepts is the instant the clock text was printed from. */
  lemma ParseClock(t: int, fraction: string)
    requires 0 <= UtcFullYear(t) <= 9999 && t % 1_000 == 0
    requires AllDigits(fraction) && |fraction| <= 9
    ensures Parse(Clock(t) + (if fraction == "" then "" else "." + fraction) + "Z")
         == Ok(t / 1_000 * NANOS_PER_SECOND + FractionNanos(fraction))
  {
    hide UtcFullYear, UtcMonth, UtcDate, UtcHours, UtcMinutes, UtcSeconds, MatchesClock, Clock, Match, Number,
         UtcMillisFromParts, FractionNanos;
    ClockText(t);
    ClockNumbers(t);
    MatchClockThen(Clock(t), fraction, "Z");
    PartsOfInstant(t, fraction);
  }

  lemma ParseWholeSecond(t: int)
    requires 0 <= UtcFullYear(t) <= 9999 && t % 1_000 == 0
    ensures Parse(Clock(t) + "Z") == Ok(t / 1_000 * NANOS_PER_SECOND)
  {
    hide UtcFullYear, Clock, Parse;
    ParseClock(t, "");
    assert Clock(t) + "" + "Z" == Clock(t) + "Z";
  }

  /** Every nanosecond instant of the years 0 to 9999, before or after 1970, prints to text that parses back to it. */
  lemma ParseFormat(n: int)
    requires 0 <= YearOfNanos(n) <= 9999
    ensures Parse(Format(n)) == Ok(n)
  {
    hide UtcFullYear, IsoString, Clock, Parse, StripZeros, Pad, FractionNanos, MatchesClock;
    var (seconds, fraction) := SplitNanos(n);
    var t := seconds * 1_000;
    IsoClock(t);
    if fraction == 0 {
      ParseWholeSecond(t);
    } else {
      FractionRoundTrip(fraction);
      var s := StripZeros(Pad(fraction, 9));
      ParseClock(t, s);
      assert Clock(t) + ("." + s) + "Z" == Clock(t) + "." + s + "Z";
    }
  }

  lemma SignNotMatched(s: string)
    requires s != "" && !IsDigit(s[0])
    ensures !MatchesClock(s)
  {
    if |s| >= 19 {
      assert s[0..4][0] == s[0];
    }
  }

  /** Outside those years the printed text starts with a sign, which the pattern refuses. */
  lemma ParseFormatOutside(n: int)
    requires !(0 <= YearOfNanos(n) <= 9999)
    ensures Parse(Format(n)) == Err(NoExplicitTimezone)
  {
    var (seconds, fraction) := SplitNanos(n);
    var t := seconds * 1_000;
    var iso := IsoString(t);
    DateOfDay(DayNumber(t));
    assert iso[0] == '-' || iso[0] == '+';
    assert |iso| > 19;
    assert Format(n)[0] == iso[0];
    SignNotMatched(Format(n));
  }

  /** The printer and parser undo each other on exactly the years 0 to 9999. */
  lemma RoundTripIff(n: int)
    ensures Parse(Format(n)) == Ok(n) <==> 0 <= YearOfNanos(n) <= 9999
  {
    if 0 <= YearOfNanos(n) <= 9999 {
      ParseFormat(n);
    } else {
      ParseFormatOutside(n);
    }
  }

  // ----- when two instants share a text -----

  /** The range of a JavaScript `Date`; outside it the printer throws. */
  predicate InDateRange(n: int) {
    -8_640_000_000_000_000 <= SplitNanos(n).0 * 1_000 <= 8_640_000_000_000_000
  }

  predicate FourDigitYear(n: int) { 0 <= YearOfNanos(n) <= 9999 }

  function Minute(n: int): int { SplitNanos(n).0 / 60 }

  function Fraction(n: int): int { SplitNanos(n).1 }

  /** What the printer keeps of the ISO text when the year has six digits and a sign: everything up to the minute. */
  function MinuteText(t: int): string {
    IsoYear(UtcFullYear(t)) + "-" + Pad(UtcMonth(t), 2) + "-" + Pad(UtcDate(t), 2) + "T" + Pad(UtcHours(t), 2) + ":"
    + Pad(UtcMinutes(t), 2)
  }

  function FractionText(fraction: int): string
    requires 0 <= fraction
  {
    if fraction == 0 then "Z" else "." + StripZeros(Pad(fraction, 9)) + "Z"
  }

  lemma YearInRange(n: int)
    requires InDateRange(n)
    ensures -999_999 <= YearOfNanos(n) <= 999_999
  {
    var d := DayNumber(SplitNanos(n).0 * 1_000);
    DayFromYearEstimate(YearOf(d));
    DayFromYearEstimate(YearOf(d) + 1);
  }

  /** Outside the four-digit years the nineteen characters end before the seconds. */
  lemma IsoMinute(t: int)
    requires !(0 <= UtcFullYear(t) <= 9999)
    ensures |IsoString(t)| > 19 && IsoString(t)[..19] == MinuteText(t)
  {
    hide UtcFullYear, UtcMonth, UtcDate, UtcHours, UtcMinutes, UtcSeconds, UtcMillis, Pad;
    assert |IsoYear(UtcFullYear(t))| == 7;
    assert |MinuteText(t)| == 19;
    assert IsoString(t) == MinuteText(t) + (":" + Pad(UtcSeconds(t), 2) + "." + Pad(UtcMillis(t), 3) + "Z");
  }

  lemma FormatParts(n: int)
    ensures !FourDigitYear(n) ==>
              && |MinuteText(SplitNanos(n).0 * 1_000)| == 19
              && Format(n) == MinuteText(SplitNanos(n).0 * 1_000) + FractionText(Fraction(n))
  {
    hide UtcFullYear, IsoString, MinuteText, StripZeros, Pad;
    if !FourDigitYear(n) {
      var clock := MinuteText(SplitNanos(n).0 * 1_000);
      IsoMinute(SplitNanos(n).0 * 1_000);
      if Fraction(n) != 0 {
        assert clock + "." + StripZeros(Pad(Fraction(n), 9)) + "Z" == clock + FractionText(Fraction(n));
      }
    }
  }

  lemma FractionTextExact(a: int, b: int)
    requires 0 <= a < NANOS_PER_SECOND && 0 <= b < NANOS_PER_SECOND
    ensures FractionText(a) == FractionText(b) <==> a == b
  {
    hide StripZeros, Pad, FractionNanos;
    if a > 0 {
      FractionRoundTrip(a);
      assert FractionText(a)[0] == '.';
    }
    if b > 0 {
      FractionRoundTrip(b);
      assert FractionText(b)[0] == '.';
    }
    if a > 0 && b > 0 {
      var x, y := StripZeros(Pad(a, 9)), StripZeros(Pad(b, 9));
      assert FractionText(a)[1..|FractionText(a)| - 1] == x && FractionText(b)[1..|FractionText(b)| - 1] == y;
    }
  }

  lemma IsoYearExact(y: int, z: int)
    requires -999_999 <= y <= 999_999 && -999_999 <= z <= 999_999
    requires !(0 <= y <= 9999) && !(0 <= z <= 9999)
    ensures |IsoYear(y)| == 7 && (IsoYear(y) == IsoYear(z) <==> y == z)
  {
    Pow10Table();
    hide Pad, Number;
    var a, b := if y < 0 then -y else y, if z < 0 then -z else z;
    NumberOfPad(a, 6);
    NumberOfPad(b, 6);
    assert IsoYear(y)[1..] == Pad(a, 6) && IsoYear(z)[1..] == Pad(b, 6);
    assert IsoYear(y)[0] == (if y < 0 then '-' else '+') && IsoYear(z)[0] == (if z < 0 then '-' else '+');
  }

  lemma PadExact(a: int, b: int)
    requires 0 <= a < 100 && 0 <= b < 100
    ensures Pad(a, 2) == Pad(b, 2) <==> a == b
  {
    Pow10Table();
    NumberOfPad(a, 2);
    NumberOfPad(b, 2);
  }

  lemma MinuteTextParts(t: int)
    requires |IsoYear(UtcFullYear(t))| == 7
    ensures var s := MinuteText(t);
            && |s| == 19 && s[..7] == IsoYear(UtcFullYear(t)) && s[8..10] == Pad(UtcMonth(t), 2)
            && s[11..13] == Pad(UtcDate(t), 2) && s[14..16] == Pad(UtcHours(t), 2) && s[17..] == Pad(UtcMinutes(t), 2)
  {
    hide UtcFullYear, UtcMonth, UtcDate, UtcHours, UtcMinutes, Pad, IsoYear;
  }

  /** The minute text tells minutes apart, and nothing finer. */
  lemma MinuteTextExact(t: int, u: int)
    requires -999_999 <= UtcFullYear(t) <= 999_999 && !(0 <= UtcFullYear(t) <= 9999)
    requires -999_999 <= UtcFullYear(u) <= 999_999 && !(0 <= UtcFullYear(u) <= 9999)
    ensures MinuteText(t) == MinuteText(u) <==> t / 60_000 == u / 60_000
  {
    NestedFloors(t);
    NestedFloors(u);
    MinutesOfDay(t);
    MinutesOfDay(u);
    IsoYearExact(UtcFullYear(t), UtcFullYear(u));
    IsoYearExact(UtcFullYear(u), UtcFullYear(t));
    MinuteTextParts(t);
    MinuteTextParts(u);
    PadExact(UtcMonth(t), UtcMonth(u));
    PadExact(UtcDate(t), UtcDate(u));
    PadExact(UtcHours(t), UtcHours(u));
    PadExact(UtcMinutes(t), UtcMinutes(u));
    DateOfDay(DayNumber(t));
    DateOfDay(DayNumber(u));
    hide YearOf, MonthOf, DateOf, MakeDay, UtcHours, UtcMinutes, IsoYear, Pad;
  }

  /** Day, hour and minute make up the minute count, and are read off it. */
  lemma MinutesOfDay(t: int)
    ensures t / 60_000 == (DayNumber(t) * 24 + UtcHours(t)) * 60 + UtcMinutes(t)
    ensures DayNumber(t) == t / 60_000 / 60 / 24 && UtcHours(t) == t / 60_000 / 60 % 24
    ensures UtcMinutes(t) == t / 60_000 % 60
  {
    NestedFloors(t);
  }

  lemma SignedHead(n: int)
    ensures !FourDigitYear(n) ==> Format(n) != "" && !IsDigit(Format(n)[0])
    ensures FourDigitYear(n) ==> Format(n) != "" && IsDigit(Format(n)[0])
  {
    var t := SplitNanos(n).0 * 1_000;
    if FourDigitYear(n) {
      hide UtcFullYear, StripZeros, Pad;
      IsoClock(t);
      ClockNumbers(t);
      assert Clock(t)[0..4][0] == Clock(t)[0];
    } else {
      FormatParts(n);
      hide UtcFullYear, UtcMonth, UtcDate, UtcHours, UtcMinutes, Pad, Format;
      assert MinuteText(t)[0] == IsoYear(UtcFullYear(t))[0];
    }
  }

  lemma MinuteOfSecond(seconds: int)
    ensures seconds * 1_000 / 60_000 == seconds / 60
  {}

  /** Exactly when two instants print alike: they are the same, or both lie outside the four-digit years, in one minute
      and at one fraction of a second, because there the seconds are cut off. */
  lemma FormatSameIff(a: int, b: int)
    requires InDateRange(a) && InDateRange(b)
    ensures Format(a) == Format(b) <==>
              a == b || (!FourDigitYear(a) && !FourDigitYear(b) && Minute(a) == Minute(b) && Fraction(a) == Fraction(b))
  {
    YearInRange(a);
    YearInRange(b);
    SignedHead(a);
    SignedHead(b);
    if FourDigitYear(a) && FourDigitYear(b) {
      hide Format, Parse;
      ParseFormat(a);
      ParseFormat(b);
    } else if !FourDigitYear(a) && !FourDigitYear(b) {
      var t, u := SplitNanos(a).0 * 1_000, SplitNanos(b).0 * 1_000;
      FormatParts(a);
      FormatParts(b);
      hide Format, UtcFullYear, MinuteText, FractionText;
      MinuteTextExact(t, u);
      MinuteOfSecond(SplitNanos(a).0);
      MinuteOfSecond(SplitNanos(b).0);
      FractionTextExact(Fraction(a), Fraction(b));
      assert Format(a)[..19] == MinuteText(t) && Format(b)[..19] == MinuteText(u);
      assert Format(a)[19..] == FractionText(Fraction(a)) && Format(b)[19..] == FractionText(Fraction(b));
    }
  }

  /** An instant of the four-digit years shares its text with no other instant at all. */
  lemma FormatInjective(a: int, b: int)
    requires FourDigitYear(a)
    ensures Format(a) == Format(b) ==> a == b
  {
    hide Format, Parse;
    SignedHead(a);
    SignedHead(b);
    ParseFormat(a);
    if FourDigitYear(b) {
      ParseFormat(b);
    }
  }

  lemma DayOfValidDate(y: int, m: int, d: int)
    requires 0 <= y <= 9999 && ValidDate(y, m, d)
    ensures -800_000 <= MakeDay(y, m - 1, d) <= 4_000_000
  {
    DaysBeforeMonthTable(y);
    DayFromYearEstimate(y);
  }

  /** Every accepted text denotes an instant that a `Date` can hold. */
  lemma AcceptedInRange(s: string)
    requires Parse(s).Ok?
    ensures InDateRange(Parse(s).value)
  {
    ParseMeaning(s);
    hide Parse, Match, MakeDay, FractionNanos, ValidTime, ValidDate;
    var f := Match(s).value;
    YearDigits(s);
    DayOfValidDate(f.year, f.month, f.day);
    FractionBound(f.fraction);
    ClockRange(f);
  }

  lemma ClockRange(f: Fields)
    requires ValidTime(f.hour, f.minute, f.second)
    requires f.offset.Shift? ==> 0 <= f.offset.hours <= 23 && 0 <= f.offset.minutes <= 59
    ensures 0 <= f.hour * 3_600 + f.minute * 60 + f.second < 86_400 && -86_400 < OffsetSeconds(f.offset) < 86_400
  {}

  lemma YearDigits(s: string)
    requires Match(s).Some?
    ensures 0 <= Match(s).value.year <= 9999
    ensures Match(s).value.offset.Shift? ==> 0 <= Match(s).value.offset.hours && 0 <= Match(s).value.offset.minutes
  {
    hide MatchFraction, Number;
    Pow10Table();
    NumberBound(s[0..4]);
  }

  /** Exactly when two accepted texts normalise to one text, whatever their offset and fraction padding; and normalising
      again changes nothing exactly on the four-digit years. */
  lemma NormalizeSameIff(s: string, t: string)
    requires Parse(s).Ok? && Parse(t).Ok?
    ensures var a, b := Parse(s).value, Parse(t).value;
            Normalize(s) == Normalize(t) <==>
              a == b || (!FourDigitYear(a) && !FourDigitYear(b) && Minute(a) == Minute(b) && Fraction(a) == Fraction(b))
    ensures Normalize(Normalize(s).value) == Normalize(s) <==> FourDigitYear(Parse(s).value)
  {
    hide Parse, Format, FourDigitYear, Minute, Fraction;
    AcceptedInRange(s);
    AcceptedInRange(t);
    FormatSameIff(Parse(s).value, Parse(t).value);
    NormalizeAgain(s);
  }

  lemma NormalizeAgain(s: string)
    requires Parse(s).Ok?
    ensures Normalize(Normalize(s).value) == Normalize(s) <==> FourDigitYear(Parse(s).value)
  {
    hide Parse, Format, YearOfNanos;
    if FourDigitYear(Parse(s).value) {
      ParseFormat(Parse(s).value);
    } else {
      ParseFormatOutside(Parse(s).value);
    }
  }

  /** Within the four-digit years, one text means one instant. */
  lemma NormalizeCanonical(s: string, t: string)
    requires Parse(s).Ok? && Parse(t).Ok? && FourDigitYear(Parse(s).value)
    ensures Normalize(s) == Normalize(t) <==> Parse(s) == Parse(t)
  {
    hide Parse, Format;
    NormalizeSameIff(s, t);
  }

  /** The last minute of 9999-12-31, one minute west of Greenwich. */
  function EdgeText(second: int): string
    requires 0 <= second <= 9
  {
    "9999-12-31T23:59:0" + [DigitChar(second)] + "-00:01"
  }

  lemma EdgeFields(second: int)
    requires 0 <= second <= 9
    ensures Match(EdgeText(second)) == Some(Fields(9999, 12, 31, 23, 59, second, "", Shift(false, 0, 1)))
  {
    hide Number;
    var s := EdgeText(second);
    assert s[0..4] == "9999" && s[5..7] == "12" && s[8..10] == "31" && s[11..13] == "23" && s[14..16] == "59";
    assert s[17..19] == ['0', DigitChar(second)] && s[19..] == "-00:01";
    FourDigits("9999");
    TwoDigits("12");
    TwoDigits("31");
    TwoDigits("23");
    TwoDigits("59");
    TwoDigits(s[17..19]);
    EdgeZone();
  }

  lemma EdgeZone()
    ensures MatchFraction("-00:01") == Some(("", "-00:01")) && MatchZone("-00:01") == Some(Shift(false, 0, 1))
  {
    hide Number;
    var s := "-00:01";
    assert s[1..3] == "00" && s[4..6] == "01";
    TwoDigits("00");
    TwoDigits("01");
  }

  lemma EdgeInstant(second: int)
    requires 0 <= second <= 9
    ensures var day := MakeDay(9999, 11, 31) + 1;
            Parse(EdgeText(second)) == Ok((day * 86_400 + second) * NANOS_PER_SECOND)
  {
    hide Parse, EdgeText, Match, MakeDay;
    EdgeFields(second);
    ParseMeaning(EdgeText(second));
  }

  lemma EdgeYear(second: int)
    requires 0 <= second <= 9
    ensures var n := ((MakeDay(9999, 11, 31) + 1) * 86_400 + second) * NANOS_PER_SECOND;
            YearOfNanos(n) == 10000 && Minute(n) == (MakeDay(9999, 11, 31) + 1) * 1_440 && Fraction(n) == 0
  {
    LastDayYear();
    hide MakeDay, YearOf, SplitNanos;
    var day := MakeDay(9999, 11, 31) + 1;
    var n := (day * 86_400 + second) * NANOS_PER_SECOND;
    assert SplitNanos(n).0 == day * 86_400 + second && SplitNanos(n).1 == 0;
    assert DayNumber((day * 86_400 + second) * 1_000) == day;
    assert (day * 86_400 + second) / 60 == day * 1_440;
  }

  lemma EdgeCollision()
    ensures var s, t := EdgeText(0), EdgeText(1);
            && Parse(s).Ok? && Parse(t).Ok? && Parse(t).value == Parse(s).value + NANOS_PER_SECOND
            && Normalize(s) == Normalize(t) && Normalize(Normalize(s).value).Err?
  {
    hide Parse, Format, EdgeText, MakeDay, Minute, Fraction, YearOfNanos;
    EdgeInstant(0);
    EdgeInstant(1);
    EdgeYear(0);
    EdgeYear(1);
    NormalizeSameIff(EdgeText(0), EdgeText(1));
    ParseFormatOutside(Parse(EdgeText(0)).value);
  }

  lemma EdgeTexts()
    ensures EdgeText(0) == "9999-12-31T23:59:00-00:01" && EdgeText(1) == "9999-12-31T23:59:01-00:01"
  {}

  /** Two accepted texts a second apart that normalise to one text, which is not accepted back. */
  lemma NormalizeCollision()
    ensures var s, t := "9999-12-31T23:59:00-00:01", "9999-12-31T23:59:01-00:01";
            && Parse(s).Ok? && Parse(t).Ok? && Parse(t).value == Parse(s).value + NANOS_PER_SECOND
            && Normalize(s) == Normalize(t) && Normalize(Normalize(s).value).Err?
  {
    hide Parse, Format, EdgeText, Normalize;
    EdgeTexts();
    EdgeCollision();
  }

  // ----- what an accepted text denotes -----

  /** The local wall clock of the text, shifted back by its offset, plus its fraction read in nanoseconds. */
  lemma ParseMeaning(s: string)
    ensures Parse(s).Ok? <==>
              && Match(s).Some?
              && var f := Match(s).value;
                 && (f.offset.Shift? ==> f.offset.hours <= 23 && f.offset.minutes <= 59)
                 && ValidDate(f.year, f.month, f.day) && ValidTime(f.hour, f.minute, f.second)
    ensures Parse(s).Ok? ==>
              var f := Match(s).value;
              var local := MakeDay(f.year, f.month - 1, f.day) * 86_400 + f.hour * 3_600 + f.minute * 60 + f.second;
              && local * NANOS_PER_SECOND <= Parse(s).value + OffsetSeconds(f.offset) * NANOS_PER_SECOND
              && Parse(s).value + OffsetSeconds(f.offset) * NANOS_PER_SECOND < (local + 1) * NANOS_PER_SECOND
              && Parse(s).value == (local - OffsetSeconds(f.offset)) * NANOS_PER_SECOND + FractionNanos(f.fraction)
  {
    hide Match, UtcMillisFromParts, ValidDate, ValidTime, MakeDay, FractionNanos;
    if Match(s).Some? {
      var f := Match(s).value;
      PartsAcceptedIff(f);
      var local := MakeDay(f.year, f.month - 1, f.day) * 86_400 + f.hour * 3_600 + f.minute * 60 + f.second;
      assert Instant(MakeDay(f.year, f.month - 1, f.day), f.hour, f.minute, f.second, 0) == local * 1_000;
      FractionBound(f.fraction);
    }
  }

  /** A zone as it is written: hours and minutes ahead of Greenwich, or behind it. */
  function ZoneText(ahead: bool, hours: int, minutes: int): string
    requires 0 <= hours <= 99 && 0 <= minutes <= 99
  {
    (if ahead then "+" else "-") + Pad(hours, 2) + ":" + Pad(minutes, 2)
  }

  lemma ZoneTextMatches(ahead: bool, hours: int, minutes: int)
    requires 0 <= hours <= 99 && 0 <= minutes <= 99
    ensures MatchZone(ZoneText(ahead, hours, minutes)) == Some(Shift(ahead, hours, minutes))
  {
    hide Pad, Number, Pow10;
    Pow10Table();
    NumberOfPad(hours, 2);
    NumberOfPad(minutes, 2);
    ZoneShape(if ahead then '+' else '-', Pad(hours, 2), Pad(minutes, 2));
  }

  lemma ZoneShape(sign: char, h: string, m: string)
    requires (sign == '+' || sign == '-') && |h| == 2 && |m| == 2 && AllDigits(h) && AllDigits(m)
    ensures MatchZone([sign] + h + ":" + m) == Some(Shift(sign == '+', Number(h), Number(m)))
  {
    hide Number, AllDigits;
    var z := [sign] + h + ":" + m;
    assert |z| == 6 && z[0] == sign && z[3] == ':';
    assert z[1..3] == h;
    assert z[4..6] == m;
  }

  function WallClock(y: int, m: int, d: int, h: int, mi: int, sec: int): string
    requires 0 <= y && 0 <= m && 0 <= d && 0 <= h && 0 <= mi && 0 <= sec
  {
    (Pad(y, 4) + "-" + Pad(m, 2) + "-" + Pad(d, 2)) + "T" + (Pad(h, 2) + ":" + Pad(mi, 2) + ":" + Pad(sec, 2))
  }

  lemma WallClockMatches(y: int, m: int, d: int, h: int, mi: int, sec: int)
    requires 0 <= y <= 9999 && 0 <= m <= 99 && 0 <= d <= 99 && 0 <= h <= 99 && 0 <= mi <= 99 && 0 <= sec <= 99
    ensures var c := WallClock(y, m, d, h, mi, sec);
            && |c| == 19 && MatchesClock(c)
            && Number(c[0..4]) == y && Number(c[5..7]) == m && Number(c[8..10]) == d
            && Number(c[11..13]) == h && Number(c[14..16]) == mi && Number(c[17..19]) == sec
  {
    hide Pad, Number, MatchesClock;
    Pow10Table();
    NumberOfPad(y, 4);
    NumberOfPad(m, 2);
    NumberOfPad(d, 2);
    NumberOfPad(h, 2);
    NumberOfPad(mi, 2);
    NumberOfPad(sec, 2);
    ClockShape(Pad(y, 4), Pad(m, 2), Pad(d, 2), Pad(h, 2), Pad(mi, 2), Pad(sec, 2));
  }

  /** Every wall clock of the years 0 to 9999 with any fraction and any zone is accepted exactly if the date and time
      exist and the zone is at most 23:59 away, and it is then the instant at which that clock shows in that zone: a
      zone ahead of Greenwich is earlier by its hours and minutes. */
  lemma ParseWritten(
      y: int, m: int, d: int, h: int, mi: int, sec: int, fraction: string, ahead: bool, hours: int, minutes: int)
    requires 0 <= y <= 9999 && 0 <= m <= 99 && 0 <= d <= 99 && 0 <= h <= 99 && 0 <= mi <= 99 && 0 <= sec <= 99
    requires AllDigits(fraction) && |fraction| <= 9 && 0 <= hours <= 99 && 0 <= minutes <= 99
    ensures var s := WallClock(y, m, d, h, mi, sec) + (if fraction == "" then "" else "." + fraction)
                     + ZoneText(ahead, hours, minutes);
            var utc := MakeDay(y, m - 1, d) * 86_400 + h * 3_600 + mi * 60 + sec;
            var away := hours * 3_600 + minutes * 60;
            && (Parse(s).Ok? <==>
                  ValidDate(y, m, d) && h <= 23 && mi <= 59 && sec <= 59 && hours <= 23 && minutes <= 59)
            && (Parse(s).Ok? ==>
                  Parse(s).value
                  == (if ahead then utc - away else utc + away) * 1_000_000_000 + FractionNanos(fraction))
  {
    hide Parse, Match, MatchesClock, MatchZone, WallClock, ZoneText, MakeDay, FractionNanos, Number, ValidDate;
    WallClockMatches(y, m, d, h, mi, sec);
    ZoneTextMatches(ahead, hours, minutes);
    MatchClockThen(WallClock(y, m, d, h, mi, sec), fraction, ZoneText(ahead, hours, minutes));
    ParseMeaning(WallClock(y, m, d, h, mi, sec) + (if fraction == "" then "" else "." + fraction)
                 + ZoneText(ahead, hours, minutes));
  }

  /** A fraction of `k` digits counts units of the `k`-th decimal place. */
  lemma FractionValue(s: string)
    requires AllDigits(s) && |s| <= 9
    ensures FractionNanos(s) == Number(s) * Pow10(9 - |s|)
  {
    NumberEmpty();
    hide Number, Pow10;
    AppendZeros(s, ZeroFill(s));
  }

  lemma NumberEmpty()
    ensures Number("") == 0
  {}

  lemma {:induction false} AppendZeros(s: string, t: string)
    requires AllDigits(s) && s <= t && forall i | |s| <= i < |t| :: t[i] == '0'
    ensures AllDigits(t) && Number(t) == Number(s) * Pow10(|t| - |s|)
    decreases |t|
  {
    if s == t {
      assert Pow10(0) == 1;
    } else {
      AppendZeros(s, t[..|t| - 1]);
      ShiftedTen(Number(s), Pow10(|t| - 1 - |s|));
    }
  }

  lemma ShiftedTen(a: int, p: int)
    ensures 10 * (a * p) == a * (10 * p)
  {}

  lemma FractionBound(s: string)
    requires AllDigits(s) && |s| <= 9
    ensures 0 <= FractionNanos(s) < NANOS_PER_SECOND
  {
    Pow10Table();
    if s != "" {
      NumberBound(ZeroFill(s));
    }
  }
}
