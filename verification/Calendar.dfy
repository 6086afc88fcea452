/** The proleptic Gregorian calendar behind a JavaScript `Date`, as section 21.4.1 of ECMA-262 defines it,
    and the decimal text that `toISOString` builds from it. Instants are integer milliseconds. */
module Calendar {
  import opened DecimalText

  const MS_PER_DAY := 86_400_000

  predicate Leap(y: int) {
    y % 4 == 0 && (y % 100 != 0 || y % 400 == 0)
  }

  function YearLength(y: int): int {
    if Leap(y) then 366 else 365
  }

  function MonthLength(y: int, m: int): int
    requires 1 <= m <= 12
  {
    if m == 2 then (if Leap(y) then 29 else 28)
    else if m == 4 || m == 6 || m == 9 || m == 11 then 30
    else 31
  }

  predicate ValidDate(y: int, m: int, d: int) {
    1 <= m <= 12 && 1 <= d <= MonthLength(y, m)
  }

  /** Day number of 1 January of year `y`, counted from 1970-01-01. */
  function DayFromYear(y: int): int {
    365 * (y - 1970) + (y - 1969) / 4 - (y - 1901) / 100 + (y - 1601) / 400
  }

  lemma DayFromYearStep(y: int)
    ensures DayFromYear(y + 1) == DayFromYear(y) + YearLength(y)
  {
    FloorStep(y - 1969, 4);
    FloorStep(y - 1901, 100);
    FloorStep(y - 1601, 400);
  }

  lemma FloorStep(x: int, k: int)
    requires k == 4 || k == 100 || k == 400
    ensures (x + 1) / k == x / k + if (x + 1) % k == 0 then 1 else 0
  {}

  lemma {:induction false} DayFromYearMonotone(a: int, b: int)
    requires a <= b
    ensures DayFromYear(a) + 365 * (b - a) <= DayFromYear(b)
    decreases b - a
  {
    if a < b {
      DayFromYearMonotone(a, b - 1);
      DayFromYearStep(b - 1);
    }
  }

  /** A linear estimate is never off by two days, so it is never off by more than one year. */
  lemma DayFromYearEstimate(y: int)
    ensures 146097 * (y - 1970) - 800 < 400 * DayFromYear(y) < 146097 * (y - 1970) + 800
  {
    var k := y - 1970;
    var a, b, c := (k + 1) / 4, (k + 69) / 100, (k + 369) / 400;
    assert 4 * a <= k + 1 < 4 * a + 4;
    assert 100 * b <= k + 69 < 100 * b + 100;
    assert 400 * c <= k + 369 < 400 * c + 400;
    assert DayFromYear(y) == 365 * k + a - b + c;
  }

  /** The year that contains day `d`. */
  function YearOf(d: int): (y: int)
    ensures DayFromYear(y) <= d < DayFromYear(y + 1)
  {
    var guess := 1970 + d * 400 / 146097;
    assert 146097 * (guess - 1970) <= d * 400 < 146097 * (guess - 1970) + 146097;
    DayFromYearEstimate(guess - 1);
    DayFromYearEstimate(guess);
    DayFromYearEstimate(guess + 1);
    DayFromYearEstimate(guess + 2);
    if d < DayFromYear(guess) then guess - 1
    else if d >= DayFromYear(guess + 1) then guess + 1
    else guess
  }

  lemma YearOfUnique(d: int, y: int)
    requires DayFromYear(y) <= d < DayFromYear(y + 1)
    ensures YearOf(d) == y
  {
    var r := YearOf(d);
    if r < y {
      DayFromYearMonotone(r + 1, y);
    } else if y < r {
      DayFromYearMonotone(y + 1, r);
    }
  }

  /** Days of year `y` before month `m`; month 13 stands for the whole year. */
  function DaysBeforeMonth(y: int, m: int): int
    requires 1 <= m <= 13
  {
    if m == 1 then 0 else DaysBeforeMonth(y, m - 1) + MonthLength(y, m - 1)
  }

  lemma DaysBeforeMonthTable(y: int)
    ensures var k := if Leap(y) then 1 else 0;
            && DaysBeforeMonth(y, 1) == 0 && DaysBeforeMonth(y, 2) == 31
            && DaysBeforeMonth(y, 3) == 59 + k && DaysBeforeMonth(y, 4) == 90 + k
            && DaysBeforeMonth(y, 5) == 120 + k && DaysBeforeMonth(y, 6) == 151 + k
            && DaysBeforeMonth(y, 7) == 181 + k && DaysBeforeMonth(y, 8) == 212 + k
            && DaysBeforeMonth(y, 9) == 243 + k && DaysBeforeMonth(y, 10) == 273 + k
            && DaysBeforeMonth(y, 11) == 304 + k && DaysBeforeMonth(y, 12) == 334 + k
            && DaysBeforeMonth(y, 13) == 365 + k
  {
    var k := if Leap(y) then 1 else 0;
    assert DaysBeforeMonth(y, 2) == 31;
    assert DaysBeforeMonth(y, 3) == 59 + k;
    assert DaysBeforeMonth(y, 5) == 120 + k;
    assert DaysBeforeMonth(y, 7) == 181 + k;
    assert DaysBeforeMonth(y, 9) == 243 + k;
    assert DaysBeforeMonth(y, 11) == 304 + k;
  }

  /** The month of the zero-based day `n` of year `y`. */
  function MonthWithin(y: int, n: int): (m: int)
    requires 0 <= n < YearLength(y)
    ensures 1 <= m <= 12 && DaysBeforeMonth(y, m) <= n < DaysBeforeMonth(y, m + 1)
  {
    DaysBeforeMonthTable(y);
    if n < DaysBeforeMonth(y, 2) then 1
    else if n < DaysBeforeMonth(y, 3) then 2
    else if n < DaysBeforeMonth(y, 4) then 3
    else if n < DaysBeforeMonth(y, 5) then 4
    else if n < DaysBeforeMonth(y, 6) then 5
    else if n < DaysBeforeMonth(y, 7) then 6
    else if n < DaysBeforeMonth(y, 8) then 7
    else if n < DaysBeforeMonth(y, 9) then 8
    else if n < DaysBeforeMonth(y, 10) then 9
    else if n < DaysBeforeMonth(y, 11) then 10
    else if n < DaysBeforeMonth(y, 12) then 11
    else 12
  }

  function MonthOf(d: int): (m: int)
    ensures 1 <= m <= 12
  {
    var y := YearOf(d);
    DayFromYearStep(y);
    MonthWithin(y, d - DayFromYear(y))
  }

  function DateOf(d: int): int {
    d - DayFromYear(YearOf(d)) - DaysBeforeMonth(YearOf(d), MonthOf(d)) + 1
  }

  /** `MakeDay`: months and days outside their range carry over. `month` is zero-based. */
  function MakeDay(year: int, month: int, date: int): int {
    DayFromYear(year + month / 12) + DaysBeforeMonth(year + month / 12, month % 12 + 1) + date - 1
  }

  /** Days are counted from 1970-01-01. */
  lemma EpochDay()
    ensures MakeDay(1970, 0, 1) == 0
  {
    assert DaysBeforeMonth(1970, 1) == 0;
  }

  lemma {:induction false} DaysBeforeMonthMonotone(y: int, a: int, b: int)
    requires 1 <= a <= b <= 13
    ensures DaysBeforeMonth(y, a) <= DaysBeforeMonth(y, b)
    decreases b - a
  {
    if a < b {
      DaysBeforeMonthMonotone(y, a, b - 1);
    }
  }

  /** Reading a day number back gives a valid date that rebuilds it. */
  lemma DateOfDay(d: int)
    ensures ValidDate(YearOf(d), MonthOf(d), DateOf(d))
    ensures MakeDay(YearOf(d), MonthOf(d) - 1, DateOf(d)) == d
  {
    var y, m := YearOf(d), MonthOf(d);
    DayFromYearStep(y);
    assert m == MonthWithin(y, d - DayFromYear(y));
    assert DaysBeforeMonth(y, m + 1) == DaysBeforeMonth(y, m) + MonthLength(y, m);
  }

  /** A valid date survives the trip through its day number. */
  lemma DayOfDate(y: int, m: int, d: int)
    requires ValidDate(y, m, d)
    ensures var n := MakeDay(y, m - 1, d); YearOf(n) == y && MonthOf(n) == m && DateOf(n) == d
  {
    var n := MakeDay(y, m - 1, d);
    assert n == DayFromYear(y) + DaysBeforeMonth(y, m) + d - 1;
    DaysBeforeMonthTable(y);
    DaysBeforeMonthMonotone(y, 1, m);
    DaysBeforeMonthMonotone(y, m + 1, 13);
    DayFromYearStep(y);
    YearOfUnique(n, y);
    var r := MonthOf(n);
    assert r == MonthWithin(y, n - DayFromYear(y));
    if r < m {
      DaysBeforeMonthMonotone(y, r + 1, m);
    } else if m < r {
      DaysBeforeMonthMonotone(y, m + 1, r);
    }
  }

  /** The day after 9999-12-31 opens the year 10000. */
  lemma LastDayYear()
    ensures YearOf(MakeDay(9999, 11, 31) + 1) == 10000
  {
    hide YearOf;
    DaysBeforeMonthTable(9999);
    DayFromYearStep(9999);
    DayFromYearStep(10000);
    YearOfUnique(MakeDay(9999, 11, 31) + 1, 10000);
  }

  // ----- fields of an instant -----

  function DayNumber(t: int): int { t / MS_PER_DAY }
  function UtcFullYear(t: int): int { YearOf(DayNumber(t)) }

  function UtcMonth(t: int): (m: int)
    ensures 1 <= m <= 12
  {
    MonthOf(DayNumber(t))
  }

  function UtcDate(t: int): (d: int)
    ensures 1 <= d <= 31
  {
    DateOfDay(DayNumber(t));
    DateOf(DayNumber(t))
  }

  function UtcHours(t: int): (h: int)
    ensures 0 <= h <= 23
  {
    t / 3_600_000 % 24
  }

  function UtcMinutes(t: int): (m: int)
    ensures 0 <= m <= 59
  {
    t / 60_000 % 60
  }

  function UtcSeconds(t: int): (s: int)
    ensures 0 <= s <= 59
  {
    t / 1_000 % 60
  }

  function UtcMillis(t: int): (ms: int)
    ensures 0 <= ms <= 999
  {
    t % 1_000
  }

  /** `MakeDate` of a day and a time of day given field by field; fields may overflow. */
  function Instant(day: int, hour: int, minute: int, second: int, ms: int): int {
    day * MS_PER_DAY + hour * 3_600_000 + minute * 60_000 + second * 1_000 + ms
  }

  predicate ValidTime(hour: int, minute: int, second: int) {
    0 <= hour <= 23 && 0 <= minute <= 59 && 0 <= second <= 59
  }

  lemma InstantFields(day: int, hour: int, minute: int, second: int, ms: int)
    requires ValidTime(hour, minute, second) && 0 <= ms <= 999
    ensures var t := Instant(day, hour, minute, second, ms);
            && DayNumber(t) == day && UtcHours(t) == hour && UtcMinutes(t) == minute
            && UtcSeconds(t) == second && UtcMillis(t) == ms
  {
    var t := Instant(day, hour, minute, second, ms);
    var h := day * 24 + hour;
    var m := h * 60 + minute;
    var s := m * 60 + second;
    assert t == s * 1_000 + ms;
    NestedFloors(t);
    assert t / 1_000 == s && s / 60 == m && m / 60 == h && h / 24 == day;
  }

  /** Dividing in steps is dividing at once. */
  lemma NestedFloors(t: int)
    ensures t / 60_000 == t / 1_000 / 60 && t / 3_600_000 == t / 1_000 / 60 / 60
    ensures t / MS_PER_DAY == t / 1_000 / 60 / 60 / 24
  {
    var s := t / 1_000;
    var m := s / 60;
    var h := m / 60;
    assert t / 60_000 == m;
    assert t / 3_600_000 == h;
  }

  /** The fields of an instant rebuild it. */
  lemma FieldsInstant(t: int)
    ensures Instant(DayNumber(t), UtcHours(t), UtcMinutes(t), UtcSeconds(t), UtcMillis(t)) == t
    ensures ValidTime(UtcHours(t), UtcMinutes(t), UtcSeconds(t))
  {
    NestedFloors(t);
  }

  // ----- ISO text -----

  /** `Date.prototype.toISOString`: four year digits inside 0..9999, a sign and six digits outside. */
  function IsoYear(y: int): string {
    if 0 <= y <= 9999 then Pad(y, 4)
    else if y < 0 then "-" + Pad(-y, 6)
    else "+" + Pad(y, 6)
  }

  function IsoDate(t: int): string {
    IsoYear(UtcFullYear(t)) + "-" + Pad(UtcMonth(t), 2) + "-" + Pad(UtcDate(t), 2)
  }

  function IsoTime(t: int): string {
    Pad(UtcHours(t), 2) + ":" + Pad(UtcMinutes(t), 2) + ":" + Pad(UtcSeconds(t), 2)
  }

  function IsoString(t: int): string {
    IsoDate(t) + "T" + IsoTime(t) + "." + Pad(UtcMillis(t), 3) + "Z"
  }
}
