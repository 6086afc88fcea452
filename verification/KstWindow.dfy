/** Daily report windows: a Korean calendar date as a half-open interval of UTC milliseconds. */
module KstWindow {
  import opened Sequences
  import opened Calendar
  import opened DecimalText
  import opened MarketTimestamp

  const KST_OFFSET_MS := 9 * 60 * 60 * 1000

  datatype Window = Window(reportDate: string, kstStartAt: string, kstEndAt: string, utcStart: int, utcEnd: int)

  datatype DateError = BadFormat | BadCalendarDate

  /** `Date.UTC`: the years 0 to 99 are read as 1900 to 1999. */
  function DateUtc(year: int, month: int, date: int, hours: int): int {
    Instant(MakeDay(if 0 <= year <= 99 then 1900 + year else year, month, date), hours, 0, 0, 0)
  }

  function ParseReportDate(s: string): Result<(int, int, int), DateError> {
    if !(|s| == 10 && AllDigits(s[0..4]) && s[4] == '-' && AllDigits(s[5..7]) && s[7] == '-' && AllDigits(s[8..10]))
    then Err(BadFormat)
    else
      var year, month, day := Number(s[0..4]), Number(s[5..7]), Number(s[8..10]);
      var midnight := DateUtc(year, month - 1, day, 0);
      if UtcFullYear(midnight) != year || UtcMonth(midnight) != month || UtcDate(midnight) != day
      then Err(BadCalendarDate)
      else Ok((year, month, day))
  }

  /** The Korean date of an instant: the first ten characters of the shifted ISO text. */
  function ToKstReportDate(t: int): string {
    var iso := IsoString(t + KST_OFFSET_MS);
    if |iso| <= 10 then iso else iso[..10]
  }

  function CreateWindow(reportDate: string): Result<Window, DateError> {
    match ParseReportDate(reportDate)
    case Err(e) => Err(e)
    case Ok((year, month, day)) =>
      var start := DateUtc(year, month - 1, day, -9);
      var end := start + MS_PER_DAY;
      Ok(Window(reportDate, reportDate + "T00:00:00+09:00", ToKstReportDate(end) + "T00:00:00+09:00", start, end))
  }

  /** The calendar date written out, for the years that have four digits. */
  function DateText(y: int, m: int, d: int): string
    requires 0 <= y && 0 <= m && 0 <= d
  {
    Pad(y, 4) + "-" + Pad(m, 2) + "-" + Pad(d, 2)
  }

  /** The Korean day number of an instant. */
  function KstDay(t: int): int {
    DayNumber(t + KST_OFFSET_MS)
  }

  lemma DateTextShape(y: int, m: int, d: int)
    requires 0 <= y <= 9999 && 0 <= m <= 99 && 0 <= d <= 99
    ensures var s := DateText(y, m, d);
            && |s| == 10 && s[4] == '-' && s[7] == '-'
            && AllDigits(s[0..4]) && AllDigits(s[5..7]) && AllDigits(s[8..10])
            && Number(s[0..4]) == y && Number(s[5..7]) == m && Number(s[8..10]) == d
  {
    var s := DateText(y, m, d);
    assert s[0..4] == Pad(y, 4) && s[5..7] == Pad(m, 2) && s[8..10] == Pad(d, 2);
    Pow10Table();
    NumberOfPad(y, 4);
    NumberOfPad(m, 2);
    NumberOfPad(d, 2);
  }

  /** The read-back test accepts exactly the real dates of the years from 100 on. */
  lemma ReportDateAcceptedIff(year: int, month: int, day: int)
    requires 0 <= year
    ensures var t := DateUtc(year, month - 1, day, 0);
            (UtcFullYear(t) == year && UtcMonth(t) == month && UtcDate(t) == day)
            <==> ValidDate(year, month, day) && 100 <= year
  {
    hide YearOf, MonthOf, DateOf, MakeDay;
    var y := if 0 <= year <= 99 then 1900 + year else year;
    var t := DateUtc(year, month - 1, day, 0);
    InstantFields(MakeDay(y, month - 1, day), 0, 0, 0, 0);
    DateOfDay(DayNumber(t));
    if ValidDate(year, month, day) && 100 <= year {
      DayOfDate(year, month, day);
    }
    if year <= 99 && ValidDate(y, month, day) {
      DayOfDate(y, month, day);
    } else if year <= 99 && UtcFullYear(t) == year && UtcMonth(t) == month && UtcDate(t) == day {
      ShiftedYearMismatch(year, month, day);
    }
  }

  lemma FirstMonth(y: int)
    ensures DaysBeforeMonth(y, 1) == 0
  {}

  /** A two-digit year read as 19xx can never read back as itself. */
  lemma ShiftedYearMismatch(year: int, month: int, day: int)
    requires 0 <= year <= 99 && ValidDate(year, month, day)
    ensures YearOf(MakeDay(1900 + year, month - 1, day)) != year
  {
    hide YearOf, DayFromYear, DaysBeforeMonth;
    var n := MakeDay(1900 + year, month - 1, day);
    assert DayFromYear(YearOf(n)) <= n < DayFromYear(YearOf(n) + 1);
    DayFromYearMonotone(year + 1, 1900 + year);
    FirstMonth(1900 + year);
    DaysBeforeMonthMonotone(1900 + year, 1, month);
  }

  /** A text is accepted exactly when it is the ten-character form of a real date of the years 100 to 9999. */
  lemma CreateWindowAcceptsIff(s: string)
    ensures CreateWindow(s).Ok? <==>
              exists y, m, d :: 100 <= y <= 9999 && ValidDate(y, m, d) && s == DateText(y, m, d)
  {
    hide ParseReportDate, DateText, MonthLength;
    if CreateWindow(s).Ok? {
      var (y, m, d) := ParseReportDate(s).value;
      AcceptedIsDateText(s);
      assert 100 <= y <= 9999 && ValidDate(y, m, d) && s == DateText(y, m, d);
    }
    if y, m, d :| 100 <= y <= 9999 && ValidDate(y, m, d) && s == DateText(y, m, d) {
      WindowOfDate(y, m, d);
    }
  }

  lemma AcceptedIsDateText(s: string)
    requires ParseReportDate(s).Ok?
    ensures var (y, m, d) := ParseReportDate(s).value;
            100 <= y <= 9999 && ValidDate(y, m, d) && s == DateText(y, m, d)
  {
    hide UtcFullYear, UtcMonth, UtcDate, DateUtc, Number, Pad;
    var y, m, d := Number(s[0..4]), Number(s[5..7]), Number(s[8..10]);
    ReportDateAcceptedIff(y, m, d);
    Pow10Table();
    NumberBound(s[0..4]);
    PadOfNumber(s[0..4]);
    PadOfNumber(s[5..7]);
    PadOfNumber(s[8..10]);
    assert s == s[0..4] + "-" + s[5..7] + "-" + s[8..10];
  }

  /** The window of a real date is exactly its twenty-four Korean hours. */
  lemma WindowOfDate(y: int, m: int, d: int)
    requires 100 <= y <= 9999 && ValidDate(y, m, d)
    ensures var r := CreateWindow(DateText(y, m, d));
            && r.Ok?
            && r.value.utcStart == MakeDay(y, m - 1, d) * 86_400_000 - 32_400_000
            && r.value.utcEnd == r.value.utcStart + 86_400_000
            && r.value.reportDate == DateText(y, m, d) && r.value.kstStartAt == DateText(y, m, d) + "T00:00:00+09:00"
            && r.value.kstEndAt == ToKstReportDate(r.value.utcEnd) + "T00:00:00+09:00"
  {
    hide MakeDay, UtcFullYear, UtcMonth, UtcDate, DateText, Number, ToKstReportDate;
    DateTextShape(y, m, d);
    ReportDateAcceptedIff(y, m, d);
  }

  /** The printed Korean date of an instant is the text of its Korean calendar day. */
  lemma KstDateText(t: int)
    requires 0 <= YearOf(KstDay(t)) <= 9999
    ensures 1 <= DateOf(KstDay(t)) <= 31
    ensures ToKstReportDate(t) == DateText(YearOf(KstDay(t)), MonthOf(KstDay(t)), DateOf(KstDay(t)))
  {
    var u := t + KST_OFFSET_MS;
    DateOfDay(DayNumber(u));
    hide YearOf, MonthOf, DateOf, UtcHours, UtcMinutes, UtcSeconds, UtcMillis, Pad, IsoTime;
    assert IsoDate(u) == DateText(YearOf(KstDay(t)), MonthOf(KstDay(t)), DateOf(KstDay(t)));
    TextPrefix(IsoDate(u), "T", IsoTime(u), "." + Pad(UtcMillis(u), 3) + "Z");
    assert IsoString(u) == IsoDate(u) + "T" + IsoTime(u) + ("." + Pad(UtcMillis(u), 3) + "Z");
  }

  /** `t` lies in the half-open UTC interval of the window. */
  predicate Contains(w: Window, t: int) {
    w.utcStart <= t < w.utcEnd
  }

  /** A window contains an instant exactly when the instant's Korean day is the window's day. */
  lemma ContainsIffKstDay(y: int, m: int, d: int, t: int)
    requires 100 <= y <= 9999 && ValidDate(y, m, d)
    ensures CreateWindow(DateText(y, m, d)).Ok?
    ensures Contains(CreateWindow(DateText(y, m, d)).value, t) <==> KstDay(t) == MakeDay(y, m - 1, d)
  {
    hide MakeDay, DateText, CreateWindow;
    WindowOfDate(y, m, d);
  }

  /** Windows partition time: the date printed for an instant has a window that contains it,
      and no other accepted date's window does. */
  lemma WindowsPartitionTime(t: int, other: string)
    requires 100 <= YearOf(KstDay(t)) <= 9999
    ensures CreateWindow(ToKstReportDate(t)).Ok?
    ensures Contains(CreateWindow(ToKstReportDate(t)).value, t)
    ensures CreateWindow(other).Ok? && Contains(CreateWindow(other).value, t) ==> other == ToKstReportDate(t)
  {
    hide YearOf, MonthOf, DateOf, MakeDay, DateText, CreateWindow, ToKstReportDate, Contains;
    var day := KstDay(t);
    KstDateText(t);
    DateOfDay(day);
    ContainsIffKstDay(YearOf(day), MonthOf(day), DateOf(day), t);
    CreateWindowAcceptsIff(other);
    if CreateWindow(other).Ok? && Contains(CreateWindow(other).value, t) {
      var y, m, d :| 100 <= y <= 9999 && ValidDate(y, m, d) && other == DateText(y, m, d);
      ContainsIffKstDay(y, m, d, t);
      DayOfDate(y, m, d);
    }
  }

  /** The window that starts where another ends: consecutive dates abut exactly, across months, leap days
      and centuries, and the end label names the next date. The last four-digit day has no such successor. */
  lemma WindowsAbut(y: int, m: int, d: int)
    requires 100 <= y <= 9999 && ValidDate(y, m, d) && !(y == 9999 && m == 12 && d == 31)
    ensures CreateWindow(DateText(y, m, d)).Ok?
    ensures var w := CreateWindow(DateText(y, m, d)).value;
            var next := ToKstReportDate(w.utcEnd);
            && CreateWindow(next).Ok?
            && CreateWindow(next).value.utcStart == w.utcEnd
            && w.kstEndAt == CreateWindow(next).value.kstStartAt
  {
    hide MakeDay, CreateWindow, YearOf, MonthOf, DateOf, DateText, ToKstReportDate;
    WindowOfDate(y, m, d);
    var n := MakeDay(y, m - 1, d) + 1;
    var w := CreateWindow(DateText(y, m, d)).value;
    assert KstDay(w.utcEnd) == n;
    NextDayYear(y, m, d);
    KstDateText(w.utcEnd);
    DateOfDay(n);
    WindowOfDate(YearOf(n), MonthOf(n), DateOf(n));
    WindowLabel(YearOf(n), MonthOf(n), DateOf(n));
  }

  lemma WindowLabel(y: int, m: int, d: int)
    requires 100 <= y <= 9999 && ValidDate(y, m, d) && CreateWindow(DateText(y, m, d)).Ok?
    ensures CreateWindow(DateText(y, m, d)).value.kstStartAt == DateText(y, m, d) + "T00:00:00+09:00"
  {
    hide DateText, ToKstReportDate, ParseReportDate;
  }

  lemma NextDayYear(y: int, m: int, d: int)
    requires 100 <= y <= 9999 && ValidDate(y, m, d) && !(y == 9999 && m == 12 && d == 31)
    ensures 100 <= YearOf(MakeDay(y, m - 1, d) + 1) <= 9999
  {
    var n := MakeDay(y, m - 1, d) + 1;
    DaysBeforeMonthTable(y);
    DaysBeforeMonthMonotone(y, 1, m);
    DaysBeforeMonthMonotone(y, m + 1, 13);
    DayFromYearStep(y);
    assert n == DayFromYear(y) + DaysBeforeMonth(y, m) + d;
    assert DayFromYear(y) < n <= DayFromYear(y + 1);
    if n < DayFromYear(y + 1) {
      YearOfUnique(n, y);
    } else {
      DayFromYearStep(y + 1);
      YearOfUnique(n, y + 1);
      if y == 9999 {
        LastDayOfYear(m, d);
      }
    }
  }

  lemma LastDayOfYear(m: int, d: int)
    requires ValidDate(9999, m, d) && DaysBeforeMonth(9999, m) + d == 365
    ensures m == 12 && d == 31
  {
    DaysBeforeMonthTable(9999);
    if m < 12 {
      DaysBeforeMonthMonotone(9999, m + 1, 12);
    }
  }

  /** On the last four-digit day the end label stops being a date: the window is made, its end label is not one. */
  lemma LastWindowEndLabel()
    ensures CreateWindow(DateText(9999, 12, 31)).Ok?
    ensures CreateWindow(ToKstReportDate(CreateWindow(DateText(9999, 12, 31)).value.utcEnd)) == Err(BadFormat)
  {
    WindowOfDate(9999, 12, 31);
    LastDayYear();
    hide MakeDay, CreateWindow, YearOf, DateText;
    var w := CreateWindow(DateText(9999, 12, 31)).value;
    var n := MakeDay(9999, 11, 31) + 1;
    assert KstDay(w.utcEnd) == n;
    SignedDateRejected(w.utcEnd);
  }

  /** Outside the years 0 to 9999 the printed Korean date starts with a sign and is not accepted back. */
  lemma SignedDateRejected(t: int)
    requires !(0 <= YearOf(KstDay(t)) <= 9999)
    ensures CreateWindow(ToKstReportDate(t)) == Err(BadFormat)
  {
    hide YearOf, UtcMonth, UtcDate, IsoTime, UtcMillis, Pad;
    var u := t + KST_OFFSET_MS;
    assert IsoYear(UtcFullYear(u))[0] == '+' || IsoYear(UtcFullYear(u))[0] == '-';
    assert IsoDate(u)[0] == IsoYear(UtcFullYear(u))[0];
    assert IsoString(u)[0] == IsoDate(u)[0];
    var s := ToKstReportDate(t);
    assert s[0] == '+' || s[0] == '-';
    if |s| == 10 {
      assert s[0..4][0] == s[0];
    }
  }

  /** In the years 0 to 99 the printed date is well formed and still refused. */
  lemma ShortYearRejected(t: int)
    requires 0 <= YearOf(KstDay(t)) <= 99
    ensures CreateWindow(ToKstReportDate(t)) == Err(BadCalendarDate)
  {
    hide YearOf, MonthOf, DateOf, MakeDay, DateText, Number, ToKstReportDate, UtcFullYear, UtcMonth, UtcDate;
    var y, m, d := YearOf(KstDay(t)), MonthOf(KstDay(t)), DateOf(KstDay(t));
    KstDateText(t);
    DateTextShape(y, m, d);
    ReportDateAcceptedIff(y, m, d);
  }

  /** The date printed for an instant is a report date exactly in the Korean years 100 to 9999. */
  lemma ReportDateOfInstantIff(t: int)
    ensures CreateWindow(ToKstReportDate(t)).Ok? <==> 100 <= YearOf(KstDay(t)) <= 9999
  {
    hide YearOf, KstDay, CreateWindow, ToKstReportDate;
    if !(0 <= YearOf(KstDay(t)) <= 9999) {
      SignedDateRejected(t);
    } else if YearOf(KstDay(t)) <= 99 {
      ShortYearRejected(t);
    } else {
      WindowsPartitionTime(t, "");
    }
  }
}
