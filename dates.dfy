/**
 * Civil calendar days and wall-clock instants, standing in for the JavaScript
 * `Date` values and the date-fns helpers the program applies to them
 * (`addDays`, `subDays`, `startOfDay`, `endOfDay`, `isAfter`, `isSameDay`,
 * `format`, `toISOString`). Days follow the proleptic Gregorian calendar with
 * astronomical year numbering (year 0 exists); the local time zone is taken
 * to be UTC.
 */
module CivilDates {
  import opened Strings

  datatype Date = Date(year: int, month: int, day: int)

  /** A moment given as its calendar day and the milliseconds since that day's midnight. */
  datatype Instant = Instant(date: Date, ms: int)

  const MsPerDay: int := 86400000

  predicate IsLeapYear(y: int)
  {
    y % 4 == 0 && (y % 100 != 0 || y % 400 == 0)
  }

  function DaysInMonth(y: int, m: int): (n: int)
    requires 1 <= m <= 12
    ensures 28 <= n <= 31
  {
    if m == 2 then (if IsLeapYear(y) then 29 else 28)
    else if m == 4 || m == 6 || m == 9 || m == 11 then 30
    else 31
  }

  predicate ValidDate(d: Date)
  {
    1 <= d.month <= 12 && 1 <= d.day <= DaysInMonth(d.year, d.month)
  }

  predicate ValidInstant(i: Instant)
  {
    ValidDate(i.date) && 0 <= i.ms < MsPerDay
  }

  /** The calendar day after `d`: `addDays(d, 1)`. */
  function NextDay(d: Date): (r: Date)
    requires ValidDate(d)
    ensures ValidDate(r)
  {
    if d.day < DaysInMonth(d.year, d.month) then Date(d.year, d.month, d.day + 1)
    else if d.month < 12 then Date(d.year, d.month + 1, 1)
    else Date(d.year + 1, 1, 1)
  }

  /** The calendar day before `d`: `subDays(d, 1)`. */
  function PrevDay(d: Date): (r: Date)
    requires ValidDate(d)
    ensures ValidDate(r)
  {
    if d.day > 1 then Date(d.year, d.month, d.day - 1)
    else if d.month > 1 then Date(d.year, d.month - 1, DaysInMonth(d.year, d.month - 1))
    else Date(d.year - 1, 12, 31)
  }

  lemma PrevNextInverse(d: Date)
    requires ValidDate(d)
    ensures PrevDay(NextDay(d)) == d
    ensures NextDay(PrevDay(d)) == d
  {
  }

  // Day numbers: 0001-01-01 is day 1, and consecutive days have consecutive numbers.

  function YearLength(y: int): int
  {
    if IsLeapYear(y) then 366 else 365
  }

  function DaysBeforeYear(y: int): int
    decreases if y >= 1 then y - 1 else 1 - y
  {
    if y == 1 then 0
    else if y > 1 then DaysBeforeYear(y - 1) + YearLength(y - 1)
    else DaysBeforeYear(y + 1) - YearLength(y)
  }

  function DaysBeforeMonth(y: int, m: int): int
    requires 1 <= m <= 13
  {
    if m == 1 then 0 else DaysBeforeMonth(y, m - 1) + DaysInMonth(y, m - 1)
  }

  function DayNumber(d: Date): int
    requires 1 <= d.month <= 12
  {
    DaysBeforeYear(d.year) + DaysBeforeMonth(d.year, d.month) + d.day
  }

  lemma DaysBeforeYearStep(y: int)
    ensures DaysBeforeYear(y + 1) == DaysBeforeYear(y) + YearLength(y)
  {
  }

  lemma MonthsFillYear(y: int)
    ensures DaysBeforeMonth(y, 13) == YearLength(y)
  {
    var l := if IsLeapYear(y) then 1 else 0;
    assert DaysBeforeMonth(y, 2) == 31;
    assert DaysBeforeMonth(y, 3) == 59 + l;
    assert DaysBeforeMonth(y, 4) == 90 + l;
    assert DaysBeforeMonth(y, 5) == 120 + l;
    assert DaysBeforeMonth(y, 6) == 151 + l;
    assert DaysBeforeMonth(y, 7) == 181 + l;
    assert DaysBeforeMonth(y, 8) == 212 + l;
    assert DaysBeforeMonth(y, 9) == 243 + l;
    assert DaysBeforeMonth(y, 10) == 273 + l;
    assert DaysBeforeMonth(y, 11) == 304 + l;
    assert DaysBeforeMonth(y, 12) == 334 + l;
    assert DaysBeforeMonth(y, 13) == 365 + l;
  }

  /** `addDays(d, 1)` moves exactly one day forward on the day line. */
  lemma NextDayNumber(d: Date)
    requires ValidDate(d)
    ensures DayNumber(NextDay(d)) == DayNumber(d) + 1
  {
    if d.day == DaysInMonth(d.year, d.month) && d.month == 12 {
      DaysBeforeYearStep(d.year);
      MonthsFillYear(d.year);
    }
  }

  lemma PrevDayNumber(d: Date)
    requires ValidDate(d)
    ensures DayNumber(PrevDay(d)) == DayNumber(d) - 1
  {
    PrevNextInverse(d);
    NextDayNumber(PrevDay(d));
  }

  lemma {:induction false} DaysBeforeMonthMonotone(y: int, m: int, m': int)
    requires 1 <= m <= m' <= 13
    ensures DaysBeforeMonth(y, m) <= DaysBeforeMonth(y, m')
    decreases m' - m
  {
    if m < m' {
      DaysBeforeMonthMonotone(y, m, m' - 1);
    }
  }

  lemma {:induction false} DaysBeforeYearMonotone(y: int, y': int)
    requires y < y'
    ensures DaysBeforeYear(y) + YearLength(y) <= DaysBeforeYear(y')
    decreases y' - y
  {
    DaysBeforeYearStep(y);
    if y + 1 < y' {
      DaysBeforeYearMonotone(y + 1, y');
    }
  }

  /** Calendar order: year, then month, then day. */
  predicate DateBefore(a: Date, b: Date)
  {
    a.year < b.year || (a.year == b.year && (a.month < b.month || (a.month == b.month && a.day < b.day)))
  }

  /** The day line agrees with calendar order. */
  lemma DayNumberOrdered(a: Date, b: Date)
    requires ValidDate(a) && ValidDate(b)
    requires DateBefore(a, b)
    ensures DayNumber(a) < DayNumber(b)
  {
    if a.year < b.year {
      DaysBeforeMonthMonotone(a.year, a.month + 1, 13);
      DaysBeforeMonthMonotone(b.year, 1, b.month);
      MonthsFillYear(a.year);
      DaysBeforeYearMonotone(a.year, b.year);
    } else if a.month < b.month {
      DaysBeforeMonthMonotone(a.year, a.month + 1, b.month);
    }
  }

  /** Distinct valid days have distinct day numbers. */
  lemma DayNumberInjective(a: Date, b: Date)
    requires ValidDate(a) && ValidDate(b)
    requires DayNumber(a) == DayNumber(b)
    ensures a == b
  {
    if DateBefore(a, b) {
      DayNumberOrdered(a, b);
    } else if DateBefore(b, a) {
      DayNumberOrdered(b, a);
    }
  }

  /** No valid day lies strictly between `d` and the day after it. */
  lemma NextDayIsSuccessor(d: Date, e: Date)
    requires ValidDate(d) && ValidDate(e)
    requires DateBefore(d, e)
    ensures NextDay(d) == e || DateBefore(NextDay(d), e)
  {
    DayNumberOrdered(d, e);
    NextDayNumber(d);
    var n := NextDay(d);
    if n != e && !DateBefore(n, e) {
      assert DateBefore(e, n);
      DayNumberOrdered(e, n);
    }
  }

  // Instants

  function StartOfDay(i: Instant): Instant
  {
    Instant(i.date, 0)
  }

  function EndOfDay(i: Instant): Instant
  {
    Instant(i.date, MsPerDay - 1)
  }

  /** Milliseconds on one time line, as JavaScript compares `Date` values. */
  function Timestamp(i: Instant): int
    requires 1 <= i.date.month <= 12
  {
    DayNumber(i.date) * MsPerDay + i.ms
  }

  predicate IsAfter(a: Instant, b: Instant)
    requires 1 <= a.date.month <= 12 && 1 <= b.date.month <= 12
  {
    Timestamp(a) > Timestamp(b)
  }

  predicate IsSameDay(a: Instant, b: Instant)
  {
    a.date == b.date
  }

  /** `addDays(i, 1)`: the same time of day on the next calendar day, one day later on the time line. */
  function AddOneDay(i: Instant): (r: Instant)
    requires ValidInstant(i)
    ensures ValidInstant(r) && r.ms == i.ms
    ensures DayNumber(r.date) == DayNumber(i.date) + 1
    ensures Timestamp(r) == Timestamp(i) + MsPerDay
  {
    NextDayNumber(i.date);
    Instant(NextDay(i.date), i.ms)
  }

  /** `subDays(i, 1)`: the same time of day on the previous calendar day. */
  function SubOneDay(i: Instant): (r: Instant)
    requires ValidInstant(i)
    ensures ValidInstant(r) && r.ms == i.ms
    ensures DayNumber(r.date) == DayNumber(i.date) - 1
    ensures Timestamp(r) == Timestamp(i) - MsPerDay
  {
    PrevDayNumber(i.date);
    Instant(PrevDay(i.date), i.ms)
  }

  /** Start of one day is after the end of another exactly when its day is later. */
  lemma StartAfterEnd(a: Instant, b: Instant)
    requires ValidDate(a.date) && ValidDate(b.date)
    ensures IsAfter(StartOfDay(a), EndOfDay(b)) <==> DayNumber(a.date) > DayNumber(b.date)
  {
    var x, y := DayNumber(a.date), DayNumber(b.date);
    if x > y {
      assert x * MsPerDay >= (y + 1) * MsPerDay;
    } else {
      assert x * MsPerDay <= y * MsPerDay;
    }
  }

  // Formatting

  /** date-fns prints the year of era: 1 BC (year 0) is 1, 2 BC is 2, and so on. */
  function YearOfEra(y: int): nat
  {
    if y > 0 then y else 1 - y
  }

  /** `format(d, "yyyy-MM-dd")`. */
  function DayStamp(d: Date): (s: string)
    requires ValidDate(d)
  {
    PadDecimal(YearOfEra(d.year), 4) + "-" + PadDecimal(d.month, 2) + "-" + PadDecimal(d.day, 2)
  }

  /** The day stamp ends in `-MM-dd`, two digits each, after the year. */
  lemma DayStampShape(d: Date)
    requires ValidDate(d)
    ensures var s := DayStamp(d);
            |s| >= 10 && s[..|s| - 6] == PadDecimal(YearOfEra(d.year), 4)
            && s[|s| - 6] == '-' && s[|s| - 5..|s| - 3] == PadDecimal(d.month, 2)
            && s[|s| - 3] == '-' && s[|s| - 2..] == PadDecimal(d.day, 2)
  {
    PadDecimalLength(d.month, 2);
    PadDecimalLength(d.day, 2);
  }

  /** Different days of the Christian era get different day stamps. */
  lemma DayStampInjective(a: Date, b: Date)
    requires ValidDate(a) && ValidDate(b) && a.year >= 1 && b.year >= 1
    requires DayStamp(a) == DayStamp(b)
    ensures a == b
  {
    DayStampShape(a);
    DayStampShape(b);
    var s := DayStamp(a);
    PadDecimalInjective(YearOfEra(a.year), YearOfEra(b.year), 4);
    PadDecimalInjective(a.month, b.month, 2);
    PadDecimalInjective(a.day, b.day, 2);
  }

  const WeekdayNames: seq<string> := ["Sun", "Mon", "Tue", "Wed", "Thu", "Fri", "Sat"]
  const MonthNames: seq<string> := ["Jan", "Feb", "Mar", "Apr", "May", "Jun", "Jul", "Aug", "Sep", "Oct", "Nov", "Dec"]

  /** Day of the week, 0 for Sunday; 0001-01-01 (day 1) was a Monday. */
  function Weekday(d: Date): (w: nat)
    requires ValidDate(d)
    ensures w < 7
  {
    DayNumber(d) % 7
  }

  lemma WeekdayAdvances(d: Date)
    requires ValidDate(d)
    ensures Weekday(NextDay(d)) == (Weekday(d) + 1) % 7
  {
    NextDayNumber(d);
    SuccessorMod7(DayNumber(d));
  }

  lemma SuccessorMod7(n: int)
    ensures (n + 1) % 7 == (n % 7 + 1) % 7
  {
    var q := n / 7;
    assert n == 7 * q + n % 7;
    if n % 7 == 6 {
      assert n + 1 == 7 * (q + 1) + 0;
    } else {
      assert n + 1 == 7 * q + (n % 7 + 1);
    }
  }

  /** `format(d, "EEE, MMM d yyyy")`, for example `Thu, Oct 15 2026`. */
  function DayTitle(d: Date): string
    requires ValidDate(d)
  {
    WeekdayNames[Weekday(d)] + ", " + MonthNames[d.month - 1] + " " + Decimal(d.day)
    + " " + PadDecimal(YearOfEra(d.year), 4)
  }

  /** The date part of `toISOString()`: four-digit years, or a signed six-digit year outside 0..9999. */
  function IsoDate(d: Date): (r: string)
    requires ValidDate(d)
    ensures forall k | 0 <= k < |r| :: IsDigit(r[k]) || r[k] == '-' || r[k] == '+'
  {
    var y := if 0 <= d.year <= 9999 then PadDecimal(d.year, 4)
             else (if d.year < 0 then "-" else "+") + PadDecimal(if d.year < 0 then -d.year else d.year, 6);
    y + "-" + PadDecimal(d.month, 2) + "-" + PadDecimal(d.day, 2)
  }

  /** Within years 1..9999 the ISO date part and the day stamp are the same text. */
  lemma IsoDateIsDayStamp(d: Date)
    requires ValidDate(d) && 1 <= d.year <= 9999
    ensures IsoDate(d) == DayStamp(d)
  {
  }

  /** `toISOString()`: `YYYY-MM-DDTHH:mm:ss.sssZ`. */
  function IsoString(i: Instant): string
    requires ValidInstant(i)
  {
    IsoDate(i.date) + "T" + IsoTime(i.ms)
  }

  /** The time part of `toISOString()`: `HH:mm:ss.sssZ`. */
  function IsoTime(ms: nat): (r: string)
    ensures forall k | 0 <= k < |r| :: IsDigit(r[k]) || r[k] == ':' || r[k] == '.' || r[k] == 'Z'
  {
    PadDecimal(ms / 3600000, 2) + ":" + PadDecimal(ms / 60000 % 60, 2)
    + ":" + PadDecimal(ms / 1000 % 60, 2) + "." + PadDecimal(ms % 1000, 3) + "Z"
  }

  /** `toISOString().split("T")[0]` is the ISO date part. */
  lemma IsoStringDatePart(i: Instant)
    requires ValidInstant(i)
    ensures Split(IsoString(i), 'T')[0] == IsoDate(i.date)
  {
    var d := IsoDate(i.date);
    var t := IsoTime(i.ms);
    assert 'T' !in d;
    SplitFirst(d, t, 'T');
    assert IsoString(i) == d + ['T'] + t;
  }

  lemma NameTablesOneLine()
    ensures forall k | 0 <= k < |WeekdayNames| :: '\n' !in WeekdayNames[k]
    ensures forall k | 0 <= k < |MonthNames| :: '\n' !in MonthNames[k]
  {
    forall k | 0 <= k < |WeekdayNames| ensures '\n' !in WeekdayNames[k] {
      assert |WeekdayNames[k]| == 3;
    }
    forall k | 0 <= k < |MonthNames| ensures '\n' !in MonthNames[k] {
      assert |MonthNames[k]| == 3;
    }
  }

  /** A day title is one line of text. */
  lemma DayTitleOneLine(d: Date)
    requires ValidDate(d)
    ensures '\n' !in DayTitle(d)
  {
    var w := WeekdayNames[Weekday(d)];
    var m := MonthNames[d.month - 1];
    NameTablesOneLine();
    var dd := Decimal(d.day);
    var y := PadDecimal(YearOfEra(d.year), 4);
    assert forall k | 0 <= k < |dd| :: dd[k] != '\n';
    assert forall k | 0 <= k < |y| :: y[k] != '\n';
    assert DayTitle(d) == w + ", " + m + " " + dd + " " + y;
  }

  /** An ISO timestamp is one line of text. */
  lemma IsoStringOneLine(i: Instant)
    requires ValidInstant(i)
    ensures '\n' !in IsoString(i)
    ensures '\n' !in IsoDate(i.date)
  {
    var d := IsoDate(i.date);
    var t := IsoTime(i.ms);
    assert IsoString(i) == d + ['T'] + t;
  }
}
