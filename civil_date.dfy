/** Calendar dates as JavaScript's `Date` handles them: year, month and day
    fields of the proleptic Gregorian calendar, `setDate(getDate() + n)`
    arithmetic, the day count behind `Date.UTC`, and the `YYYY-MM-DD` text the
    schedule page builds and splits. */
module CivilDates {
  import opened Wrappers
  import Text

  datatype Date = Date(year: int, month: int, day: int)

  predicate IsLeapYear(y: int) {
    y % 4 == 0 && (y % 100 != 0 || y % 400 == 0)
  }

  function DaysInMonth(y: int, m: int): (n: int)
    requires 1 <= m <= 12
    ensures 28 <= n <= 31
    ensures m == 2 ==> (n == 29 <==> IsLeapYear(y))
  {
    if m == 2 then (if IsLeapYear(y) then 29 else 28)
    else if m == 4 || m == 6 || m == 9 || m == 11 then 30
    else 31
  }

  /** A date that exists in the calendar. */
  predicate Valid(d: Date) {
    1 <= d.month <= 12 && 1 <= d.day <= DaysInMonth(d.year, d.month)
  }

  /** The calendar fields `getFullYear`, `getMonth() + 1` and `getDate()`
      of a valid JavaScript `Date`. */
  type CalendarDate = d: Date | Valid(d) witness Date(1970, 1, 1)

  /** Calendar order. */
  predicate Before(a: Date, b: Date) {
    a.year < b.year
    || (a.year == b.year && (a.month < b.month || (a.month == b.month && a.day < b.day)))
  }

  lemma BeforeTransitive(a: Date, b: Date, c: Date)
    requires Before(a, b) && Before(b, c)
    ensures Before(a, c)
  {
  }

  /** The following day: the day after the last of a month is the first of
      the next, after 31 December comes 1 January. */
  function NextDay(d: Date): (r: Date)
    requires Valid(d)
    ensures Valid(r) && Before(d, r)
  {
    if d.day < DaysInMonth(d.year, d.month) then d.(day := d.day + 1)
    else if d.month < 12 then Date(d.year, d.month + 1, 1)
    else Date(d.year + 1, 1, 1)
  }

  /** The preceding day. */
  function PrevDay(d: Date): (r: Date)
    requires Valid(d)
    ensures Valid(r) && Before(r, d)
  {
    if d.day > 1 then d.(day := d.day - 1)
    else if d.month > 1 then Date(d.year, d.month - 1, DaysInMonth(d.year, d.month - 1))
    else Date(d.year - 1, 12, 31)
  }

  /** Stepping a day forward and back (or back and forward) returns to the start. */
  lemma PrevNext(d: Date)
    requires Valid(d)
    ensures PrevDay(NextDay(d)) == d && NextDay(PrevDay(d)) == d
  {
  }

  /** `date.setDate(date.getDate() + n)`: move `n` days, either direction. */
  function AddDays(d: Date, n: int): (r: Date)
    requires Valid(d)
    ensures Valid(r)
    decreases if n < 0 then -n else n
  {
    if n == 0 then d
    else if n > 0 then AddDays(NextDay(d), n - 1)
    else AddDays(PrevDay(d), n + 1)
  }

  /** Starting a day later is moving one day more. */
  lemma AddDaysFromNext(d: Date, m: int)
    requires Valid(d)
    ensures AddDays(NextDay(d), m) == AddDays(d, m + 1)
  {
    PrevNext(d);
  }

  /** Starting a day earlier is moving one day less. */
  lemma AddDaysFromPrev(d: Date, m: int)
    requires Valid(d)
    ensures AddDays(PrevDay(d), m) == AddDays(d, m - 1)
  {
    PrevNext(d);
  }

  /** Moving `a` days and then `b` days is moving `a + b` days. */
  lemma {:induction false} AddDaysCompose(d: Date, a: int, b: int)
    requires Valid(d)
    ensures AddDays(AddDays(d, a), b) == AddDays(d, a + b)
    decreases if a < 0 then -a else a
  {
    if a > 0 {
      AddDaysCompose(NextDay(d), a - 1, b);
      AddDaysFromNext(d, a - 1 + b);
    } else if a < 0 {
      AddDaysCompose(PrevDay(d), a + 1, b);
      AddDaysFromPrev(d, a + 1 + b);
    }
  }

  /** Moving `n` days and back `n` days returns to the start. */
  lemma AddDaysInverse(d: Date, n: int)
    requires Valid(d)
    ensures AddDays(AddDays(d, n), -n) == d
  {
    AddDaysCompose(d, n, -n);
  }

  /** Moving forward lands strictly later. */
  lemma {:induction false} AddDaysLater(d: Date, n: int)
    requires Valid(d) && n > 0
    ensures Before(d, AddDays(d, n))
    decreases n
  {
    if n > 1 {
      AddDaysLater(NextDay(d), n - 1);
      BeforeTransitive(d, NextDay(d), AddDays(NextDay(d), n - 1));
    }
  }

  /** Days `i < j` after the same start are different days, in order. */
  lemma AddDaysOrdered(d: Date, i: nat, j: nat)
    requires Valid(d) && i < j
    ensures Before(AddDays(d, i), AddDays(d, j))
  {
    AddDaysCompose(d, i, j - i);
    AddDaysLater(AddDays(d, i), j - i);
  }

  // ------------------------------------------------------- day of the week

  /** Days of year `y` before the first of month `m`. */
  function DaysBeforeMonth(y: int, m: int): int
    requires 1 <= m <= 12
  {
    if m == 1 then 0 else DaysBeforeMonth(y, m - 1) + DaysInMonth(y, m - 1)
  }

  function YearLength(y: int): int {
    DaysBeforeMonth(y, 12) + DaysInMonth(y, 12)
  }

  /** Days from 1 January of year 0 to 1 January of year `y` (negative
      before year 0). */
  function DaysBeforeYear(y: int): int
    decreases if y < 0 then -y else y
  {
    if y == 0 then 0
    else if y > 0 then DaysBeforeYear(y - 1) + YearLength(y - 1)
    else DaysBeforeYear(y + 1) - YearLength(y)
  }

  /** The place of a date in the count of days starting at 0000-01-01. */
  function DayNumber(d: Date): int
    requires Valid(d)
  {
    DaysBeforeYear(d.year) + DaysBeforeMonth(d.year, d.month) + d.day - 1
  }

  lemma DaysBeforeNextYear(y: int)
    ensures DaysBeforeYear(y + 1) == DaysBeforeYear(y) + YearLength(y)
  {
  }

  /** The next day is the next number in the count. */
  lemma NextDayNumber(d: Date)
    requires Valid(d)
    ensures DayNumber(NextDay(d)) == DayNumber(d) + 1
  {
    if d.day == DaysInMonth(d.year, d.month) && d.month == 12 {
      DaysBeforeNextYear(d.year);
    }
  }

  /** Moving `n` days moves `n` places in the count. */
  lemma {:induction false} AddDaysNumber(d: Date, n: int)
    requires Valid(d)
    ensures DayNumber(AddDays(d, n)) == DayNumber(d) + n
    decreases if n < 0 then -n else n
  {
    if n > 0 {
      NextDayNumber(d);
      AddDaysNumber(NextDay(d), n - 1);
    } else if n < 0 {
      PrevNext(d);
      NextDayNumber(PrevDay(d));
      AddDaysNumber(PrevDay(d), n + 1);
    }
  }

  /** A year has 366 days when it is a leap year and 365 otherwise. */
  lemma YearLengthOf(y: int)
    ensures YearLength(y) == if IsLeapYear(y) then 366 else 365
  {
    var leap := if IsLeapYear(y) then 1 else 0;
    assert DaysBeforeMonth(y, 2) == 31;
    assert DaysBeforeMonth(y, 3) == 59 + leap;
    assert DaysBeforeMonth(y, 4) == 90 + leap;
    assert DaysBeforeMonth(y, 5) == 120 + leap;
    assert DaysBeforeMonth(y, 6) == 151 + leap;
    assert DaysBeforeMonth(y, 7) == 181 + leap;
    assert DaysBeforeMonth(y, 8) == 212 + leap;
    assert DaysBeforeMonth(y, 9) == 243 + leap;
    assert DaysBeforeMonth(y, 10) == 273 + leap;
    assert DaysBeforeMonth(y, 11) == 304 + leap;
    assert DaysBeforeMonth(y, 12) == 334 + leap;
  }

  /** Leap years among the years 0 to y - 1, for y >= 0. */
  function LeapYearsBefore(y: int): int {
    (y + 3) / 4 - (y + 99) / 100 + (y + 399) / 400
  }

  lemma LeapYearsStep(y: int)
    ensures LeapYearsBefore(y + 1) == LeapYearsBefore(y) + if IsLeapYear(y) then 1 else 0
  {
    MultipleStep4(y);
    MultipleStep100(y);
    MultipleStep400(y);
    CenturiesAreMultiplesOf4(y);
  }

  lemma CenturiesAreMultiplesOf4(y: int)
    ensures y % 400 == 0 ==> y % 100 == 0
    ensures y % 100 == 0 ==> y % 4 == 0
  {
    if y % 400 == 0 {
      MultipleOf400(y);
    }
    if y % 100 == 0 {
      MultipleOf100(y);
    }
  }

  lemma MultipleOf400(y: int)
    requires y % 400 == 0
    ensures y % 100 == 0
  {
    var j := y / 400;
    assert y == 100 * (4 * j);
  }

  lemma MultipleOf100(y: int)
    requires y % 100 == 0
    ensures y % 4 == 0
  {
    var j := y / 100;
    assert y == 4 * (25 * j);
  }

  lemma MultipleStep4(y: int)
    ensures (y + 4) / 4 - (y + 3) / 4 == if y % 4 == 0 then 1 else 0
  {
  }

  lemma MultipleStep100(y: int)
    ensures (y + 100) / 100 - (y + 99) / 100 == if y % 100 == 0 then 1 else 0
  {
  }

  lemma MultipleStep400(y: int)
    ensures (y + 400) / 400 - (y + 399) / 400 == if y % 400 == 0 then 1 else 0
  {
  }

  /** The closed form of the day count: 365 days a year plus one per leap
      year passed. */
  lemma {:induction false} DaysBeforeYearClosed(y: nat)
    ensures DaysBeforeYear(y) == 365 * y + LeapYearsBefore(y)
  {
    if y > 0 {
      DaysBeforeYearClosed(y - 1);
      LeapYearsStep(y - 1);
      YearLengthOf(y - 1);
    }
  }

  /** The closed form, stated for a known value of the day count. */
  lemma DaysBeforeYearValue(y: nat, v: int)
    requires 365 * y + LeapYearsBefore(y) == v
    ensures DaysBeforeYear(y) == v
  {
    DaysBeforeYearClosed(y);
  }

  /** Every year has at least 365 days. */
  lemma {:induction false} DaysBeforeYearGrows(a: int, b: int)
    requires a <= b
    ensures DaysBeforeYear(b) - DaysBeforeYear(a) >= 365 * (b - a)
    decreases b - a
  {
    if a < b {
      DaysBeforeYearGrows(a, b - 1);
      DaysBeforeNextYear(b - 1);
      YearLengthOf(b - 1);
    }
  }

  /** A date's place in the count lies within its year. */
  lemma DayNumberInYear(d: Date)
    requires Valid(d)
    ensures DaysBeforeYear(d.year) <= DayNumber(d) < DaysBeforeYear(d.year + 1)
  {
    DaysBeforeMonthEnd(d.year, d.month);
    DaysBeforeNextYear(d.year);
  }

  /** The months up to `m` fit in the year. */
  lemma {:induction false} DaysBeforeMonthEnd(y: int, m: int)
    requires 1 <= m <= 12
    ensures 0 <= DaysBeforeMonth(y, m)
    ensures DaysBeforeMonth(y, m) + DaysInMonth(y, m) <= YearLength(y)
    decreases 12 - m
  {
    DaysBeforeMonthGrows(y, 1, m);
    if m < 12 {
      DaysBeforeMonthEnd(y, m + 1);
    }
  }

  /** Later months start later in the year. */
  lemma {:induction false} DaysBeforeMonthGrows(y: int, a: int, b: int)
    requires 1 <= a <= b <= 12
    ensures DaysBeforeMonth(y, a) <= DaysBeforeMonth(y, b)
    decreases b - a
  {
    if a < b {
      DaysBeforeMonthGrows(y, a, b - 1);
    }
  }

  /** In year 0, a leap year, January and February end on day 60 of the
      count and March starts there. */
  lemma {:induction false} YearZeroMonths(m: int)
    requires 1 <= m <= 12
    ensures 0 <= DaysBeforeMonth(0, m)
    ensures m <= 2 ==> DaysBeforeMonth(0, m) + DaysInMonth(0, m) <= 60
    ensures m >= 3 ==> 60 <= DaysBeforeMonth(0, m) && DaysBeforeMonth(0, m) + DaysInMonth(0, m) <= 366
  {
    DaysBeforeMonthEnd(0, m);
    YearLengthOf(0);
    if m >= 3 {
      DaysBeforeMonthGrows(0, 3, m);
    }
  }

  /** Two years that agree on being leap years have the same months. */
  lemma {:induction false} SameLeapSameMonths(a: int, b: int, m: int)
    requires 1 <= m <= 12 && IsLeapYear(a) == IsLeapYear(b)
    ensures DaysBeforeMonth(a, m) == DaysBeforeMonth(b, m)
  {
    if m > 1 {
      SameLeapSameMonths(a, b, m - 1);
    }
  }

  /** From March on, year 0 (a leap year) is one day ahead of 1900 (not one). */
  lemma {:induction false} YearZeroAhead(m: int)
    requires 1 <= m <= 12
    ensures DaysBeforeMonth(0, m) == DaysBeforeMonth(1900, m) + if m >= 3 then 1 else 0
  {
    if m > 1 {
      YearZeroAhead(m - 1);
    }
  }

  /** `getDay()`: 0 is Sunday, 6 is Saturday. 1 January of year 0 of the
      proleptic Gregorian calendar is a Saturday. */
  function DayOfWeek(d: Date): (w: int)
    requires Valid(d)
    ensures 0 <= w <= 6
  {
    (DayNumber(d) + 6) % 7
  }

  lemma YearZeroStartsOnSaturday()
    ensures DayOfWeek(Date(0, 1, 1)) == 6
  {
  }

  /** Moving `n` days moves the weekday `n` places round the week. */
  lemma DayOfWeekAddDays(d: Date, n: int)
    requires Valid(d)
    ensures DayOfWeek(AddDays(d, n)) == (DayOfWeek(d) + n) % 7
  {
    var later, earlier := DayNumber(AddDays(d, n)), DayNumber(d);
    AddDaysNumber(d, n);
    WeekdayShift(later, earlier, n);
    assert DayOfWeek(AddDays(d, n)) == (later + 6) % 7;
    assert DayOfWeek(d) == (earlier + 6) % 7;
  }

  /** The weekday formula on plain day counts: n days on moves it by n mod 7. */
  lemma WeekdayShift(later: int, earlier: int, n: int)
    requires later == earlier + n
    ensures (later + 6) % 7 == ((earlier + 6) % 7 + n) % 7
  {
    ModAdd(earlier + 6, n);
  }

  /** Whole weeks later or earlier: the same weekday, on the right side. */
  lemma WeeksAway(d: Date, q: int)
    requires Valid(d) && q != 0
    ensures DayOfWeek(AddDays(d, 7 * q)) == DayOfWeek(d)
    ensures q > 0 ==> Before(d, AddDays(d, 7 * q))
    ensures q < 0 ==> Before(AddDays(d, 7 * q), d)
  {
    DayOfWeekAddDays(d, 7 * q);
    ModShift(DayOfWeek(d), q);
    if q > 0 {
      AddDaysLater(d, 7 * q);
    } else {
      var r := AddDays(d, 7 * q);
      AddDaysInverse(d, 7 * q);
      AddDaysLater(r, -7 * q);
    }
  }

  lemma ModAdd(a: int, n: int)
    ensures (a + n) % 7 == (a % 7 + n) % 7
  {
    var q := a / 7;
    assert a + n == 7 * q + (a % 7 + n);
    ModShift(a % 7 + n, q);
  }

  lemma ModShift(x: int, q: int)
    ensures (7 * q + x) % 7 == x % 7
  {
  }

  /** `${y}`: the year as JavaScript prints a number. */
  function YearText(y: int): string {
    if y < 0 then "-" + Text.Dec(-y) else Text.Dec(y)
  }

  /** `${y}-${pad(m)}-${pad(d)}`, the key the schedule page builds. */
  function IsoDate(d: Date): (s: string)
    requires Valid(d)
    ensures |s| == |YearText(d.year)| + 6
  {
    Pad2Length(d.month);
    Pad2Length(d.day);
    YearText(d.year) + "-" + Text.Pad2(d.month) + "-" + Text.Pad2(d.day)
  }

  lemma Pad2Length(n: nat)
    requires n < 100
    ensures |Text.Pad2(n)| == 2
  {
    Text.Pad2Digits(n);
  }

  /** A year's text starts with a sign exactly when the year is negative. */
  lemma YearTextSign(y: int)
    ensures |YearText(y)| > 0 && (YearText(y)[0] == '-' <==> y < 0)
  {
    if y >= 0 {
      assert Text.IsDigit(Text.Dec(y)[0]);
    }
  }

  /** Different years print differently. */
  lemma YearTextInjective(a: int, b: int)
    requires YearText(a) == YearText(b)
    ensures a == b
  {
    YearTextSign(a);
    YearTextSign(b);
    if a < 0 {
      var da := Text.Dec(-a);
      var db := Text.Dec(-b);
      assert YearText(a) == "-" + da && YearText(b) == "-" + db;
      assert da == YearText(a)[1..] && db == YearText(b)[1..];
      Text.DecInjective(-a, -b);
    } else {
      Text.DecInjective(a, b);
    }
  }

  /** Distinct calendar dates have distinct keys, so comparing keys is
      comparing dates. */
  lemma IsoDateInjective(a: Date, b: Date)
    requires Valid(a) && Valid(b) && IsoDate(a) == IsoDate(b)
    ensures a == b
  {
    var s := IsoDate(a);
    var n := |s|;
    Pad2Length(a.month);
    Pad2Length(a.day);
    Pad2Length(b.month);
    Pad2Length(b.day);
    assert |YearText(a.year)| == |YearText(b.year)|;
    assert YearText(a.year) == s[..n - 6] == YearText(b.year);
    assert Text.Pad2(a.month) == s[n - 5..n - 3] == Text.Pad2(b.month);
    assert Text.Pad2(a.day) == s[n - 2..] == Text.Pad2(b.day);
    YearTextInjective(a.year, b.year);
    Text.Pad2Injective(a.month, b.month);
    Text.Pad2Injective(a.day, b.day);
  }

  /** The year `new Date(year, monthIndex, day)` and `Date.UTC(year, …)`
      use: a year from 0 to 99 is read as 1900 + year. */
  function ConstructorYear(y: int): (r: int)
    ensures 0 <= y <= 99 ==> r == 1900 + y
    ensures (y < 0 || y > 99) ==> r == y
  {
    if 0 <= y <= 99 then 1900 + y else y
  }

  /** `const [year, month, day] = s.split("-").map(Number)` followed by
      `new Date(year, month - 1, day)`, for strings of digit runs naming a
      calendar date in the constructor's year; every other string is None
      (`new Date` would roll an out-of-range month or day over, and `Number`
      accepts more spellings than digit runs). */
  function ParseIsoDate(s: string): (r: Option<Date>)
    ensures r.Some? ==> Valid(r.value) && r.value.year >= 100
  {
    var parts := Text.SplitOn(s, '-');
    if |parts| < 3 then None
    else
      match (Text.NumberOf(parts[0]), Text.NumberOf(parts[1]), Text.NumberOf(parts[2]))
      case (Some(y), Some(m), Some(d)) =>
        var date := Date(ConstructorYear(y), m, d);
        if Valid(date) then Some(date) else None
      case _ => None
  }

  lemma DigitsHaveNoDash(s: string)
    requires forall k :: 0 <= k < |s| ==> Text.IsDigit(s[k])
    ensures '-' !in s
  {
  }

  /** Reading back the key of a date with an unsigned year gives that date
      with the year the constructor makes of it, or None when that date is
      not a calendar date (29 February of a two-digit year whose 19xx year is
      not a leap year). */
  lemma ParseIsoDateOfKey(d: Date)
    requires Valid(d) && d.year >= 0
    ensures var read := Date(ConstructorYear(d.year), d.month, d.day);
      ParseIsoDate(IsoDate(d)) == if Valid(read) then Some(read) else None
  {
    var y := Text.Dec(d.year);
    var m := Text.Pad2(d.month);
    var dd := Text.Pad2(d.day);
    DigitsHaveNoDash(y);
    DigitsHaveNoDash(m);
    DigitsHaveNoDash(dd);
    assert IsoDate(d) == y + ['-'] + (m + ['-'] + dd);
    Text.SplitOnFirst(y, '-', m + ['-'] + dd);
    Text.SplitOnFirst(m, '-', dd);
    Text.SplitOnNone(dd, '-');
    assert Text.SplitOn(IsoDate(d), '-') == [y, m, dd];
    Text.DecValue(d.year);
    Text.Pad2Value(d.month);
    Text.Pad2Value(d.day);
  }

  /** Reading back a key gives the date it was built from, for years from
      100 on. */
  lemma ParseIsoDateRoundTrip(d: Date)
    requires Valid(d) && d.year >= 100
    ensures ParseIsoDate(IsoDate(d)) == Some(d)
  {
    ParseIsoDateOfKey(d);
  }

  /** Below year 100 the round trip fails: the key of 3 January of year 50
      reads back as 3 January 1950. */
  lemma TwoDigitYearReadsAs1900s()
    ensures ParseIsoDate(IsoDate(Date(50, 1, 3))) == Some(Date(1950, 1, 3))
  {
    ParseIsoDateOfKey(Date(50, 1, 3));
  }

  /** With a four-digit year the key is the zero-padded `YYYY-MM-DD`:
      ten characters, dashes at positions 4 and 7, digits elsewhere. */
  lemma FourDigitYearShape(d: Date)
    requires Valid(d) && 1000 <= d.year <= 9999
    ensures var s := IsoDate(d);
      |s| == 10 && s[4] == '-' && s[7] == '-'
      && forall k :: 0 <= k < 10 && k != 4 && k != 7 ==> Text.IsDigit(s[k])
  {
    assert Text.Pow10(3) == 1000 by {
      assert Text.Pow10(2) == 100;
    }
    assert Text.Pow10(4) == 10000;
    Text.DecLength(d.year, 4);
    Pad2Length(d.month);
    Pad2Length(d.day);
    var s := IsoDate(d);
    var y := Text.Dec(d.year);
    assert s[..4] == y;
    assert s[5..7] == Text.Pad2(d.month);
    assert s[8..] == Text.Pad2(d.day);
  }
}
