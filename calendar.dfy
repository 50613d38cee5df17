/**
  Civil-calendar arithmetic at day granularity: the part of JavaScript's Date that the
  reporting code relies on (month lengths, day overflow in the Date constructor, getTime()
  comparisons, getUTCDay() and the ISO-8601 week number helper).

  A date is a (year, month, day) triple in the proleptic Gregorian calendar. DayNumber gives
  its position on the day line (0 is 0001-01-01, a Monday); comparing two dates' timestamps at
  day granularity is comparing their day numbers.
 */
module Calendar {

  datatype Date = Date(year: int, month: int, day: int)

  predicate IsLeap(y: int) {
    (y % 4 == 0 && y % 100 != 0) || y % 400 == 0
  }

  /** What `new Date(year, month + 1, 0).getDate()` yields for a 1-based month. */
  function DaysInMonth(y: int, m: int): (n: int)
    ensures 28 <= n <= 31
    ensures m == 2 ==> (n == 29 <==> IsLeap(y))
  {
    if m == 2 then (if IsLeap(y) then 29 else 28)
    else if m == 4 || m == 6 || m == 9 || m == 11 then 30
    else 31
  }

  function DaysInYear(y: int): int {
    if IsLeap(y) then 366 else 365
  }

  predicate ValidDate(d: Date) {
    1 <= d.month <= 12 && 1 <= d.day <= DaysInMonth(d.year, d.month)
  }

  /** Days from 0001-01-01 to January 1 of year y. */
  function DaysBeforeYear(y: int): int {
    var p := y - 1;
    365 * p + p / 4 - p / 100 + p / 400
  }

  /** Days of year y that precede the first of month m. */
  function DaysBeforeMonth(y: int, m: int): int {
    var common :=
      if m <= 1 then 0 else if m == 2 then 31 else if m == 3 then 59
      else if m == 4 then 90 else if m == 5 then 120 else if m == 6 then 151
      else if m == 7 then 181 else if m == 8 then 212 else if m == 9 then 243
      else if m == 10 then 273 else if m == 11 then 304 else 334;
    common + (if m > 2 && IsLeap(y) then 1 else 0)
  }

  /** 1-based ordinal of the date within its year (January 1 is 1). */
  function DayOfYear(d: Date): int {
    DaysBeforeMonth(d.year, d.month) + d.day
  }

  function DayNumber(d: Date): int {
    DaysBeforeYear(d.year) + DayOfYear(d) - 1
  }

  /** Day-granularity comparison of timestamps: `first <= d && d <= last`. */
  predicate InWindow(d: Date, first: Date, last: Date) {
    DayNumber(first) <= DayNumber(d) <= DayNumber(last)
  }

  // ---------------------------------------------------------------------------
  // Year and month arithmetic

  lemma StepDiv4(p: int)
    ensures (p + 1) / 4 == p / 4 + (if (p + 1) % 4 == 0 then 1 else 0)
  {
  }

  lemma StepDiv100(p: int)
    ensures (p + 1) / 100 == p / 100 + (if (p + 1) % 100 == 0 then 1 else 0)
  {
  }

  lemma StepDiv400(p: int)
    ensures (p + 1) / 400 == p / 400 + (if (p + 1) % 400 == 0 then 1 else 0)
  {
  }

  lemma Multiple400Is100(y: int)
    requires y % 400 == 0
    ensures y % 100 == 0
  {
    var k := y / 400;
    assert y == 100 * (4 * k);
  }

  lemma Multiple100Is4(y: int)
    requires y % 100 == 0
    ensures y % 4 == 0
  {
    var k := y / 100;
    assert y == 4 * (25 * k);
  }

  /** A year contributes exactly its own length to the day line. */
  lemma DaysBeforeNextYear(y: int)
    ensures DaysBeforeYear(y + 1) == DaysBeforeYear(y) + DaysInYear(y)
  {
    var p := y - 1;
    StepDiv4(p);
    StepDiv100(p);
    StepDiv400(p);
    if y % 400 == 0 {
      Multiple400Is100(y);
    }
    if y % 100 == 0 {
      Multiple100Is4(y);
    }
    var d4 := if y % 4 == 0 then 1 else 0;
    var d100 := if y % 100 == 0 then 1 else 0;
    var d400 := if y % 400 == 0 then 1 else 0;
    assert DaysBeforeYear(y + 1) - DaysBeforeYear(y) == 365 + d4 - d100 + d400;
    assert d4 - d100 + d400 == (if IsLeap(y) then 1 else 0);
  }

  lemma {:induction false} DaysBeforeYearMonotone(y1: int, y2: int)
    requires y1 < y2
    ensures DaysBeforeYear(y1 + 1) <= DaysBeforeYear(y2)
    decreases y2 - y1
  {
    if y1 + 1 < y2 {
      DaysBeforeYearMonotone(y1 + 1, y2);
      DaysBeforeNextYear(y1 + 1);
    }
  }

  lemma DaysBeforeNextMonth(y: int, m: int)
    requires 1 <= m < 12
    ensures DaysBeforeMonth(y, m + 1) == DaysBeforeMonth(y, m) + DaysInMonth(y, m)
  {
  }

  lemma DecemberEndsYear(y: int)
    ensures DaysBeforeMonth(y, 12) + DaysInMonth(y, 12) == DaysInYear(y)
  {
  }

  lemma {:induction false} DaysBeforeMonthMonotone(y: int, m1: int, m2: int)
    requires 1 <= m1 < m2 <= 12
    ensures DaysBeforeMonth(y, m1) + DaysInMonth(y, m1) <= DaysBeforeMonth(y, m2)
    decreases m2 - m1
  {
    DaysBeforeNextMonth(y, m1);
    if m1 + 1 < m2 {
      DaysBeforeMonthMonotone(y, m1 + 1, m2);
    }
  }

  lemma DayOfYearBounds(d: Date)
    requires ValidDate(d)
    ensures DaysBeforeMonth(d.year, d.month) < DayOfYear(d) <= DaysBeforeMonth(d.year, d.month) + DaysInMonth(d.year, d.month)
    ensures 1 <= DayOfYear(d) <= DaysInYear(d.year)
  {
    if d.month < 12 {
      DaysBeforeMonthMonotone(d.year, d.month, 12);
    }
    DecemberEndsYear(d.year);
  }

  /** Every valid date lies within its year's stretch of the day line. */
  lemma YearBounds(d: Date)
    requires ValidDate(d)
    ensures DaysBeforeYear(d.year) <= DayNumber(d) < DaysBeforeYear(d.year + 1)
  {
    DayOfYearBounds(d);
    DaysBeforeNextYear(d.year);
  }

  lemma EarlierYearEarlierDay(a: Date, b: Date)
    requires ValidDate(a) && ValidDate(b) && a.year < b.year
    ensures DayNumber(a) < DayNumber(b)
  {
    YearBounds(a);
    YearBounds(b);
    DaysBeforeYearMonotone(a.year, b.year);
  }

  lemma SameYearEarlierMonth(a: Date, b: Date)
    requires ValidDate(a) && ValidDate(b) && a.year == b.year && a.month < b.month
    ensures DayNumber(a) < DayNumber(b)
  {
    DayOfYearBounds(a);
    DayOfYearBounds(b);
    DaysBeforeMonthMonotone(a.year, a.month, b.month);
  }

  /** A date in an earlier calendar month lies earlier on the day line. */
  lemma EarlierMonthEarlierDay(a: Date, b: Date)
    requires ValidDate(a) && ValidDate(b)
    requires 12 * a.year + a.month < 12 * b.year + b.month
    ensures DayNumber(a) < DayNumber(b)
  {
    if a.year < b.year {
      EarlierYearEarlierDay(a, b);
    } else {
      SameYearEarlierMonth(a, b);
    }
  }

  /** Calendar order: year, then month, then day. */
  predicate Earlier(a: Date, b: Date) {
    a.year < b.year
    || (a.year == b.year && (a.month < b.month || (a.month == b.month && a.day < b.day)))
  }

  lemma EarlierImpliesSmallerDayNumber(a: Date, b: Date)
    requires ValidDate(a) && ValidDate(b) && Earlier(a, b)
    ensures DayNumber(a) < DayNumber(b)
  {
    if a.year < b.year {
      EarlierYearEarlierDay(a, b);
    } else if a.month < b.month {
      SameYearEarlierMonth(a, b);
    }
  }

  /**
    For valid dates, calendar order is timestamp order: comparing `getTime()` values is
    comparing year, month and day in turn.
   */
  lemma EarlierIsTimeOrder(a: Date, b: Date)
    requires ValidDate(a) && ValidDate(b)
    ensures Earlier(a, b) <==> DayNumber(a) < DayNumber(b)
  {
    if Earlier(a, b) {
      EarlierImpliesSmallerDayNumber(a, b);
    } else if Earlier(b, a) {
      EarlierImpliesSmallerDayNumber(b, a);
    } else {
      assert a == b;
    }
  }

  /** The year of a valid date is determined by its day number. */
  lemma YearOfDayNumber(d: Date, y: int)
    requires ValidDate(d)
    requires DaysBeforeYear(y) <= DayNumber(d) < DaysBeforeYear(y + 1)
    ensures d.year == y
  {
    YearBounds(d);
    if d.year < y {
      DaysBeforeYearMonotone(d.year, y);
    } else if d.year > y {
      DaysBeforeYearMonotone(y, d.year);
    }
  }

  /**
    A valid date falls in the window from the first to the last day of month m of year y
    exactly when it is a date of that calendar month.
   */
  lemma {:induction false} MonthWindow(d: Date, y: int, m: int)
    requires ValidDate(d) && 1 <= m <= 12
    ensures InWindow(d, Date(y, m, 1), Date(y, m, DaysInMonth(y, m))) <==> d.year == y && d.month == m
  {
    var first, last := Date(y, m, 1), Date(y, m, DaysInMonth(y, m));
    DayOfYearBounds(d);
    if InWindow(d, first, last) {
      YearBounds(first);
      YearBounds(last);
      YearOfDayNumber(d, y);
      if d.month < m {
        DaysBeforeMonthMonotone(y, d.month, m);
      } else if d.month > m {
        DaysBeforeMonthMonotone(y, m, d.month);
      }
    }
  }

  /** Distinct valid dates have distinct day numbers (timestamps). */
  lemma DayNumberInjective(a: Date, b: Date)
    requires ValidDate(a) && ValidDate(b)
    requires DayNumber(a) == DayNumber(b)
    ensures a == b
  {
    DayOfYearBounds(b);
    MonthWindow(a, b.year, b.month);
  }

  // ---------------------------------------------------------------------------
  // Moving along the day line (the Date constructor's day overflow)

  function NextDay(d: Date): (r: Date)
    requires ValidDate(d)
    ensures ValidDate(r) && DayNumber(r) == DayNumber(d) + 1
  {
    if d.day < DaysInMonth(d.year, d.month) then Date(d.year, d.month, d.day + 1)
    else if d.month < 12 then
      DaysBeforeNextMonth(d.year, d.month);
      Date(d.year, d.month + 1, 1)
    else
      DaysBeforeNextYear(d.year);
      DecemberEndsYear(d.year);
      Date(d.year + 1, 1, 1)
  }

  function PrevDay(d: Date): (r: Date)
    requires ValidDate(d)
    ensures ValidDate(r) && DayNumber(r) == DayNumber(d) - 1
  {
    if d.day > 1 then Date(d.year, d.month, d.day - 1)
    else if d.month > 1 then
      DaysBeforeNextMonth(d.year, d.month - 1);
      Date(d.year, d.month - 1, DaysInMonth(d.year, d.month - 1))
    else
      DaysBeforeNextYear(d.year - 1);
      DecemberEndsYear(d.year - 1);
      Date(d.year - 1, 12, 31)
  }

  /**
    The date n days after d (before it when n is negative): what
    `new Date(y, m, day + n)` normalises to.
   */
  function AddDays(d: Date, n: int): (r: Date)
    requires ValidDate(d)
    ensures ValidDate(r) && DayNumber(r) == DayNumber(d) + n
    decreases if n < 0 then -n else n
  {
    if n == 0 then d
    else if n > 0 then AddDays(NextDay(d), n - 1)
    else AddDays(PrevDay(d), n + 1)
  }

  /**
    The first of the month that lies `back` months before month m of year y:
    `new Date(y, m - 1 - back, 1)` with the month index wrapping into earlier years.
   */
  function MonthsBefore(y: int, m: int, back: int): (r: Date)
    requires 1 <= m <= 12
    ensures ValidDate(r) && r.day == 1
    ensures 12 * r.year + r.month == 12 * y + m - back
  {
    var index := 12 * y + (m - 1) - back;
    Date(index / 12, index % 12 + 1, 1)
  }

  /** The last day of the month of d: `new Date(y, m + 1, 0)`. */
  function MonthEnd(d: Date): (r: Date)
    requires 1 <= d.month <= 12
    ensures ValidDate(r) && r.year == d.year && r.month == d.month
    ensures r.day == DaysInMonth(r.year, r.month) && NextDay(r).day == 1
  {
    Date(d.year, d.month, DaysInMonth(d.year, d.month))
  }

  /** The day after the end of a month is the first of the month that follows it. */
  lemma MonthEndThenNextMonth(y: int, m: int, back: int)
    requires 1 <= m <= 12
    ensures NextDay(MonthEnd(MonthsBefore(y, m, back + 1))) == MonthsBefore(y, m, back)
  {
    var older, newer := MonthsBefore(y, m, back + 1), MonthsBefore(y, m, back);
    var e := MonthEnd(older);
    assert 12 * newer.year + newer.month == 12 * older.year + older.month + 1;
    if older.month < 12 {
      assert newer.year == older.year && newer.month == older.month + 1;
    } else {
      assert newer.year == older.year + 1 && newer.month == 1;
    }
  }

  // ---------------------------------------------------------------------------
  // Week days and ISO-8601 week numbers

  /** `getUTCDay()`: 0 is Sunday, 1 Monday, ..., 6 Saturday. */
  function JsWeekday(d: Date): (w: int)
    ensures 0 <= w < 7
  {
    (DayNumber(d) + 1) % 7
  }

  /** 1970-01-01, the epoch of `Date` timestamps, was a Thursday: `getUTCDay()` gives 4. */
  lemma JsWeekdayAtEpoch()
    ensures JsWeekday(Date(1970, 1, 1)) == 4
  {
    var p := 1969;
    assert p / 4 == 492 && p / 100 == 19 && p / 400 == 4;
    assert DaysBeforeYear(1970) == 719162;
  }

  /** Counting on by one day moves the remainder modulo 7 on by one, 6 wrapping to 0. */
  lemma NextResidue(n: int)
    ensures (n + 1) % 7 == (n % 7 + 1) % 7
  {
    var q, w := n / 7, n % 7;
    if w < 6 {
      assert n + 1 == 7 * q + (w + 1);
    } else {
      assert n + 1 == 7 * (q + 1);
    }
  }

  /** From each day to the next the week day advances by one, Saturday wrapping to Sunday. */
  lemma JsWeekdayNextDay(d: Date)
    requires ValidDate(d)
    ensures JsWeekday(NextDay(d)) == (JsWeekday(d) + 1) % 7
    ensures JsWeekday(d) == 6 ==> JsWeekday(NextDay(d)) == 0
  {
    var n := DayNumber(d) + 1;
    var e := NextDay(d);
    assert DayNumber(e) + 1 == n + 1;
    NextResidue(n);
    assert JsWeekday(e) == (n + 1) % 7;
  }

  /** `getUTCDay() || 7`: Monday is 1, ..., Sunday is 7. */
  function IsoWeekday(d: Date): (w: int)
    ensures 1 <= w <= 7
    ensures w % 7 == JsWeekday(d)
  {
    var js := JsWeekday(d);
    if js == 0 then 7 else js
  }

  /** Shifting by whole weeks keeps the week day. */
  lemma WeekdayPeriodic(a: Date, b: Date, k: int)
    requires DayNumber(b) == DayNumber(a) + 7 * k
    ensures IsoWeekday(b) == IsoWeekday(a)
  {
  }

  lemma ThursdayResidue(k: int, w: int)
    requires 1 <= w <= 7 && w % 7 == k % 7
    ensures (k + 4 - w) % 7 == 4
  {
    var q := k / 7;
    assert k == 7 * q + k % 7;
    if w == 7 {
      assert k + 4 - w == 7 * (q - 1) + 4;
    } else {
      assert k + 4 - w == 7 * q + 4;
    }
  }

  /** The Thursday of d's Monday-to-Sunday week: d moved by 4 - isoWeekday days. */
  function ShiftToThursday(d: Date): (t: Date)
    requires ValidDate(d)
    ensures ValidDate(t) && IsoWeekday(t) == 4
    ensures DayNumber(t) - DayNumber(d) == 4 - IsoWeekday(d)
  {
    var t := AddDays(d, 4 - IsoWeekday(d));
    ThursdayResidue(DayNumber(d) + 1, IsoWeekday(d));
    t
  }

  /** Ceiling of a / b for a positive divisor (Math.ceil of an exact quotient). */
  function CeilDiv(a: int, b: int): int
    requires b > 0
  {
    (a + b - 1) / b
  }

  /**
    The week-number helper: move to the Thursday of the week, count the days from
    January 1 of that Thursday's year, add one and take the ceiling of a seventh.
   */
  function WeekNumber(d: Date): (w: int)
    requires ValidDate(d)
    ensures 1 <= w <= 53
  {
    var t := ShiftToThursday(d);
    var yearStart := Date(t.year, 1, 1);
    DayOfYearBounds(t);
    CeilDiv(DayNumber(t) - DayNumber(yearStart) + 1, 7)
  }

  /** The Thursday's ordinal in its year lies in the w-th block of seven days. */
  lemma WeekNumberBracketsDay(d: Date)
    requires ValidDate(d)
    ensures 7 * (WeekNumber(d) - 1) < DayOfYear(ShiftToThursday(d)) <= 7 * WeekNumber(d)
  {
    var t := ShiftToThursday(d);
    DayOfYearBounds(t);
    assert DayNumber(t) - DayNumber(Date(t.year, 1, 1)) + 1 == DayOfYear(t);
  }

  /** A day number within a year's first n days belongs to that year, at ordinal k. */
  lemma EarlyInYear(first: Date, y: int, k: int)
    requires ValidDate(first) && 1 <= k <= 7
    requires DaysBeforeYear(y) + k - 1 == DayNumber(first)
    ensures first.year == y && DayOfYear(first) == k
  {
    DaysBeforeNextYear(y);
    YearOfDayNumber(first, y);
  }

  /**
    The helper computes the ISO-8601 week number (ISO 8601:2004 section 4.1.4): the week
    containing d has its Thursday t in t's year, and counting back w - 1 whole weeks from t
    lands on the first Thursday of that year, which falls within its first seven days.
   */
  lemma {:induction false} WeekNumberIsIsoWeek(d: Date)
    requires ValidDate(d)
    ensures var t, w := ShiftToThursday(d), WeekNumber(d);
            var first := AddDays(t, -7 * (w - 1));
            && -3 <= DayNumber(t) - DayNumber(d) <= 3
            && first.year == t.year
            && IsoWeekday(first) == 4
            && 1 <= DayOfYear(first) <= 7
  {
    var t, w := ShiftToThursday(d), WeekNumber(d);
    var first := AddDays(t, -7 * (w - 1));
    WeekNumberBracketsDay(d);
    var k := DayOfYear(t) - 7 * (w - 1);
    EarlyInYear(first, t.year, k);
    WeekdayPeriodic(first, t, w - 1);
  }
}
