/**
  The period bucketer: the date ranges and labels of the chart reports. Current-month mode
  has one bucket per day of the month; historical mode counts back `i` whole calendar
  months, or `i` trailing seven-day windows ending `7 * i` days before today.
 */
module Bucketer {
  import opened Calendar
  import opened Text

  datatype Period = Week | Month

  /** A labelled, inclusive range of days. */
  datatype Bucket = Bucket(name: string, first: Date, last: Date)

  /**
    `${year}-${pad(month)}-${pad(day)}`, the form in which dates are stored and compared.
    For a valid date the text is the year, '-', two digits reading as the month, '-', and
    two digits reading as the day.
   */
  function FormatDate(d: Date): (r: string)
    ensures ValidDate(d) ==>
      var n := |IntToString(d.year)|;
      && |r| == n + 6 && r[..n] == IntToString(d.year) && r[n] == '-' && r[n + 3] == '-'
      && AllDigits(r[n + 1..n + 3]) && ParseNat(r[n + 1..n + 3]) == d.month
      && AllDigits(r[n + 4..]) && ParseNat(r[n + 4..]) == d.day
  {
    var r := IntToString(d.year) + "-" + PadTwo(d.month) + "-" + PadTwo(d.day);
    if ValidDate(d) then
      PadTwoRoundTrip(d.month);
      PadTwoRoundTrip(d.day);
      var n := |IntToString(d.year)|;
      assert r[n + 1..n + 3] == PadTwo(d.month) && r[n + 4..] == PadTwo(d.day);
      r
    else r
  }

  /** The pieces of a `y-mm-dd` text are recovered from the text. */
  lemma DateTextParts(y1: string, m1: string, d1: string, y2: string, m2: string, d2: string)
    requires |m1| == 2 && |m2| == 2 && |d1| == 2 && |d2| == 2
    requires y1 + "-" + m1 + "-" + d1 == y2 + "-" + m2 + "-" + d2
    ensures y1 == y2 && m1 == m2 && d1 == d2
  {
    var s := y1 + "-" + m1 + "-" + d1;
    var t := y2 + "-" + m2 + "-" + d2;
    var n := |y1|;
    assert |s| == n + 6 && |t| == |y2| + 6;
    assert y1 == s[..n] && y2 == t[..n];
    assert m1 == s[n + 1..n + 3] && m2 == t[n + 1..n + 3];
    assert d1 == s[n + 4..] && d2 == t[n + 4..];
  }

  /**
    Comparing stored date strings with a formatted date is comparing dates: two valid dates
    with the same text are the same date.
   */
  lemma FormatDateInjective(a: Date, b: Date)
    requires ValidDate(a) && ValidDate(b)
    requires FormatDate(a) == FormatDate(b)
    ensures a == b
  {
    PadTwoRoundTrip(a.month);
    PadTwoRoundTrip(b.month);
    PadTwoRoundTrip(a.day);
    PadTwoRoundTrip(b.day);
    DateTextParts(IntToString(a.year), PadTwo(a.month), PadTwo(a.day),
                  IntToString(b.year), PadTwo(b.month), PadTwo(b.day));
    IntToStringInjective(a.year, b.year);
  }

  // ---------------------------------------------------------------------------
  // Current-month mode

  /** `String(day).padStart(2, '0')`: for a day below 100, two digits that read back as it. */
  function DayLabel(day: int): (r: string)
    ensures 0 <= day < 100 ==> |r| == 2 && AllDigits(r) && ParseNat(r) == day
  {
    if 0 <= day < 100 then
      PadTwoRoundTrip(day);
      PadTwo(day)
    else PadTwo(day)
  }

  // ---------------------------------------------------------------------------
  // Historical mode

  const MonthAbbreviations: seq<string> :=
    ["Jan", "Feb", "Mar", "Apr", "May", "Jun", "Jul", "Aug", "Sep", "Oct", "Nov", "Dec"]

  /**
    Stand-in for `toLocaleString('default', { month: 'short', year: '2-digit' })`, written as
    the English short month name and the two-digit year ("Jul 24").
   */
  function MonthLabel(d: Date): string
    requires 1 <= d.month <= 12
  {
    MonthAbbreviations[d.month - 1] + " " + PadTwo(d.year % 100)
  }

  /**
    `W${getWeekNumber(startDate)}-${startDate.getFullYear().toString().slice(-2)}`: the ISO
    week number, but the calendar year of the start date.
   */
  function WeekLabel(start: Date): string
    requires ValidDate(start)
  {
    WeekText(WeekNumber(start), start.year)
  }

  /** The text of a week label from its week number and its year. */
  function WeekText(week: int, year: int): string {
    "W" + IntToString(week) + "-" + LastTwo(IntToString(year))
  }

  /** The pieces of "W" + w + "-" + y sit where they were put. */
  lemma WeekTextPieces(w: string, y: string)
    ensures var r, k := "W" + w + "-" + y, |w| + 1;
            && k < |r| && r[0] == 'W' && r[k] == '-' && r[1..k] == w && r[k + 1..] == y
  {
    var r, k := "W" + w + "-" + y, |w| + 1;
    assert r == ['W'] + w + ['-'] + y;
    assert r[1..k] == w;
    assert r[k + 1..] == y;
  }

  /**
    A week text reads back: 'W', digits that read as the week number, '-', and the last
    two characters of the year.
   */
  lemma WeekTextReadsBack(week: int, year: int)
    requires 0 <= week
    ensures var r, k := WeekText(week, year), |IntToString(week)| + 1;
            && 2 <= k < |r| && r[0] == 'W' && r[k] == '-'
            && AllDigits(r[1..k]) && ParseNat(r[1..k]) == week
            && r[k + 1..] == LastTwo(IntToString(year))
  {
    var w, y := IntToString(week), LastTwo(IntToString(year));
    assert w == NatToString(week);
    ParseNatToString(week);
    NatToStringDigits(week);
    WeekTextPieces(w, y);
    assert WeekText(week, year) == "W" + w + "-" + y;
  }

  /** Month bucket i: the first through the last day of the month i months back. */
  function MonthBucket(today: Date, i: int): (b: Bucket)
    requires ValidDate(today)
    ensures ValidDate(b.first) && ValidDate(b.last)
    ensures b.first.day == 1 && b.last == MonthEnd(b.first)
    ensures 12 * b.first.year + b.first.month == 12 * today.year + today.month - i
  {
    var targetMonth := MonthsBefore(today.year, today.month, i);
    Bucket(MonthLabel(targetMonth), targetMonth, MonthEnd(targetMonth))
  }

  /**
    Week bucket i: the seven days ending 7 * i days before today. The start date, six days
    before the end date, is reached from today in one step.
   */
  function WeekBucket(today: Date, i: int): (b: Bucket)
    requires ValidDate(today)
    ensures ValidDate(b.first) && ValidDate(b.last)
    ensures DayNumber(b.last) == DayNumber(today) - 7 * i
    ensures DayNumber(b.first) == DayNumber(b.last) - 6
  {
    var endDate := AddDays(today, -(i * 7));
    var startDate := AddDays(today, -(i * 7) - 6);
    Bucket(WeekLabel(startDate), startDate, endDate)
  }

  /** The bucket of iteration i: any period other than a month is taken as a week. */
  function HistoricalBucket(today: Date, period: Period, i: int): Bucket
    requires ValidDate(today)
  {
    if period == Month then MonthBucket(today, i) else WeekBucket(today, i)
  }

  /** Every bucket is a non-empty range of valid dates. */
  lemma HistoricalBucketIsRange(today: Date, period: Period, i: int)
    requires ValidDate(today)
    ensures var b := HistoricalBucket(today, period, i);
            ValidDate(b.first) && ValidDate(b.last) && DayNumber(b.first) <= DayNumber(b.last)
  {
    if period == Month {
      var b := MonthBucket(today, i);
      assert DayNumber(b.last) == DayNumber(b.first) + DaysInMonth(b.first.year, b.first.month) - 1;
    }
  }

  /** The month index (months since year 0) of a date. */
  function MonthIndex(d: Date): int {
    12 * d.year + d.month - 1
  }

  /**
    A valid date lies in month bucket i exactly when it is dated in the calendar month
    i months before the current one.
   */
  lemma MonthBucketMembership(today: Date, i: int, d: Date)
    requires ValidDate(today) && ValidDate(d)
    ensures var b := MonthBucket(today, i);
            InWindow(d, b.first, b.last) <==> MonthIndex(d) == MonthIndex(today) - i
  {
    var b := MonthBucket(today, i);
    MonthWindow(d, b.first.year, b.first.month);
    if MonthIndex(d) == MonthIndex(today) - i {
      assert 12 * (d.year - b.first.year) == b.first.month - d.month;
      assert d.year == b.first.year;
    }
  }

  /**
    A date lies in week bucket i (i >= 0) exactly when it is not after today and i is the
    number of whole weeks between it and today: each such date is in exactly one bucket.
   */
  lemma WeekBucketMembership(today: Date, i: int, d: Date)
    requires ValidDate(today) && 0 <= i
    ensures var b := WeekBucket(today, i);
            InWindow(d, b.first, b.last)
            <==> (DayNumber(d) <= DayNumber(today) && i == (DayNumber(today) - DayNumber(d)) / 7)
  {
    var b := WeekBucket(today, i);
    var gap := DayNumber(today) - DayNumber(d);
    if InWindow(d, b.first, b.last) {
      assert 7 * i <= gap <= 7 * i + 6;
      assert gap / 7 == i;
    }
    if 0 <= gap && i == gap / 7 {
      assert 7 * i <= gap <= 7 * i + 6;
    }
  }

  /** Adjacent buckets are contiguous: bucket i starts the day after bucket i + 1 ends. */
  lemma AdjacentBucketsContiguous(today: Date, period: Period, i: int)
    requires ValidDate(today)
    ensures DayNumber(HistoricalBucket(today, period, i + 1).last) + 1
         == DayNumber(HistoricalBucket(today, period, i).first)
  {
    if period == Month {
      MonthEndThenNextMonth(today.year, today.month, i);
    }
  }

  /**
    An older bucket ends before a newer one starts, so distinct buckets never share a day.
   */
  lemma OlderBucketEndsEarlier(today: Date, period: Period, i: int, j: int)
    requires ValidDate(today) && j < i
    ensures DayNumber(HistoricalBucket(today, period, i).last)
          < DayNumber(HistoricalBucket(today, period, j).first)
  {
    if period == Month {
      var older, newer := MonthBucket(today, i), MonthBucket(today, j);
      EarlierMonthEarlierDay(older.last, newer.first);
    }
  }

  lemma BucketsDisjoint(today: Date, period: Period, i: int, j: int, d: Date)
    requires ValidDate(today) && i != j
    ensures var bi, bj := HistoricalBucket(today, period, i), HistoricalBucket(today, period, j);
            !(InWindow(d, bi.first, bi.last) && InWindow(d, bj.first, bj.last))
  {
    if i < j {
      OlderBucketEndsEarlier(today, period, j, i);
    } else {
      OlderBucketEndsEarlier(today, period, i, j);
    }
  }

  /** Monday 2024-12-30 is in the week whose Thursday is 2025-01-02. */
  lemma ThursdayAtYearEnd()
    ensures ShiftToThursday(Date(2024, 12, 30)) == Date(2025, 1, 2)
  {
    var d, thursday := Date(2024, 12, 30), Date(2025, 1, 2);
    assert DayNumber(thursday) == DayNumber(d) + 3;
    assert IsoWeekday(d) == 1;
    DayNumberInjective(ShiftToThursday(d), thursday);
  }

  lemma YearSuffix2024()
    ensures LastTwo(IntToString(2024)) == "24"
  {
    assert NatToString(20) == NatToString(2) + "0";
    assert NatToString(202) == NatToString(20) + "2";
    assert NatToString(2024) == NatToString(202) + "4";
  }

  /** The helper numbers the week starting Monday 2024-12-30 as week 1. */
  lemma WeekNumberAtYearEnd()
    ensures WeekNumber(Date(2024, 12, 30)) == 1
  {
    ThursdayAtYearEnd();
    assert DayNumber(Date(2025, 1, 2)) - DayNumber(Date(2025, 1, 1)) == 1;
  }

  lemma WeekTextAtYearEnd()
    ensures WeekText(1, 2024) == "W1-24"
  {
    YearSuffix2024();
    assert IntToString(1) == "1";
  }

  /**
    The label of the week starting Monday 2024-12-30 is "W1-24": the week number is that of
    ISO week 1 of 2025, while the year is the start date's own.
   */
  lemma WeekLabelAtYearEnd()
    ensures WeekLabel(Date(2024, 12, 30)) == "W1-24"
  {
    WeekNumberAtYearEnd();
    WeekTextAtYearEnd();
  }
}
