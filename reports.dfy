/**
  The three reports read from the store: today's summary, the current month one point per
  day, and the historical series of `count` week or month buckets, oldest first. Each report
  is a specification function over the records and today's date, and a method that computes
  it the way the handlers do (filter, accumulate, `push` or `unshift`).
 */
module Reports {
  import opened Calendar
  import opened Text
  import opened Visits
  import opened Aggregator
  import opened Bucketer

  // ---------------------------------------------------------------------------
  // Date strings

  /**
    The handlers select a day by comparing the stored `date` string with the formatted day:
    for valid dates that comparison is equality of dates.
   */
  lemma SameDayIsSameText(v: Visit, d: Date)
    requires ValidDate(v.date) && ValidDate(d)
    ensures Selects(OnDay(d), v) <==> FormatDate(v.date) == FormatDate(d)
  {
    if FormatDate(v.date) == FormatDate(d) {
      FormatDateInjective(v.date, d);
    }
  }

  // ---------------------------------------------------------------------------
  // Today's summary

  /** `getTodaySummary` / `GET /summary/today`. */
  method TodaySummary(vs: seq<Visit>, today: Date) returns (summary: DailySummary)
    ensures summary == SummaryOf(Filter(vs, OnDay(today)))
    ensures summary.totalVisitors == Sum(Filter(vs, OnDay(today)), Headcount)
    ensures summary.totalVisitors == summary.ageBreakdown.children + summary.ageBreakdown.adults
                                     + summary.ageBreakdown.seniors + summary.ageBreakdown.students
    ensures summary.individualVisits + summary.groupVisits == |Filter(vs, OnDay(today))|
    ensures (forall i :: 0 <= i < |vs| ==> vs[i].date != today) ==> summary == ZeroSummary
  {
    var todayVisits := Filter(vs, OnDay(today));
    if forall i :: 0 <= i < |vs| ==> vs[i].date != today {
      NothingSelected(vs, OnDay(today));
    }
    summary := Summarize(todayVisits);
  }

  lemma {:induction false} NothingSelected(vs: seq<Visit>, s: Selector)
    requires forall i :: 0 <= i < |vs| ==> !Selects(s, vs[i])
    ensures Filter(vs, s) == []
  {
    if |vs| > 0 {
      NothingSelected(vs[..|vs| - 1], s);
    }
  }

  // ---------------------------------------------------------------------------
  // Current month, one point per day

  /** The point of one day of the current month: label "DD", the sums of that day's records. */
  function DayPoint(vs: seq<Visit>, today: Date, day: int): ChartDataPoint {
    PointOf(DayLabel(day), Filter(vs, OnDay(Date(today.year, today.month, day))))
  }

  /** The points of days 1 to n, in the order the loop pushes them. */
  function DaysSeries(vs: seq<Visit>, today: Date, n: nat): (r: seq<ChartDataPoint>)
    ensures |r| == n
    decreases n
  {
    if n == 0 then [] else DaysSeries(vs, today, n - 1) + [DayPoint(vs, today, n)]
  }

  /** `getCurrentMonthData` / `GET /chart/month`: points for days 1 to the month's length. */
  function MonthSeries(vs: seq<Visit>, today: Date): (r: seq<ChartDataPoint>)
    requires ValidDate(today)
    ensures |r| == DaysInMonth(today.year, today.month)
    ensures 28 <= |r| <= 31
  {
    DaysSeries(vs, today, DaysInMonth(today.year, today.month))
  }

  /** Position k holds the point of day k + 1. */
  lemma {:induction false} DaysSeriesAt(vs: seq<Visit>, today: Date, n: nat, k: nat)
    requires k < n
    ensures DaysSeries(vs, today, n)[k] == DayPoint(vs, today, k + 1)
    decreases n
  {
    var prefix := DaysSeries(vs, today, n - 1);
    assert DaysSeries(vs, today, n) == prefix + [DayPoint(vs, today, n)];
    if k < n - 1 {
      DaysSeriesAt(vs, today, n - 1, k);
      assert DaysSeries(vs, today, n)[k] == prefix[k];
    }
  }

  /**
    One point per day of the month (29 in a leap February, 28 in any other), labelled with
    the two-digit day numbers "01", "02", ... in ascending order.
   */
  lemma MonthSeriesShape(vs: seq<Visit>, today: Date)
    requires ValidDate(today)
    ensures var series := MonthSeries(vs, today);
            && |series| == DaysInMonth(today.year, today.month)
            && (today.month == 2 ==> (|series| == 29 <==> IsLeap(today.year)))
            && forall i :: 0 <= i < |series| ==>
                 && |series[i].name| == 2 && AllDigits(series[i].name)
                 && ParseNat(series[i].name) == i + 1
  {
    var series := MonthSeries(vs, today);
    forall i | 0 <= i < |series|
      ensures |series[i].name| == 2 && AllDigits(series[i].name) && ParseNat(series[i].name) == i + 1
    {
      DaysSeriesAt(vs, today, |series|, i);
      PadTwoRoundTrip(i + 1);
    }
  }

  /** The total of one age group over a run of chart points. */
  function SeriesTotal(points: seq<ChartDataPoint>, g: AgeGroup): int {
    if |points| == 0 then 0 else SeriesTotal(points[..|points| - 1], g) + points[|points| - 1].Count(g)
  }

  /** A conditional sum: the measure of the selected records. */
  function SumWhere(vs: seq<Visit>, s: Selector, m: Measure): int {
    if |vs| == 0 then 0
    else SumWhere(vs[..|vs| - 1], s, m) + (if Selects(s, vs[|vs| - 1]) then MeasureOf(m, vs[|vs| - 1]) else 0)
  }

  /** Filtering then summing is summing the selected records. */
  lemma {:induction false} FilterThenSum(vs: seq<Visit>, s: Selector, m: Measure)
    ensures Sum(Filter(vs, s), m) == SumWhere(vs, s, m)
  {
    if |vs| > 0 {
      var init, last := vs[..|vs| - 1], vs[|vs| - 1];
      FilterThenSum(init, s, m);
      SumAppend(Filter(init, s), if Selects(s, last) then [last] else [], m);
      if Selects(s, last) {
        assert Sum([last], m) == Sum([], m) + MeasureOf(m, last);
      }
    }
  }

  /** The day sums of days 1 to n of month (y, m). */
  function DaysTotal(vs: seq<Visit>, y: int, m: int, n: nat, g: AgeGroup): int
    decreases n
  {
    if n == 0 then 0 else DaysTotal(vs, y, m, n - 1, g) + SumWhere(vs, OnDay(Date(y, m, n)), Age(g))
  }

  /** Summed over the first n day points, an age group totals its day sums. */
  lemma {:induction false} DaysSeriesTotal(vs: seq<Visit>, today: Date, n: nat, g: AgeGroup)
    ensures SeriesTotal(DaysSeries(vs, today, n), g) == DaysTotal(vs, today.year, today.month, n, g)
    decreases n
  {
    if n > 0 {
      var series := DaysSeries(vs, today, n);
      assert series[..n - 1] == DaysSeries(vs, today, n - 1);
      DaysSeriesTotal(vs, today, n - 1, g);
      FilterThenSum(vs, OnDay(Date(today.year, today.month, n)), Age(g));
    }
  }

  /** Adding one record to the store adds its count to the day it is dated, if any. */
  lemma {:induction false} DaysTotalSnoc(vs: seq<Visit>, x: Visit, y: int, m: int, n: nat, g: AgeGroup)
    ensures DaysTotal(vs + [x], y, m, n, g)
         == DaysTotal(vs, y, m, n, g)
            + (if x.date.year == y && x.date.month == m && 1 <= x.date.day <= n then x.Count(g) else 0)
    decreases n
  {
    if n > 0 {
      DaysTotalSnoc(vs, x, y, m, n - 1, g);
      assert (vs + [x])[..|vs + [x]| - 1] == vs;
    }
  }

  lemma {:induction false} DaysTotalOfNothing(y: int, m: int, n: nat, g: AgeGroup)
    ensures DaysTotal([], y, m, n, g) == 0
    decreases n
  {
    if n > 0 {
      DaysTotalOfNothing(y, m, n - 1, g);
    }
  }

  lemma {:induction false} DaysTotalIsMonthTotal(vs: seq<Visit>, y: int, m: int, g: AgeGroup)
    requires 1 <= m <= 12
    requires forall i :: 0 <= i < |vs| ==> ValidDate(vs[i].date)
    ensures DaysTotal(vs, y, m, DaysInMonth(y, m), g) == SumWhere(vs, InMonth(y, m), Age(g))
  {
    if |vs| > 0 {
      var init, last := vs[..|vs| - 1], vs[|vs| - 1];
      var days := DaysInMonth(y, m);
      assert forall i :: 0 <= i < |init| ==> init[i] == vs[i];
      DaysTotalIsMonthTotal(init, y, m, g);
      DaysTotalSnoc(init, last, y, m, days, g);
      assert init + [last] == vs;
      assert ValidDate(last.date);
      var inDays := last.date.year == y && last.date.month == m && 1 <= last.date.day <= days;
      assert inDays <==> Selects(InMonth(y, m), last);
      assert MeasureOf(Age(g), last) == last.Count(g);
      assert DaysTotal(vs, y, m, days, g) == DaysTotal(init, y, m, days, g) + (if inDays then last.Count(g) else 0);
      assert SumWhere(vs, InMonth(y, m), Age(g))
          == SumWhere(init, InMonth(y, m), Age(g)) + (if inDays then last.Count(g) else 0);
    } else {
      DaysTotalOfNothing(y, m, DaysInMonth(y, m), g);
    }
  }

  /**
    The day points partition the month: summed over all points, each age group's total is
    its total over the records dated in the current month.
   */
  lemma MonthSeriesPartition(vs: seq<Visit>, today: Date, g: AgeGroup)
    requires ValidDate(today)
    requires forall i :: 0 <= i < |vs| ==> ValidDate(vs[i].date)
    ensures SeriesTotal(MonthSeries(vs, today), g) == Sum(Filter(vs, InMonth(today.year, today.month)), Age(g))
  {
    DaysSeriesTotal(vs, today, DaysInMonth(today.year, today.month), g);
    DaysTotalIsMonthTotal(vs, today.year, today.month, g);
    FilterThenSum(vs, InMonth(today.year, today.month), Age(g));
  }

  /** `getCurrentMonthData` / `GET /chart/month`: `for (day = 1; day <= daysInMonth; day++)`. */
  method CurrentMonthData(vs: seq<Visit>, today: Date) returns (data: seq<ChartDataPoint>)
    requires ValidDate(today)
    ensures data == MonthSeries(vs, today)
  {
    var year, month := today.year, today.month;
    var daysInMonth := DaysInMonth(year, month);
    data := [];
    var day := 1;
    while day <= daysInMonth
      invariant 1 <= day <= daysInMonth + 1
      invariant data == DaysSeries(vs, today, day - 1)
    {
      var dailyVisits := Filter(vs, OnDay(Date(year, month, day)));
      var point := Accumulate(DayLabel(day), dailyVisits);
      data := data + [point];
      day := day + 1;
    }
  }

  // ---------------------------------------------------------------------------
  // Historical series

  /** The point of a bucket: its label and the sums of the records dated inside it. */
  function BucketPoint(vs: seq<Visit>, b: Bucket): ChartDataPoint {
    PointOf(b.name, Filter(vs, Within(b.first, b.last)))
  }

  /** The points of a run of buckets, in the same order. */
  function Points(vs: seq<Visit>, buckets: seq<Bucket>): (r: seq<ChartDataPoint>)
    ensures |r| == |buckets|
    decreases |buckets|
  {
    if |buckets| == 0 then [] else [BucketPoint(vs, buckets[0])] + Points(vs, buckets[1..])
  }

  /** The point of the bucket at position n - 1 - k sits at that position. */
  lemma {:induction false} PointsAt(vs: seq<Visit>, buckets: seq<Bucket>, n: int, k: int)
    requires |buckets| == n && 0 <= k < n
    ensures Points(vs, buckets)[n - 1 - k] == BucketPoint(vs, buckets[n - 1 - k])
    decreases n
  {
    var head, rest := BucketPoint(vs, buckets[0]), Points(vs, buckets[1..]);
    assert Points(vs, buckets) == [head] + rest;
    if k < n - 1 {
      PointsAt(vs, buckets[1..], n - 1, k);
      assert rest[n - 1 - 1 - k] == BucketPoint(vs, buckets[n - 1 - k]);
    }
  }

  lemma PointsCons(vs: seq<Visit>, b: Bucket, rest: seq<Bucket>)
    ensures Points(vs, [b] + rest) == [BucketPoint(vs, b)] + Points(vs, rest)
  {
    assert ([b] + rest)[1..] == rest;
  }

  /** [f(n - 1), ..., f(1), f(0)]: what putting f(i) in front for i = 0, 1, ..., n - 1 builds. */
  function Prepended<T>(f: int -> T, n: int): (r: seq<T>)
    ensures |r| == if n <= 0 then 0 else n
    decreases n
  {
    if n <= 0 then [] else [f(n - 1)] + Prepended(f, n - 1)
  }

  lemma PrependedStep<T>(f: int -> T, n: int)
    requires 0 <= n
    ensures Prepended(f, n + 1) == [f(n)] + Prepended(f, n)
  {
    assert n + 1 - 1 == n;
  }

  /** f(k) sits at position n - 1 - k. */
  lemma {:induction false} PrependedAt<T>(f: int -> T, n: int, k: int)
    requires 0 <= k < n
    ensures Prepended(f, n)[n - 1 - k] == f(k)
    decreases n
  {
    var rest := Prepended(f, n - 1);
    assert Prepended(f, n) == [f(n - 1)] + rest;
    if k < n - 1 {
      PrependedAt(f, n - 1, k);
      assert n - 1 - k - 1 == n - 1 - 1 - k;
      assert Prepended(f, n)[n - 1 - k] == rest[n - 1 - 1 - k];
    } else {
      assert n - 1 - k == 0;
    }
  }

  function BucketOf(today: Date, period: Period): int -> Bucket
    requires ValidDate(today)
  {
    i => HistoricalBucket(today, period, i)
  }

  /**
    The buckets of the first n iterations in the order the loop leaves their points: each
    iteration puts its bucket in front, so the oldest bucket, n - 1, comes first.
   */
  function Buckets(today: Date, period: Period, n: int): (r: seq<Bucket>)
    requires ValidDate(today)
    ensures |r| == if n <= 0 then 0 else n
  {
    Prepended(BucketOf(today, period), n)
  }

  /** One more iteration puts bucket n in front. */
  lemma {:induction false} BucketsStep(today: Date, period: Period, n: int)
    requires ValidDate(today) && 0 <= n
    ensures Buckets(today, period, n + 1) == [HistoricalBucket(today, period, n)] + Buckets(today, period, n)
  {
    PrependedStep(BucketOf(today, period), n);
  }

  /** Bucket k sits at position n - 1 - k. */
  lemma {:induction false} BucketsAt(today: Date, period: Period, n: int, k: int)
    requires ValidDate(today) && 0 <= k < n
    ensures Buckets(today, period, n)[n - 1 - k] == HistoricalBucket(today, period, k)
  {
    PrependedAt(BucketOf(today, period), n, k);
  }

  /**
    `getHistoricalData(period, count)`: the points of buckets count - 1 down to 0, the
    oldest first; empty when count <= 0.
   */
  function HistoricalSeries(vs: seq<Visit>, today: Date, period: Period, count: int): (r: seq<ChartDataPoint>)
    requires ValidDate(today)
    ensures |r| == if count <= 0 then 0 else count
  {
    Points(vs, Buckets(today, period, count))
  }

  /**
    The series has one point per iteration (none when count <= 0), and position count - 1 - k
    holds bucket k under that bucket's name: the points run from the oldest bucket
    to the newest, the last one being the bucket that ends today.
   */
  lemma {:induction false} HistoricalSeriesAt(vs: seq<Visit>, today: Date, period: Period, count: int, k: int)
    requires ValidDate(today) && 0 <= k < count
    ensures |HistoricalSeries(vs, today, period, count)| == count
    ensures HistoricalSeries(vs, today, period, count)[count - 1 - k]
         == BucketPoint(vs, HistoricalBucket(today, period, k))
    ensures HistoricalSeries(vs, today, period, count)[count - 1 - k].name
         == HistoricalBucket(today, period, k).name
  {
    BucketsAt(today, period, count, k);
    PointsAt(vs, Buckets(today, period, count), count, k);
  }

  lemma {:induction false} FilterCongruence(vs: seq<Visit>, s1: Selector, s2: Selector)
    requires forall i :: 0 <= i < |vs| ==> (Selects(s1, vs[i]) <==> Selects(s2, vs[i]))
    ensures Filter(vs, s1) == Filter(vs, s2)
  {
    if |vs| > 0 {
      FilterCongruence(vs[..|vs| - 1], s1, s2);
    }
  }

  /** Over valid dates, the window from the first to the last day of a month is that month. */
  lemma MonthWindowFilter(vs: seq<Visit>, y: int, m: int)
    requires 1 <= m <= 12
    requires forall k :: 0 <= k < |vs| ==> ValidDate(vs[k].date)
    ensures Filter(vs, Within(Date(y, m, 1), Date(y, m, DaysInMonth(y, m)))) == Filter(vs, InMonth(y, m))
  {
    forall k | 0 <= k < |vs|
      ensures Selects(Within(Date(y, m, 1), Date(y, m, DaysInMonth(y, m))), vs[k]) <==> Selects(InMonth(y, m), vs[k])
    {
      MonthWindow(vs[k].date, y, m);
    }
    FilterCongruence(vs, Within(Date(y, m, 1), Date(y, m, DaysInMonth(y, m))), InMonth(y, m));
  }

  /**
    In month mode, bucket i sums exactly the records dated in the calendar month i months
    before the current one, whatever the year.
   */
  lemma MonthBucketIsCalendarMonth(vs: seq<Visit>, today: Date, i: int)
    requires ValidDate(today)
    requires forall k :: 0 <= k < |vs| ==> ValidDate(vs[k].date)
    ensures var b := MonthBucket(today, i);
            && 12 * b.first.year + b.first.month == 12 * today.year + today.month - i
            && Filter(vs, Within(b.first, b.last)) == Filter(vs, InMonth(b.first.year, b.first.month))
  {
    var b := MonthBucket(today, i);
    assert b.first == Date(b.first.year, b.first.month, 1);
    MonthWindowFilter(vs, b.first.year, b.first.month);
  }

  /**
    The current-month chart and the newest month bucket agree: the day points add up to the
    point of historical month bucket 0.
   */
  lemma CurrentMonthMatchesNewestBucket(vs: seq<Visit>, today: Date, g: AgeGroup)
    requires ValidDate(today)
    requires forall k :: 0 <= k < |vs| ==> ValidDate(vs[k].date)
    ensures SeriesTotal(MonthSeries(vs, today), g) == BucketPoint(vs, MonthBucket(today, 0)).Count(g)
  {
    var b := MonthBucket(today, 0);
    assert b.first.year == today.year && b.first.month == today.month;
    MonthSeriesPartition(vs, today, g);
    MonthBucketIsCalendarMonth(vs, today, 0);
  }

  /**
    `getHistoricalData(period, count)` and the worker's `GET /chart/historical` loop:
    `for (i = 0; i < count; i++)` building bucket i's point and `unshift`ing it.
   */
  method HistoricalData(vs: seq<Visit>, today: Date, period: Period, count: int)
    returns (data: seq<ChartDataPoint>)
    requires ValidDate(today)
    ensures data == HistoricalSeries(vs, today, period, count)
  {
    data := [];
    var i := 0;
    while i < count
      invariant 0 <= i <= if count > 0 then count else 0
      invariant data == HistoricalSeries(vs, today, period, i)
    {
      var bucket := HistoricalBucket(today, period, i);
      var periodVisits := Filter(vs, Within(bucket.first, bucket.last));
      var point := Accumulate(bucket.name, periodVisits);
      assert point == BucketPoint(vs, bucket);
      BucketsStep(today, period, i);
      PointsCons(vs, bucket, Buckets(today, period, i));
      assert [point] + data == Points(vs, Buckets(today, period, i + 1));
      data := [point] + data;
      i := i + 1;
    }
  }
}
