/**
  The aggregator: `visits.filter(...)` by a date condition, then a `forEach` that adds each
  record's counts into a `DailySummary` or a `ChartDataPoint`. The folds are plain integer
  sums, so they do not depend on the order of the records.
 */
module Aggregator {
  import opened Calendar
  import opened Visits

  // ---------------------------------------------------------------------------
  // Filtering by date

  /** The date conditions the reports filter on. */
  datatype Selector =
    | OnDay(day: Date)                 // `v.date === dateStr`
    | Within(first: Date, last: Date)  // `visitDate >= startDate && visitDate <= endDate`
    | InMonth(year: int, month: int)   // dated in that calendar month

  predicate Selects(s: Selector, v: Visit) {
    match s
    case OnDay(d) => v.date == d
    case Within(first, last) => InWindow(v.date, first, last)
    case InMonth(y, m) => v.date.year == y && v.date.month == m
  }

  /** `visits.filter(...)`: the selected records, in store order. */
  function Filter(vs: seq<Visit>, s: Selector): (r: seq<Visit>)
    ensures |r| <= |vs|
    ensures forall k :: 0 <= k < |r| ==> Selects(s, r[k]) && r[k] in vs
  {
    if |vs| == 0 then []
    else
      var last := vs[|vs| - 1];
      Filter(vs[..|vs| - 1], s) + (if Selects(s, last) then [last] else [])
  }

  /** The filtered records are exactly the selected ones. */
  lemma {:induction false} FilterMembers(vs: seq<Visit>, s: Selector, v: Visit)
    ensures v in Filter(vs, s) <==> v in vs && Selects(s, v)
  {
    if |vs| > 0 {
      var last := vs[|vs| - 1];
      assert vs == vs[..|vs| - 1] + [last];
      FilterMembers(vs[..|vs| - 1], s, v);
    }
  }

  lemma {:induction false} FilterAppend(a: seq<Visit>, b: seq<Visit>, s: Selector)
    ensures Filter(a + b, s) == Filter(a, s) + Filter(b, s)
    decreases |b|
  {
    if |b| == 0 {
      assert a + b == a;
    } else {
      assert (a + b)[..|a + b| - 1] == a + b[..|b| - 1];
      FilterAppend(a, b[..|b| - 1], s);
    }
  }

  /** Taking the same record out of two equal multisets leaves equal multisets. */
  lemma RemoveMatching(a': seq<Visit>, b1: seq<Visit>, b2: seq<Visit>, x: Visit)
    requires multiset(a' + [x]) == multiset(b1 + [x] + b2)
    ensures multiset(a') == multiset(b1 + b2)
  {
    assert multiset(a' + [x]) == multiset(a') + multiset{x};
    assert multiset(b1 + [x] + b2) == multiset(b1 + b2) + multiset{x};
    var p, q := multiset(a'), multiset(b1 + b2);
    forall y ensures p[y] == q[y] {
      assert (p + multiset{x})[y] == (q + multiset{x})[y];
    }
  }

  /**
    Two orderings of the same records: the last record of the first sits somewhere in the
    second, and what is left on both sides is again the same records.
   */
  lemma MatchLast(a: seq<Visit>, b: seq<Visit>) returns (b1: seq<Visit>, b2: seq<Visit>)
    requires multiset(a) == multiset(b) && |a| > 0
    ensures b == b1 + [a[|a| - 1]] + b2
    ensures multiset(a[..|a| - 1]) == multiset(b1 + b2)
  {
    var x := a[|a| - 1];
    assert a == a[..|a| - 1] + [x];
    assert x in multiset(b);
    var k :| 0 <= k < |b| && b[k] == x;
    b1, b2 := b[..k], b[k + 1..];
    assert b == b1 + [x] + b2;
    RemoveMatching(a[..|a| - 1], b1, b2, x);
  }

  lemma FilterMiddle(b1: seq<Visit>, x: Visit, b2: seq<Visit>, s: Selector)
    ensures multiset(Filter(b1 + [x] + b2, s)) == multiset(Filter(b1 + b2, s)) + multiset(Filter([x], s))
  {
    FilterAppend(b1 + [x], b2, s);
    FilterAppend(b1, [x], s);
    FilterAppend(b1, b2, s);
  }

  lemma FilterLast(a: seq<Visit>, s: Selector)
    requires |a| > 0
    ensures multiset(Filter(a, s)) == multiset(Filter(a[..|a| - 1], s)) + multiset(Filter([a[|a| - 1]], s))
  {
    assert a == a[..|a| - 1] + [a[|a| - 1]];
    FilterAppend(a[..|a| - 1], [a[|a| - 1]], s);
  }

  /** Reordering the records reorders the filtered records the same way. */
  lemma {:induction false} FilterPermutation(a: seq<Visit>, b: seq<Visit>, s: Selector)
    requires multiset(a) == multiset(b)
    ensures multiset(Filter(a, s)) == multiset(Filter(b, s))
    decreases |a|
  {
    if |a| > 0 {
      var x, a' := a[|a| - 1], a[..|a| - 1];
      var b1, b2 := MatchLast(a, b);
      FilterPermutation(a', b1 + b2, s);
      FilterLast(a, s);
      FilterMiddle(b1, x, b2, s);
    } else {
      assert b == [];
    }
  }

  // ---------------------------------------------------------------------------
  // Summing

  /** What one record adds to a running total. */
  datatype Measure =
    | Age(group: AgeGroup)          // one of the four age-group counts
    | Headcount                     // children + adults + seniors + students
    | OfType(visitType: VisitType)  // 1 for a visit of that type, else 0

  function MeasureOf(m: Measure, v: Visit): int {
    match m
    case Age(g) => v.Count(g)
    case Headcount => v.Headcount()
    case OfType(t) => if v.visitType == t then 1 else 0
  }

  function Sum(vs: seq<Visit>, m: Measure): int {
    if |vs| == 0 then 0 else Sum(vs[..|vs| - 1], m) + MeasureOf(m, vs[|vs| - 1])
  }

  lemma {:induction false} SumAppend(a: seq<Visit>, b: seq<Visit>, m: Measure)
    ensures Sum(a + b, m) == Sum(a, m) + Sum(b, m)
    decreases |b|
  {
    if |b| == 0 {
      assert a + b == a;
    } else {
      assert (a + b)[..|a + b| - 1] == a + b[..|b| - 1];
      SumAppend(a, b[..|b| - 1], m);
    }
  }

  lemma SumMiddle(b1: seq<Visit>, x: Visit, b2: seq<Visit>, m: Measure)
    ensures Sum(b1 + [x] + b2, m) == Sum(b1 + b2, m) + MeasureOf(m, x)
  {
    SumAppend(b1 + [x], b2, m);
    SumAppend(b1, [x], m);
    SumAppend(b1, b2, m);
    assert Sum([x], m) == Sum([], m) + MeasureOf(m, x);
  }

  /** Folding in any order gives the same total. */
  lemma {:induction false} SumPermutation(a: seq<Visit>, b: seq<Visit>, m: Measure)
    requires multiset(a) == multiset(b)
    ensures Sum(a, m) == Sum(b, m)
    decreases |a|
  {
    if |a| > 0 {
      var x, a' := a[|a| - 1], a[..|a| - 1];
      var b1, b2 := MatchLast(a, b);
      SumPermutation(a', b1 + b2, m);
      SumMiddle(b1, x, b2, m);
    } else {
      assert b == [];
    }
  }

  /** The per-record total summed over records is the sum of the four age-group sums. */
  lemma {:induction false} HeadcountIsAgeSum(vs: seq<Visit>)
    ensures Sum(vs, Headcount)
         == Sum(vs, Age(Children)) + Sum(vs, Age(Adults)) + Sum(vs, Age(Seniors)) + Sum(vs, Age(Students))
  {
    if |vs| > 0 {
      HeadcountIsAgeSum(vs[..|vs| - 1]);
    }
  }

  /** Every record is either an individual or a group visit. */
  lemma {:induction false} TypeCountsAddUp(vs: seq<Visit>)
    ensures Sum(vs, OfType(Individual)) + Sum(vs, OfType(Group)) == |vs|
  {
    if |vs| > 0 {
      TypeCountsAddUp(vs[..|vs| - 1]);
    }
  }

  // ---------------------------------------------------------------------------
  // Summary and chart point

  datatype AgeCounts = AgeCounts(children: int, adults: int, seniors: int, students: int)

  datatype DailySummary = DailySummary(
    totalVisitors: int,
    individualVisits: int,
    groupVisits: int,
    ageBreakdown: AgeCounts)

  /** One bar of a chart: a label and the four age-group totals. */
  datatype ChartDataPoint = ChartDataPoint(
    name: string,
    children: int,
    adults: int,
    seniors: int,
    students: int)
  {
    function Count(g: AgeGroup): int {
      match g
      case Children => children
      case Adults => adults
      case Seniors => seniors
      case Students => students
    }
  }

  /**
    The summary the `forEach` in the today-summary leaves behind, as sums. Its total equals
    the sum of its age breakdown, its two visit counters add up to the number of records,
    and no records give the all-zero summary.
   */
  function SummaryOf(vs: seq<Visit>): (s: DailySummary)
    ensures s.totalVisitors == s.ageBreakdown.children + s.ageBreakdown.adults
                               + s.ageBreakdown.seniors + s.ageBreakdown.students
    ensures s.individualVisits + s.groupVisits == |vs|
    ensures |vs| == 0 ==> s == ZeroSummary
  {
    HeadcountIsAgeSum(vs);
    TypeCountsAddUp(vs);
    DailySummary(
      Sum(vs, Headcount),
      Sum(vs, OfType(Individual)),
      Sum(vs, OfType(Group)),
      AgeCounts(Sum(vs, Age(Children)), Sum(vs, Age(Adults)), Sum(vs, Age(Seniors)), Sum(vs, Age(Students))))
  }

  /**
    The point the `forEach` in the chart handlers leaves behind: the label, and per age
    group the sum over the records. Its four counts add up to the records' headcount, and
    no records give an all-zero bar.
   */
  function PointOf(name: string, vs: seq<Visit>): (p: ChartDataPoint)
    ensures p.name == name
    ensures forall g :: p.Count(g) == Sum(vs, Age(g))
    ensures p.children + p.adults + p.seniors + p.students == Sum(vs, Headcount)
    ensures |vs| == 0 ==> p == ChartDataPoint(name, 0, 0, 0, 0)
  {
    HeadcountIsAgeSum(vs);
    ChartDataPoint(name, Sum(vs, Age(Children)), Sum(vs, Age(Adults)), Sum(vs, Age(Seniors)), Sum(vs, Age(Students)))
  }

  const ZeroSummary := DailySummary(0, 0, 0, AgeCounts(0, 0, 0, 0))

  /** Shuffling the records never changes the summary. */
  lemma SummaryOrderIndependent(a: seq<Visit>, b: seq<Visit>)
    requires multiset(a) == multiset(b)
    ensures SummaryOf(a) == SummaryOf(b)
  {
    SumPermutation(a, b, Headcount);
    SumPermutation(a, b, OfType(Individual));
    SumPermutation(a, b, OfType(Group));
    forall g { SumPermutation(a, b, Age(g)); }
  }

  /** Shuffling the records never changes a chart point. */
  lemma PointOrderIndependent(name: string, a: seq<Visit>, b: seq<Visit>)
    requires multiset(a) == multiset(b)
    ensures PointOf(name, a) == PointOf(name, b)
  {
    forall g { SumPermutation(a, b, Age(g)); }
  }

  /** A selected-then-summarised report does not depend on the order of the store. */
  lemma FilteredSummaryOrderIndependent(a: seq<Visit>, b: seq<Visit>, s: Selector)
    requires multiset(a) == multiset(b)
    ensures SummaryOf(Filter(a, s)) == SummaryOf(Filter(b, s))
  {
    FilterPermutation(a, b, s);
    SummaryOrderIndependent(Filter(a, s), Filter(b, s));
  }

  /**
    The `forEach` of the today-summary: starting from zero, add each record's total to
    `total_visitors`, bump the counter of its visit type, and add its four counts to the
    age breakdown.
   */
  method Summarize(vs: seq<Visit>) returns (summary: DailySummary)
    ensures summary == SummaryOf(vs)
    ensures summary.totalVisitors == summary.ageBreakdown.children + summary.ageBreakdown.adults
                                     + summary.ageBreakdown.seniors + summary.ageBreakdown.students
    ensures summary.individualVisits + summary.groupVisits == |vs|
    ensures |vs| == 0 ==> summary == ZeroSummary
  {
    summary := ZeroSummary;
    var i := 0;
    while i < |vs|
      invariant 0 <= i <= |vs|
      invariant summary == SummaryOf(vs[..i])
    {
      var visit := vs[i];
      assert vs[..i + 1][..i] == vs[..i];
      var visitTotal := visit.children + visit.adults + visit.seniors + visit.students;
      var b := summary.ageBreakdown;
      summary := summary.(
        totalVisitors := summary.totalVisitors + visitTotal,
        individualVisits := if visit.visitType == Individual then summary.individualVisits + 1 else summary.individualVisits,
        groupVisits := if visit.visitType == Group then summary.groupVisits + 1 else summary.groupVisits,
        ageBreakdown := AgeCounts(b.children + visit.children, b.adults + visit.adults,
                                  b.seniors + visit.seniors, b.students + visit.students));
      i := i + 1;
    }
    assert vs[..i] == vs;
  }

  /**
    The `forEach` of the chart handlers: a point labelled `name`, starting at zero, with
    each record's four counts added in.
   */
  method Accumulate(name: string, vs: seq<Visit>) returns (point: ChartDataPoint)
    ensures point == PointOf(name, vs)
    ensures point.name == name
    ensures forall g :: point.Count(g) == Sum(vs, Age(g))
  {
    point := ChartDataPoint(name, 0, 0, 0, 0);
    var i := 0;
    while i < |vs|
      invariant 0 <= i <= |vs|
      invariant point == PointOf(name, vs[..i])
    {
      var v := vs[i];
      assert vs[..i + 1][..i] == vs[..i];
      point := point.(
        children := point.children + v.children,
        adults := point.adults + v.adults,
        seniors := point.seniors + v.seniors,
        students := point.students + v.students);
      i := i + 1;
    }
    assert vs[..i] == vs;
  }
}
