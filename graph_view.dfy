/** The month graph: the month's entries in date order, mapped linearly onto
    an SVG plot (exact rationals stand for the browser's floating point). */
module GraphView {
  import opened Wrappers
  import opened DateUtils
  import opened Diary
  import Decimal

  const Padding: real := 20.0
  const Height: real := 200.0
  const Width: real := 300.0

  // ----- monthlyData: filter, then sort by date -----

  /** `data.filter(d => isSameMonth(d.date, year, month))`: a fresh sequence
      holding, in their order, exactly the entries of that month. */
  function FilterMonth(data: seq<DiaryEntry>, year: int, month: int): (r: seq<DiaryEntry>)
    ensures forall i :: 0 <= i < |r| ==> IsSameMonth(r[i].date, year, month)
    ensures forall e :: multiset(r)[e] == if IsSameMonth(e.date, year, month) then multiset(data)[e] else 0
  {
    if data == [] then []
    else
      var rest := FilterMonth(data[1..], year, month);
      assert data == [data[0]] + data[1..];
      if IsSameMonth(data[0].date, year, month) then [data[0]] + rest else rest
  }

  /** `new Date(d.date).getTime()` in days; an unreadable date never reaches
      the sort, since the filter keeps only readable ones. */
  function TimeOf(e: DiaryEntry): int {
    match ParseDate(e.date)
    case Some(d) => DayNumber(d)
    case None => 0
  }

  /** `new Date(d.date).getDate()`. */
  function DayOf(e: DiaryEntry): int {
    match ParseDate(e.date)
    case Some(d) => d.day
    case None => 0
  }

  predicate SortedBy<T>(s: seq<T>, key: T -> int) {
    forall i, j :: 0 <= i < j < |s| ==> key(s[i]) <= key(s[j])
  }

  /** Places `e` before the first element whose key is not smaller. */
  function Insert<T>(e: T, s: seq<T>, key: T -> int): seq<T> {
    if s == [] || key(e) <= key(s[0]) then [e] + s
    else [s[0]] + Insert(e, s[1..], key)
  }

  /** An insertion sort: stable, since an element goes before the first one
      that is not smaller and the elements are inserted last to first. */
  function SortBy<T>(s: seq<T>, key: T -> int): seq<T> {
    if s == [] then [] else Insert(s[0], SortBy(s[1..], key), key)
  }

  lemma {:induction false} InsertPermutes<T>(e: T, s: seq<T>, key: T -> int)
    ensures multiset(Insert(e, s, key)) == multiset(s) + multiset{e}
  {
    if s != [] && key(e) > key(s[0]) {
      InsertPermutes(e, s[1..], key);
      assert s == [s[0]] + s[1..];
    }
  }

  lemma SortedCons<T>(x: T, s: seq<T>, key: T -> int)
    requires SortedBy(s, key) && (s == [] || key(x) <= key(s[0]))
    ensures SortedBy([x] + s, key)
  {
    var r := [x] + s;
    forall i, j | 0 <= i < j < |r| ensures key(r[i]) <= key(r[j]) {
      if i == 0 {
        assert key(s[0]) <= key(s[j - 1]);
      }
    }
  }

  /** Inserting into a sorted sequence keeps it sorted; the new head is the
      inserted element or the old head. */
  lemma {:induction false} InsertKeepsSorted<T>(e: T, s: seq<T>, key: T -> int)
    requires SortedBy(s, key)
    ensures SortedBy(Insert(e, s, key), key)
    ensures Insert(e, s, key)[0] == e || (s != [] && Insert(e, s, key)[0] == s[0])
  {
    if s == [] || key(e) <= key(s[0]) {
      SortedCons(e, s, key);
    } else {
      var rest := Insert(e, s[1..], key);
      assert SortedBy(s[1..], key);
      InsertKeepsSorted(e, s[1..], key);
      assert key(s[0]) <= key(rest[0]);
      SortedCons(s[0], rest, key);
    }
  }

  /** The sort returns a permutation of its input in ascending key order. */
  lemma {:induction false} SortBySpec<T>(s: seq<T>, key: T -> int)
    ensures multiset(SortBy(s, key)) == multiset(s)
    ensures SortedBy(SortBy(s, key), key)
  {
    if s != [] {
      SortBySpec(s[1..], key);
      InsertPermutes(s[0], SortBy(s[1..], key), key);
      InsertKeepsSorted(s[0], SortBy(s[1..], key), key);
      assert s == [s[0]] + s[1..];
    }
  }

  /** `monthlyData`: the filtered copy sorted with
      `(a, b) => new Date(a.date).getTime() - new Date(b.date).getTime()`. */
  function MonthlyData(data: seq<DiaryEntry>, year: int, month: int): seq<DiaryEntry> {
    SortBy(FilterMonth(data, year, month), TimeOf)
  }

  /** Within one month, time order is day order. */
  lemma SameMonthTime(a: DiaryEntry, b: DiaryEntry, year: int, month: int)
    requires IsSameMonth(a.date, year, month) && IsSameMonth(b.date, year, month)
    ensures TimeOf(b) - TimeOf(a) == DayOf(b) - DayOf(a)
  {
  }

  /** Every entry of `monthlyData` belongs to the month. */
  lemma MonthlyDataInMonth(data: seq<DiaryEntry>, year: int, month: int)
    ensures var r := MonthlyData(data, year, month);
      forall i :: 0 <= i < |r| ==> IsSameMonth(r[i].date, year, month)
  {
    var f := FilterMonth(data, year, month);
    var r := MonthlyData(data, year, month);
    SortBySpec(f, TimeOf);
    forall i | 0 <= i < |r| ensures IsSameMonth(r[i].date, year, month) {
      assert r[i] in multiset(f);
      var k :| 0 <= k < |f| && f[k] == r[i];
    }
  }

  /** The month's entries and nothing else, each as often as in `data`, in
      ascending date order. */
  lemma MonthlyDataSpec(data: seq<DiaryEntry>, year: int, month: int)
    ensures var r := MonthlyData(data, year, month);
      && (forall i :: 0 <= i < |r| ==> IsSameMonth(r[i].date, year, month))
      && (forall e :: multiset(r)[e] == if IsSameMonth(e.date, year, month) then multiset(data)[e] else 0)
      && (forall i, j :: 0 <= i < j < |r| ==> DayOf(r[i]) <= DayOf(r[j]))
  {
    var r := MonthlyData(data, year, month);
    SortBySpec(FilterMonth(data, year, month), TimeOf);
    MonthlyDataInMonth(data, year, month);
    forall i, j | 0 <= i < j < |r| ensures DayOf(r[i]) <= DayOf(r[j]) {
      SameMonthTime(r[i], r[j], year, month);
    }
  }

  // ----- Coordinates -----

  /** The horizontal position of a day: day 1 at the left padding, the last
      day of the month at the right one. */
  function PointX(day: int, daysInMonth: int): (x: real)
    requires daysInMonth >= 2
    ensures 1 <= day <= daysInMonth ==> Padding <= x <= Width - Padding
  {
    var f := (day - 1) as real / (daysInMonth - 1) as real;
    assert 1 <= day <= daysInMonth ==> 0.0 <= f <= 1.0 by {
      assert f * (daysInMonth - 1) as real == (day - 1) as real;
    }
    Padding + f * (Width - 2.0 * Padding)
  }

  /** Later days lie further right. */
  lemma PointXIncreasing(d1: int, d2: int, daysInMonth: int)
    requires daysInMonth >= 2 && d1 < d2
    ensures PointX(d1, daysInMonth) < PointX(d2, daysInMonth)
  {
    var n := (daysInMonth - 1) as real;
    var f1, f2 := (d1 - 1) as real / n, (d2 - 1) as real / n;
    assert f1 * n == (d1 - 1) as real && f2 * n == (d2 - 1) as real;
    assert (f2 - f1) * n == (d2 - d1) as real;
  }

  /** The vertical position of a score: 0 at the bottom padding, 100 at the
      top one. */
  function PointY(score: int): (y: real)
    ensures 0 <= score <= 100 ==> Padding <= y <= Height - Padding
  {
    Height - Padding - (score as real / 100.0) * (Height - 2.0 * Padding)
  }

  /** A higher score is drawn higher up: a smaller y. */
  lemma PointYDecreasing(s1: int, s2: int)
    requires s1 < s2
    ensures PointY(s2) < PointY(s1)
  {
  }

  /** The guide lines for the scores 0, 50 and 100. */
  function GuideLines(): (ys: seq<real>)
    ensures ys == [PointY(0), PointY(50), PointY(100)]
    ensures ys == [Height - Padding, Height / 2.0, Padding]
  {
    var scores := [0, 50, 100];
    seq(3, i requires 0 <= i < 3 =>
      Height - Padding - (scores[i] as real / 100.0) * (Height - 2.0 * Padding))
  }

  // ----- The rendered graph -----

  datatype Point = Point(x: real, y: real, date: string, score: int)

  datatype Graph = NoData | Plot(points: seq<Point>, guides: seq<real>)

  /** One vertex of the polyline: the entry's day across, its score up,
      inside the plot when the day is in the month and the score in 0..100. */
  function ToPoint(e: DiaryEntry, daysInMonth: int): (p: Point)
    requires daysInMonth >= 2
    ensures p.date == e.date && p.score == e.score
    ensures 1 <= DayOf(e) <= daysInMonth ==> Padding <= p.x <= Width - Padding
    ensures 0 <= e.score <= 100 ==> Padding <= p.y <= Height - Padding
  {
    Point(PointX(DayOf(e), daysInMonth), PointY(e.score), e.date, e.score)
  }

  /** The "no data" view for a month without entries, otherwise one point per
      entry of `monthlyData`, in its order. */
  function Render(data: seq<DiaryEntry>, year: int, month: int): (g: Graph)
    ensures g.NoData? <==> MonthlyData(data, year, month) == []
    ensures g.Plot? ==> |g.points| == |MonthlyData(data, year, month)|
  {
    var monthly := MonthlyData(data, year, month);
    var n := GetDaysInMonth(year, month);
    if |monthly| == 0 then NoData
    else Plot(seq(|monthly|, i requires 0 <= i < |monthly| => ToPoint(monthly[i], n)), GuideLines())
  }

  /** Along the polyline x never decreases, and two entries with different
      dates are drawn at different, increasing x. */
  lemma PointsFollowDateOrder(data: seq<DiaryEntry>, year: int, month: int, i: int, j: int)
    requires var g := Render(data, year, month); g.Plot? && 0 <= i < j < |g.points|
    ensures var p := Render(data, year, month).points;
      && p[i].x <= p[j].x
      && (p[i].date != p[j].date ==> p[i].x < p[j].x)
  {
    var monthly := MonthlyData(data, year, month);
    var n := GetDaysInMonth(year, month);
    var p := Render(data, year, month).points;
    assert p[i] == ToPoint(monthly[i], n) && p[j] == ToPoint(monthly[j], n);
    MonthlyDataSpec(data, year, month);
    var a, b := monthly[i], monthly[j];
    assert DayOf(a) <= DayOf(b);
    if DayOf(a) < DayOf(b) {
      PointXIncreasing(DayOf(a), DayOf(b), n);
    } else {
      SameDaySameDate(a, b, year, month);
    }
  }

  /** Two entries of one month on the same day carry the same date string. */
  lemma SameDaySameDate(a: DiaryEntry, b: DiaryEntry, year: int, month: int)
    requires IsSameMonth(a.date, year, month) && IsSameMonth(b.date, year, month)
    requires DayOf(a) == DayOf(b)
    ensures a.date == b.date
  {
    assert ParseDate(a.date) == ParseDate(b.date);
    DateStringUnique(a.date, b.date);
  }

  /** In a month of a year the `Date` constructor takes as written, the
      day of an entry of that month is one of the month's days. */
  lemma DayWithinMonth(e: DiaryEntry, year: int, month: int)
    requires year >= 100 && 0 <= month < 12 && IsSameMonth(e.date, year, month)
    ensures 1 <= DayOf(e) <= GetDaysInMonth(year, month)
  {
    var d := ParseDate(e.date).value;
    assert d.year == year && d.month == month && IsValidDate(d);
  }

  /** For such a month every point lies between the paddings horizontally,
      and vertically too when its score is within 0 to 100. */
  lemma PointsInsidePlot(data: seq<DiaryEntry>, year: int, month: int, i: int)
    requires year >= 100 && 0 <= month < 12
    requires var g := Render(data, year, month); g.Plot? && 0 <= i < |g.points|
    ensures var p := Render(data, year, month).points[i];
      && Padding <= p.x <= Width - Padding
      && (0 <= p.score <= 100 ==> Padding <= p.y <= Height - Padding)
  {
    var monthly := MonthlyData(data, year, month);
    var n := GetDaysInMonth(year, month);
    assert Render(data, year, month).points[i] == ToPoint(monthly[i], n);
    MonthlyDataInMonth(data, year, month);
    DayWithinMonth(monthly[i], year, month);
  }
}
