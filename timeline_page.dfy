/** The timeline page: a date and a size filter, breaches per year, per
    calendar month and per (year, size category), and the peak insights. */
module TimelinePage {
  import opened Wrappers
  import opened Seqs
  import opened Sorting
  import opened Tables
  import opened Strings
  import opened Dates
  import opened Records
  import opened Filters

  /** The page's filter chain: the date range, then the size texts. */
  method PageFilters(df: seq<Row>, dateRange: seq<CalendarDate>, sizes: seq<string>) returns (filtered: seq<Row>)
    ensures IsSubsequence(filtered, df)
    ensures forall r :: r in filtered <==>
      (r in df
       && (|dateRange| == 2 ==> InDateRange(r, dateRange[0], dateRange[1]))
       && (|sizes| > 0 ==> SizeText(r.sizeCategory) in sizes))
  {
    filtered := DateStep(df, dateRange);
    ghost var previous := filtered;
    filtered := SizeTextStep(filtered, sizes);
    SubsequenceTrans(filtered, previous, df);
  }

  predicate IntLe(a: int, b: int) {
    a <= b
  }

  lemma IntLeIsTotalOrder()
    ensures IsTotalPreorder(IntLe) && IsAntisymmetric(IntLe)
  {
  }

  function Years(rows: seq<Row>): (ys: seq<int>)
    ensures |ys| == |rows|
    ensures forall i :: 0 <= i < |rows| ==> ys[i] == rows[i].breachYear
  {
    if rows == [] then [] else [rows[0].breachYear] + Years(rows[1..])
  }

  function Months(rows: seq<Row>): (ms: seq<int>)
    ensures |ms| == |rows|
    ensures forall i :: 0 <= i < |rows| ==> ms[i] == rows[i].breachMonth
  {
    if rows == [] then [] else [rows[0].breachMonth] + Months(rows[1..])
  }

  /** `groupby(key).size()` on an integer column: keys strictly ascending,
      one per value present, counts adding up to the number of rows. */
  function IntGroups(keys: seq<int>): (t: seq<(int, nat)>)
    ensures Ascending(t)
    ensures forall k :: k in KeysOf(t) <==> k in keys
    ensures forall i :: 0 <= i < |t| ==> t[i].1 == Count(keys, t[i].0) > 0
    ensures TotalCount(t) == |keys|
  {
    IntLeIsTotalOrder();
    var t := GroupSizes(keys, IntLe);
    StrictlyAscending(t);
    t
  }

  /** A table whose integer keys are strictly ascending. */
  predicate Ascending(t: seq<(int, nat)>) {
    forall i, j :: 0 <= i < j < |t| ==> t[i].0 < t[j].0
  }

  lemma StrictlyAscending(t: seq<(int, nat)>)
    requires NoDup(KeysOf(t)) && SortedBy(KeysOf(t), IntLe)
    ensures Ascending(t)
  {
    forall i, j | 0 <= i < j < |t| ensures t[i].0 < t[j].0 {
      StrictlyAscendingAt(t, i, j);
    }
  }

  lemma StrictlyAscendingAt(t: seq<(int, nat)>, i: int, j: int)
    requires NoDup(KeysOf(t)) && SortedBy(KeysOf(t), IntLe)
    requires 0 <= i < j < |t|
    ensures t[i].0 < t[j].0
  {
    var ks := KeysOf(t);
    assert IntLe(ks[i], ks[j]);
    assert ks[i] != ks[j];
  }

  /** `key` occurs in `keys` `count` times, no value occurs more often, and
      every smaller value occurs less often. */
  predicate IsPeak(keys: seq<int>, key: int, count: nat) {
    && key in keys
    && count == Count(keys, key)
    && (forall k :: k in keys ==> Count(keys, k) <= count)
    && (forall k :: k in keys && k < key ==> Count(keys, k) < count)
  }

  /** The first largest group of an integer column (`idxmax` over the
      ascending group sizes): its key has the largest count, every smaller
      key present has fewer, and there is none exactly when the column is
      empty. */
  function Peak(keys: seq<int>): (p: Option<(int, nat)>)
    ensures p.None? <==> |keys| == 0
    ensures p.Some? ==> IsPeak(keys, p.value.0, p.value.1)
  {
    var t := IntGroups(keys);
    if |t| == 0 then
      None
    else
      var p := FirstArgMax(t, CountOf);
      PeakIsFirstMax(keys, t, p);
      assert t[p].0 == KeysOf(t)[p];
      Some(t[p])
  }

  /** Breaches per year, years ascending. */
  function YearlyCounts(rows: seq<Row>): (t: seq<(int, nat)>)
    ensures Ascending(t)
    ensures forall y :: y in KeysOf(t) <==> exists r :: r in rows && r.breachYear == y
    ensures forall i :: 0 <= i < |t| ==> t[i].1 == Count(Years(rows), t[i].0) > 0
    ensures TotalCount(t) == |rows|
    ensures |rows| > 0 ==> |t| > 0
  {
    var t := IntGroups(Years(rows));
    ColumnMembers(rows, Years(rows), true);
    assert |rows| > 0 ==> rows[0].breachYear in Years(rows);
    t
  }

  /** Breaches per calendar month, months ascending. */
  function MonthlyCounts(rows: seq<Row>): (t: seq<(int, nat)>)
    ensures Ascending(t)
    ensures forall i :: 0 <= i < |t| ==> 1 <= t[i].0 <= 12
    ensures forall m :: m in KeysOf(t) <==> exists r :: r in rows && r.breachMonth == m
    ensures forall i :: 0 <= i < |t| ==> t[i].1 == Count(Months(rows), t[i].0) > 0
    ensures TotalCount(t) == |rows|
    ensures |rows| > 0 ==> |t| > 0
  {
    var t := IntGroups(Months(rows));
    ColumnMembers(rows, Months(rows), false);
    MonthKeysInRange(rows, t);
    assert |rows| > 0 ==> rows[0].breachMonth in Months(rows);
    t
  }

  lemma MonthKeysInRange(rows: seq<Row>, t: seq<(int, nat)>)
    requires forall k :: k in KeysOf(t) ==> k in Months(rows)
    ensures forall i :: 0 <= i < |t| ==> 1 <= t[i].0 <= 12
  {
    forall i | 0 <= i < |t| ensures 1 <= t[i].0 <= 12 {
      assert KeysOf(t)[i] == t[i].0;
      MonthInRange(rows, t[i].0);
    }
  }

  lemma ColumnMembers(rows: seq<Row>, column: seq<int>, years: bool)
    requires column == (if years then Years(rows) else Months(rows))
    ensures years ==> forall y :: y in column <==> exists r :: r in rows && r.breachYear == y
    ensures !years ==> forall m :: m in column <==> exists r :: r in rows && r.breachMonth == m
  {
    forall k | k in column ensures exists r :: r in rows && (if years then r.breachYear else r.breachMonth as int) == k {
      var i :| 0 <= i < |column| && column[i] == k;
      assert rows[i] in rows;
    }
    forall r | r in rows ensures (if years then r.breachYear else r.breachMonth as int) in column {
      var i :| 0 <= i < |rows| && rows[i] == r;
      assert column[i] == (if years then r.breachYear else r.breachMonth as int);
    }
  }

  const MonthNames: seq<string> := [
    "January", "February", "March", "April", "May", "June", "July",
    "August", "September", "October", "November", "December"]

  /** The name shown for a month number: the lookup at `month - 1` is in range. */
  function MonthName(month: int): string
    requires 1 <= month <= 12
  {
    MonthNames[month - 1]
  }

  function YearSizeKeys(rows: seq<Row>): (ks: seq<(int, string)>)
    ensures |ks| == |rows|
    ensures forall i :: 0 <= i < |rows| ==> ks[i] == (rows[i].breachYear, SizeText(rows[i].sizeCategory))
  {
    if rows == [] then [] else [(rows[0].breachYear, SizeText(rows[0].sizeCategory))] + YearSizeKeys(rows[1..])
  }

  /** `groupby(['BreachYear', 'BreachSizeCategory']).size()` on the text column. */
  function YearSizeCounts(rows: seq<Row>): (t: seq<((int, string), nat)>)
    ensures NoDup(KeysOf(t))
    ensures SortedBy(KeysOf(t), PairLe)
    ensures forall k :: k in KeysOf(t) <==> k in YearSizeKeys(rows)
    ensures forall i :: 0 <= i < |t| ==> t[i].1 == Count(YearSizeKeys(rows), t[i].0) > 0
    ensures TotalCount(t) == |rows|
  {
    PairLeIsTotalPreorder();
    GroupSizes(YearSizeKeys(rows), PairLe)
  }

  function CountOf(p: (int, nat)): int {
    p.1
  }

  /** The page's insight figures; the yearly average is `total / years`. */
  datatype TimelineInsights = TimelineInsights(
    total: nat,
    years: nat,
    peakYear: int,
    peakYearCount: nat,
    peakMonth: int,
    peakMonthName: string,
    peakMonthCount: nat)

  /** The insights as written: dividing by the number of years raises
      (`ZeroDivisionError`) when no breach is selected. Otherwise the peak
      year and month are the first (smallest) ones with the largest count. */
  function PageInsights(rows: seq<Row>): (r: Result<TimelineInsights, string>)
    ensures r.Failure? <==> |rows| == 0
    ensures r.Success? ==> r.value == Summarise(rows)
  {
    if |YearlyCounts(rows)| == 0 then
      Failure("ZeroDivisionError: division by zero")
    else
      Success(Summarise(rows))
  }

  /** The figures for a non-empty selection. */
  function Summarise(rows: seq<Row>): (s: TimelineInsights)
    requires |rows| > 0
    ensures s.total == |rows| && s.years == |YearlyCounts(rows)| > 0
    ensures IsPeak(Years(rows), s.peakYear, s.peakYearCount)
    ensures IsPeak(Months(rows), s.peakMonth, s.peakMonthCount)
    ensures 1 <= s.peakMonth <= 12 && s.peakMonthName == MonthName(s.peakMonth)
  {
    var y := Peak(Years(rows)).value;
    var m := Peak(Months(rows)).value;
    MonthInRange(rows, m.0);
    TimelineInsights(|rows|, |YearlyCounts(rows)|, y.0, y.1, m.0, MonthName(m.0), m.1)
  }

  lemma MonthInRange(rows: seq<Row>, m: int)
    requires m in Months(rows)
    ensures 1 <= m <= 12
  {
    var i :| 0 <= i < |rows| && Months(rows)[i] == m;
    assert m == rows[i].breachMonth;
  }

  lemma YearsOfRows(rows: seq<Row>)
    ensures forall r :: r in rows ==> r.breachYear in Years(rows)
  {
    forall r | r in rows ensures r.breachYear in Years(rows) {
      var i :| 0 <= i < |rows| && rows[i] == r;
      assert Years(rows)[i] == r.breachYear;
    }
  }

  lemma MonthsOfRows(rows: seq<Row>)
    ensures forall r :: r in rows ==> r.breachMonth as int in Months(rows)
  {
    forall r | r in rows ensures r.breachMonth as int in Months(rows) {
      var i :| 0 <= i < |rows| && rows[i] == r;
      assert Months(rows)[i] == r.breachMonth;
    }
  }

  /** In an ascending table of group sizes, the first largest group has the
      largest count of every key present, and every smaller key has fewer. */
  lemma PeakIsFirstMax(keys: seq<int>, t: seq<(int, nat)>, p: nat)
    requires |t| > 0 && p == FirstArgMax(t, CountOf)
    requires Ascending(t)
    requires forall k :: k in KeysOf(t) <==> k in keys
    requires forall i :: 0 <= i < |t| ==> t[i].1 == Count(keys, t[i].0) > 0
    ensures forall k :: k in keys ==> Count(keys, k) <= t[p].1
    ensures forall k :: k in keys && k < t[p].0 ==> Count(keys, k) < t[p].1
  {
    forall k | k in keys ensures Count(keys, k) <= t[p].1 && (k < t[p].0 ==> Count(keys, k) < t[p].1) {
      var i := KeyAt(t, k);
      assert CountOf(t[i]) <= CountOf(t[p]);
      if k < t[p].0 {
        assert i < p;
      }
    }
  }
}
