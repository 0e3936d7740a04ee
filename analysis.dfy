/** Figures several pages compute the same way: the overview metrics, the
    data-class frequency table and its percentages, the most common class,
    the largest breach, the top breaches and the two-window trend. */
module Analysis {
  import opened Wrappers
  import opened Seqs
  import opened Sorting
  import opened Tables
  import opened Records

  /** An exact percentage: `num / den` per cent, `den` positive. */
  datatype Fraction = Fraction(num: nat, den: nat)

  /** `part / whole * 100`, and 0 when `whole` is 0 (no division happens then). */
  function Percent(part: nat, whole: nat): (p: Fraction)
    ensures p.den > 0
    ensures whole > 0 ==> p.num == 100 * part && p.den == whole
    ensures whole == 0 ==> p.num == 0
    ensures part <= whole ==> p.num <= 100 * p.den
  {
    if whole > 0 then Fraction(100 * part, whole) else Fraction(0, 1)
  }

  function PwnOf(r: Row): int {
    r.b.pwnCount
  }

  function PwnCounts(rows: seq<Row>): (w: seq<nat>)
    ensures |w| == |rows|
    ensures forall i :: 0 <= i < |rows| ==> w[i] == rows[i].b.pwnCount
  {
    if rows == [] then [] else [rows[0].b.pwnCount] + PwnCounts(rows[1..])
  }

  /** `PwnCount.sum()`. */
  function TotalPwned(rows: seq<Row>): nat {
    Sum(PwnCounts(rows))
  }

  predicate IsVerifiedRow(r: Row) {
    r.b.isVerified
  }

  predicate IsSensitiveRow(r: Row) {
    r.b.isSensitive
  }

  /** The four overview metrics. */
  datatype Overview = Overview(
    totalBreaches: nat,
    totalPwned: nat,
    verifiedCount: nat,
    verifiedShare: Fraction,
    sensitiveCount: nat,
    sensitiveShare: Fraction)

  function OverviewOf(rows: seq<Row>): (o: Overview)
    ensures o.totalBreaches == |rows| && o.totalPwned == TotalPwned(rows)
    ensures forall r :: r in Filter(rows, IsVerifiedRow) <==> r in rows && r.b.isVerified
    ensures o.verifiedCount == |Filter(rows, IsVerifiedRow)| <= |rows|
    ensures o.sensitiveCount == |Filter(rows, IsSensitiveRow)| <= |rows|
    ensures o.verifiedShare.num <= 100 * o.verifiedShare.den
    ensures o.sensitiveShare.num <= 100 * o.sensitiveShare.den
    ensures |rows| == 0 ==> o.verifiedShare.num == 0 && o.sensitiveShare.num == 0
    ensures |rows| > 0 ==> o.verifiedShare == Fraction(100 * o.verifiedCount, |rows|)
    ensures |rows| > 0 ==> o.sensitiveShare == Fraction(100 * o.sensitiveCount, |rows|)
  {
    var verified := |Filter(rows, IsVerifiedRow)|;
    var sensitive := |Filter(rows, IsSensitiveRow)|;
    Overview(|rows|, TotalPwned(rows), verified, Percent(verified, |rows|), sensitive, Percent(sensitive, |rows|))
  }

  /** The `DataClasses` column of the exploded rows. */
  function ClassesOf(classRows: seq<ClassRow>): (cs: seq<string>)
    ensures |cs| == |classRows|
    ensures forall i :: 0 <= i < |classRows| ==> cs[i] == classRows[i].dataClass
  {
    if classRows == [] then [] else [classRows[0].dataClass] + ClassesOf(classRows[1..])
  }

  /** `value_counts().head(10)`: at most ten values, most frequent first,
      and no value left out is more frequent than one shown. */
  function TopCounts(values: seq<string>): (t: seq<(string, nat)>)
    ensures |t| == Min(10, |Distinct(values)|)
    ensures |values| > 0 ==> |t| > 0
    ensures NoDup(KeysOf(t))
    ensures forall i :: 0 <= i < |t| ==> t[i].0 in values && t[i].1 == Count(values, t[i].0)
    ensures forall i, j :: 0 <= i < j < |t| ==> t[i].1 >= t[j].1
    ensures forall v, i :: v in values && v !in KeysOf(t) && 0 <= i < |t| ==> Count(values, v) <= t[i].1
  {
    TopEntries(values, 10);
    TopDominates(values, 10);
    ValueCountsLength(values);
    Take(ValueCounts(values), 10)
  }

  /** The first `n` entries of the value counts are distinct values of the
      input, counted correctly, most frequent first, and present whenever
      the input is non-empty. */
  lemma TopEntries(values: seq<string>, n: nat)
    ensures var t := Take(ValueCounts(values), n);
      && (|values| > 0 && n > 0 ==> |t| > 0)
      && NoDup(KeysOf(t))
      && (forall i :: 0 <= i < |t| ==> t[i].0 in values && t[i].1 == Count(values, t[i].0))
      && (forall i, j :: 0 <= i < j < |t| ==> t[i].1 >= t[j].1)
  {
    var all := ValueCounts(values);
    TakeEntries(values, all, n);
    if |values| > 0 && n > 0 {
      assert values[0] in KeysOf(all);
    }
  }

  /** A prefix of a count table keeps distinct keys, correct counts and
      their order. */
  lemma TakeEntries<K>(keys: seq<K>, all: seq<(K, nat)>, n: nat)
    requires NoDup(KeysOf(all))
    requires forall k :: k in KeysOf(all) ==> k in keys
    requires forall i :: 0 <= i < |all| ==> all[i].1 == Count(keys, all[i].0)
    requires forall i, j :: 0 <= i < j < |all| ==> all[i].1 >= all[j].1
    ensures var t := Take(all, n);
      && NoDup(KeysOf(t))
      && (forall i :: 0 <= i < |t| ==> t[i].0 in keys && t[i].1 == Count(keys, t[i].0))
      && (forall i, j :: 0 <= i < j < |t| ==> t[i].1 >= t[j].1)
  {
    var t := Take(all, n);
    assert forall i :: 0 <= i < |t| ==> t[i] == all[i];
    forall i | 0 <= i < |t| ensures t[i].0 in keys {
      assert KeysOf(all)[i] == all[i].0;
    }
    forall i, j | 0 <= i < j < |t| ensures KeysOf(t)[i] != KeysOf(t)[j] {
      assert KeysOf(all)[i] == KeysOf(t)[i] && KeysOf(all)[j] == KeysOf(t)[j];
    }
  }

  /** No value past the first `n` entries of the value counts is more
      frequent than any of them. */
  lemma TopDominates(values: seq<string>, n: nat)
    ensures var t := Take(ValueCounts(values), n);
      forall c, i :: c in values && c !in KeysOf(t) && 0 <= i < |t| ==> Count(values, c) <= t[i].1
  {
    TopOfTable(values, ValueCounts(values), n);
  }

  lemma TopOfTable<K(!new)>(keys: seq<K>, all: seq<(K, nat)>, n: nat)
    requires forall k :: k in keys ==> k in KeysOf(all)
    requires forall i :: 0 <= i < |all| ==> all[i].1 == Count(keys, all[i].0)
    requires forall i, j :: 0 <= i < j < |all| ==> all[i].1 >= all[j].1
    ensures forall c, i :: c in keys && c !in KeysOf(Take(all, n)) && 0 <= i < |Take(all, n)| ==>
      Count(keys, c) <= Take(all, n)[i].1
  {
    var t := Take(all, n);
    forall c, i | c in keys && c !in KeysOf(t) && 0 <= i < |t|
      ensures Count(keys, c) <= t[i].1
    {
      DominatedAt(keys, all, t, c, i);
    }
  }

  /** A key missing from a prefix of a table sorted by non-increasing count
      sits after the prefix, so each entry of the prefix counts at least as
      many occurrences. */
  lemma DominatedAt<K>(keys: seq<K>, all: seq<(K, nat)>, t: seq<(K, nat)>, c: K, i: nat)
    requires |t| <= |all| && t == all[..|t|]
    requires c in KeysOf(all) && c !in KeysOf(t) && i < |t|
    requires forall i :: 0 <= i < |all| ==> all[i].1 == Count(keys, all[i].0)
    requires forall i, j :: 0 <= i < j < |all| ==> all[i].1 >= all[j].1
    ensures Count(keys, c) <= t[i].1
  {
    var j := KeyAt(all, c);
    assert forall x :: 0 <= x < |t| ==> KeysOf(t)[x] == all[x].0;
    assert i < j;
    assert t[i] == all[i];
  }

  /** Each count of a table as a percentage of `whole`. */
  function ShareTable(t: seq<(string, nat)>, whole: nat): (s: seq<(string, Fraction)>)
    ensures |s| == |t|
    ensures KeysOf(s) == KeysOf(t)
    ensures forall i :: 0 <= i < |t| ==> s[i] == (t[i].0, Percent(t[i].1, whole))
  {
    if t == [] then [] else [(t[0].0, Percent(t[0].1, whole))] + ShareTable(t[1..], whole)
  }

  function ShareNumerators(s: seq<(string, Fraction)>): nat {
    if s == [] then 0 else s[0].1.num + ShareNumerators(s[1..])
  }

  /** The percentages of a table share the denominator `whole`, and their
      numerators add up to 100 times the table's total count. Relative to the
      table's own total they therefore add up to 100 per cent. */
  lemma {:induction false} SharesSum(t: seq<(string, nat)>, whole: nat)
    requires whole > 0
    ensures forall i :: 0 <= i < |t| ==> ShareTable(t, whole)[i].1.den == whole
    ensures ShareNumerators(ShareTable(t, whole)) == 100 * TotalCount(t)
  {
    if t != [] {
      SharesSum(t[1..], whole);
      assert ShareTable(t, whole)[1..] == ShareTable(t[1..], whole);
    }
  }

  /** The top ten classes with each count as a percentage of the ten counts shown. */
  function TopClassShares(classes: seq<string>): (s: seq<(string, Fraction)>)
    ensures KeysOf(s) == KeysOf(TopCounts(classes))
    ensures forall i :: 0 <= i < |s| ==> s[i].0 in classes
    ensures forall i :: 0 <= i < |s| ==> s[i].1 == Percent(Count(classes, s[i].0), TotalCount(TopCounts(classes)))
    ensures forall i :: 0 <= i < |s| ==> s[i].1.num <= 100 * s[i].1.den
    ensures |classes| > 0 ==> ShareNumerators(s) == 100 * TotalCount(TopCounts(classes))
  {
    var top := TopCounts(classes);
    TopWithinTotal(top);
    TopSharesSum(classes);
    ShareTable(top, TotalCount(top))
  }

  lemma TopSharesSum(classes: seq<string>)
    ensures var top := TopCounts(classes);
      |classes| > 0 ==> ShareNumerators(ShareTable(top, TotalCount(top))) == 100 * TotalCount(top)
  {
    var top := TopCounts(classes);
    if |classes| > 0 {
      assert top[0].1 > 0;
      TotalCountPositive(top);
      SharesSum(top, TotalCount(top));
    }
  }

  lemma {:induction false} TopWithinTotal(t: seq<(string, nat)>)
    ensures forall i :: 0 <= i < |t| ==> t[i].1 <= TotalCount(t)
  {
    if t != [] {
      TopWithinTotal(t[1..]);
      assert forall i :: 1 <= i < |t| ==> t[i] == t[1..][i - 1];
    }
  }

  lemma TotalCountPositive(t: seq<(string, nat)>)
    requires |t| > 0 && t[0].1 > 0
    ensures TotalCount(t) > 0
  {
  }

  /** The most common class of the exploded rows, or "N/A" when there is none. */
  function MostCommonClass(classes: seq<string>): (c: string)
    ensures |classes| == 0 ==> c == "N/A"
    ensures |classes| > 0 ==> c in classes && forall d :: d in classes ==> Count(classes, d) <= Count(classes, c)
  {
    var t := ValueCounts(classes);
    if |t| == 0 then
      "N/A"
    else
      assert t[0].0 in KeysOf(t);
      assert forall d :: d in classes ==> Count(classes, d) <= t[0].1 by {
        forall d | d in classes ensures Count(classes, d) <= t[0].1 {
          ValueCountsHeadIsMostFrequent(classes, d);
        }
      }
      t[0].0
  }

  /** The guarded largest breach: `nlargest(1, 'PwnCount')`, or ("N/A", 0)
      for an empty table. */
  function LargestBreach(rows: seq<Row>): (r: (string, nat))
    ensures |rows| == 0 ==> r == ("N/A", 0)
    ensures |rows| > 0 ==> r.0 == rows[FirstArgMax(rows, PwnOf)].b.name
    ensures |rows| > 0 ==> r.1 == rows[FirstArgMax(rows, PwnOf)].b.pwnCount
    ensures forall x :: x in rows ==> x.b.pwnCount <= r.1
  {
    if |rows| == 0 then ("N/A", 0)
    else
      NLargestOneIsFirstArgMax(rows, PwnOf);
      var top := NLargest(rows, 1, PwnOf);
      (top[0].b.name, top[0].b.pwnCount)
  }

  /** `PwnCount.max()`. */
  function MaxPwn(rows: seq<Row>): (m: nat)
    requires |rows| > 0
    ensures exists i :: 0 <= i < |rows| && rows[i].b.pwnCount == m
    ensures forall i :: 0 <= i < |rows| ==> rows[i].b.pwnCount <= m
  {
    if |rows| == 1 then rows[0].b.pwnCount
    else
      var m := MaxPwn(rows[1..]);
      assert forall i :: 1 <= i < |rows| ==> rows[i] == rows[1..][i - 1];
      if rows[0].b.pwnCount >= m then rows[0].b.pwnCount else m
  }

  /** The unguarded largest breach: the name at `idxmax()` and, computed
      separately, `max()`; the two describe the same record. */
  function LargestByIdxMax(rows: seq<Row>): (r: (string, nat))
    requires |rows| > 0
    ensures r.0 == rows[FirstArgMax(rows, PwnOf)].b.name
    ensures r.1 == rows[FirstArgMax(rows, PwnOf)].b.pwnCount
    ensures forall x :: x in rows ==> x.b.pwnCount <= r.1
  {
    var i := FirstArgMax(rows, PwnOf);
    var m := MaxPwn(rows);
    assert PwnOf(rows[i]) == m by {
      var k :| 0 <= k < |rows| && rows[k].b.pwnCount == m;
      assert PwnOf(rows[k]) <= PwnOf(rows[i]);
    }
    (rows[i].b.name, m)
  }

  /** `nlargest(10, 'PwnCount')`. */
  function TopBreaches(rows: seq<Row>): (t: seq<Row>)
    ensures |t| == if |rows| <= 10 then |rows| else 10
    ensures multiset(t) <= multiset(rows)
    ensures forall i, j :: 0 <= i < j < |t| ==> t[i].b.pwnCount >= t[j].b.pwnCount
    ensures forall x :: x in rows && x !in t ==> forall y :: y in t ==> x.b.pwnCount <= y.b.pwnCount
  {
    NLargest(rows, 10, PwnOf)
  }

  datatype Trend = Increasing | Decreasing

  /** The breach years of the last two years and of the two years before. */
  predicate InRecentWindow(r: Row, currentYear: int) {
    r.breachYear >= currentYear - 2
  }

  predicate InPreviousWindow(r: Row, currentYear: int) {
    currentYear - 4 <= r.breachYear < currentYear - 2
  }

  function RecentCount(rows: seq<Row>, currentYear: int): nat {
    |Filter(rows, (r: Row) => InRecentWindow(r, currentYear))|
  }

  function PreviousCount(rows: seq<Row>, currentYear: int): nat {
    |Filter(rows, (r: Row) => InPreviousWindow(r, currentYear))|
  }

  /** "increasing" exactly when the recent window holds more breaches; a tie reads "decreasing". */
  function TrendOf(rows: seq<Row>, currentYear: int): (t: Trend)
    ensures t == Increasing <==> RecentCount(rows, currentYear) > PreviousCount(rows, currentYear)
    ensures RecentCount(rows, currentYear) == PreviousCount(rows, currentYear) ==> t == Decreasing
  {
    if RecentCount(rows, currentYear) > PreviousCount(rows, currentYear) then Increasing else Decreasing
  }

  /** The two windows never share a breach, so together they count at most the table. */
  lemma WindowsDisjoint(rows: seq<Row>, currentYear: int)
    ensures forall r :: !(InRecentWindow(r, currentYear) && InPreviousWindow(r, currentYear))
    ensures RecentCount(rows, currentYear) + PreviousCount(rows, currentYear) <= |rows|
  {
    FilterDisjointLengths(rows, (r: Row) => InRecentWindow(r, currentYear), (r: Row) => InPreviousWindow(r, currentYear));
  }

  /** The insight figures of a page. */
  datatype Insights = Insights(mostCommonClass: string, largestName: string, largestCount: nat, trend: Trend)

  /** The guarded insights: "N/A" and 0 stand in for an empty selection, and
      nothing is divided or indexed. */
  function GuardedInsights(rows: seq<Row>, classRows: seq<ClassRow>, currentYear: int): (i: Insights)
    ensures |classRows| == 0 ==> i.mostCommonClass == "N/A"
    ensures |classRows| > 0 ==> i.mostCommonClass in ClassesOf(classRows)
    ensures forall c :: c in ClassesOf(classRows) ==> Count(ClassesOf(classRows), c) <= Count(ClassesOf(classRows), i.mostCommonClass)
    ensures |rows| == 0 ==> i.largestName == "N/A" && i.largestCount == 0
    ensures |rows| > 0 ==> i.largestName == rows[FirstArgMax(rows, PwnOf)].b.name && i.largestCount == rows[FirstArgMax(rows, PwnOf)].b.pwnCount
    ensures i.trend == Increasing <==> RecentCount(rows, currentYear) > PreviousCount(rows, currentYear)
  {
    var largest := LargestBreach(rows);
    Insights(MostCommonClass(ClassesOf(classRows)), largest.0, largest.1, TrendOf(rows, currentYear))
  }
}
