/** The main dashboard page: its filter chain, the month timeline, the
    severity score, the geographic table and the search box. */
module Dashboard {
  import opened Wrappers
  import opened Seqs
  import opened Sorting
  import opened Tables
  import opened Strings
  import opened Dates
  import opened Records
  import opened Filters
  import opened Analysis

  // ---------------------------------------------------------------- filters

  /** What the sidebar widgets hold. */
  datatype Criteria = Criteria(
    dateRange: seq<CalendarDate>,
    verification: seq<string>,
    sensitivity: seq<string>,
    sizes: seq<Option<SizeCategory>>,
    dataClasses: seq<string>)

  /** The conjunction of every sidebar test. */
  predicate PassesFilters(r: Row, c: Criteria, classRows: seq<ClassRow>) {
    && (|c.dateRange| == 2 ==> InDateRange(r, c.dateRange[0], c.dateRange[1]))
    && FlagAdmits(c.verification, "Verified", "Unverified", r.b.isVerified)
    && FlagAdmits(c.sensitivity, "Sensitive", "Non-Sensitive", r.b.isSensitive)
    && (|c.sizes| > 0 ==> r.sizeCategory in c.sizes)
    && (|c.dataClasses| > 0 ==> r.b.name in SelectedNames(classRows, c.dataClasses))
  }

  /** The filter chain: `filtered_df` is narrowed step by step, then the
      exploded rows are restricted to the surviving names. */
  method ApplyFilters(df: seq<Row>, classRows: seq<ClassRow>, c: Criteria)
    returns (filtered: seq<Row>, filteredClassRows: seq<ClassRow>)
    ensures IsSubsequence(filtered, df)
    ensures forall r :: r in filtered <==> r in df && PassesFilters(r, c, classRows)
    ensures filteredClassRows == RestrictToNames(classRows, filtered)
    ensures forall cr :: cr in filteredClassRows <==> cr in classRows && cr.row.b.name in NamesOf(filtered)
    ensures IsSubsequence(filteredClassRows, classRows)
  {
    filtered := DateStep(df, c.dateRange);
    ghost var previous := filtered;
    filtered := VerificationStep(filtered, c.verification);
    SubsequenceTrans(filtered, previous, df);
    previous := filtered;
    filtered := SensitivityStep(filtered, c.sensitivity);
    SubsequenceTrans(filtered, previous, df);
    previous := filtered;
    filtered := SizeStep(filtered, c.sizes);
    SubsequenceTrans(filtered, previous, df);
    previous := filtered;
    filtered := ClassStep(filtered, classRows, c.dataClasses);
    SubsequenceTrans(filtered, previous, df);
    filteredClassRows := RestrictToNames(classRows, filtered);
  }

  // --------------------------------------------------------------- timeline

  /** One point of the month timeline. */
  datatype MonthPoint = MonthPoint(yearMonth: string, breachCount: nat, totalAffected: nat)

  function MonthKeys(rows: seq<Row>): (ks: seq<string>)
    ensures |ks| == |rows|
    ensures forall i :: 0 <= i < |rows| ==> ks[i] == rows[i].breachYearMonth
  {
    if rows == [] then [] else [rows[0].breachYearMonth] + MonthKeys(rows[1..])
  }

  function MonthPoints(groups: seq<(string, nat)>, keys: seq<string>, w: seq<nat>): (t: seq<MonthPoint>)
    requires |keys| == |w|
    ensures |t| == |groups|
    ensures forall i :: 0 <= i < |groups| ==> t[i] == MonthPoint(groups[i].0, groups[i].1, WeightOf(keys, w, groups[i].0))
  {
    if groups == [] then []
    else [MonthPoint(groups[0].0, groups[0].1, WeightOf(keys, w, groups[0].0))] + MonthPoints(groups[1..], keys, w)
  }

  /** `groupby('BreachYearMonth')` counting names and summing `PwnCount`,
      one point per month that has a breach, months in ascending key order. */
  function Timeline(rows: seq<Row>): (t: seq<MonthPoint>)
    ensures forall i, j :: 0 <= i < j < |t| ==> StrLe(t[i].yearMonth, t[j].yearMonth) && t[i].yearMonth != t[j].yearMonth
    ensures forall k :: (exists i :: 0 <= i < |t| && t[i].yearMonth == k) <==> k in MonthKeys(rows)
    ensures forall i :: 0 <= i < |t| ==> t[i].breachCount == Count(MonthKeys(rows), t[i].yearMonth) > 0
    ensures forall i :: 0 <= i < |t| ==> t[i].totalAffected == WeightOf(MonthKeys(rows), PwnCounts(rows), t[i].yearMonth)
  {
    StrLeIsTotalOrder();
    var groups := GroupSizes(MonthKeys(rows), StrLe);
    MonthPointsFollowGroups(groups, MonthKeys(rows), PwnCounts(rows));
    MonthPoints(groups, MonthKeys(rows), PwnCounts(rows))
  }

  lemma MonthPointsFollowGroups(groups: seq<(string, nat)>, keys: seq<string>, w: seq<nat>)
    requires |keys| == |w|
    requires NoDup(KeysOf(groups)) && SortedBy(KeysOf(groups), StrLe)
    requires forall k :: k in KeysOf(groups) <==> k in keys
    requires forall i :: 0 <= i < |groups| ==> groups[i].1 == Count(keys, groups[i].0) && groups[i].1 > 0
    ensures var t := MonthPoints(groups, keys, w);
      && (forall i, j :: 0 <= i < j < |t| ==> StrLe(t[i].yearMonth, t[j].yearMonth) && t[i].yearMonth != t[j].yearMonth)
      && (forall k :: (exists i :: 0 <= i < |t| && t[i].yearMonth == k) <==> k in keys)
      && (forall i :: 0 <= i < |t| ==> t[i].breachCount == Count(keys, t[i].yearMonth) > 0)
      && (forall i :: 0 <= i < |t| ==> t[i].totalAffected == WeightOf(keys, w, t[i].yearMonth))
  {
    MonthPointsOrdered(groups, keys, w);
    MonthPointsMembers(groups, keys, w);
    MonthPointsCounts(groups, keys, w);
  }

  lemma MonthPointsOrdered(groups: seq<(string, nat)>, keys: seq<string>, w: seq<nat>)
    requires |keys| == |w|
    requires NoDup(KeysOf(groups)) && SortedBy(KeysOf(groups), StrLe)
    ensures var t := MonthPoints(groups, keys, w);
      forall i, j :: 0 <= i < j < |t| ==> StrLe(t[i].yearMonth, t[j].yearMonth) && t[i].yearMonth != t[j].yearMonth
  {
    var t := MonthPoints(groups, keys, w);
    forall i, j | 0 <= i < j < |t| ensures StrLe(t[i].yearMonth, t[j].yearMonth) && t[i].yearMonth != t[j].yearMonth {
      MonthPointOrder(groups, keys, w, i, j);
    }
  }

  lemma MonthPointsMembers(groups: seq<(string, nat)>, keys: seq<string>, w: seq<nat>)
    requires |keys| == |w|
    requires forall k :: k in KeysOf(groups) <==> k in keys
    ensures var t := MonthPoints(groups, keys, w);
      forall k :: (exists i :: 0 <= i < |t| && t[i].yearMonth == k) <==> k in keys
  {
    var t := MonthPoints(groups, keys, w);
    forall k ensures (exists i :: 0 <= i < |t| && t[i].yearMonth == k) <==> k in keys {
      var _ := MonthPointMember(groups, keys, w, k);
    }
  }

  lemma MonthPointsCounts(groups: seq<(string, nat)>, keys: seq<string>, w: seq<nat>)
    requires |keys| == |w|
    requires forall i :: 0 <= i < |groups| ==> groups[i].1 == Count(keys, groups[i].0) && groups[i].1 > 0
    ensures var t := MonthPoints(groups, keys, w);
      && (forall i :: 0 <= i < |t| ==> t[i].breachCount == Count(keys, t[i].yearMonth) > 0)
      && (forall i :: 0 <= i < |t| ==> t[i].totalAffected == WeightOf(keys, w, t[i].yearMonth))
  {
    var t := MonthPoints(groups, keys, w);
    assert forall i :: 0 <= i < |t| ==> t[i].yearMonth == groups[i].0 && t[i].breachCount == groups[i].1;
  }

  lemma MonthPointMember(groups: seq<(string, nat)>, keys: seq<string>, w: seq<nat>, k: string)
    returns (t: seq<MonthPoint>)
    requires |keys| == |w|
    requires forall k :: k in KeysOf(groups) <==> k in keys
    ensures t == MonthPoints(groups, keys, w)
    ensures (exists i :: 0 <= i < |t| && t[i].yearMonth == k) <==> k in keys
  {
    t := MonthPoints(groups, keys, w);
    if k in keys {
      var i := KeyAt(groups, k);
      assert t[i].yearMonth == k;
    } else {
      forall i | 0 <= i < |t| ensures t[i].yearMonth != k {
        assert KeysOf(groups)[i] == t[i].yearMonth;
      }
    }
  }

  lemma MonthPointOrder(groups: seq<(string, nat)>, keys: seq<string>, w: seq<nat>, i: nat, j: nat)
    requires |keys| == |w|
    requires NoDup(KeysOf(groups)) && SortedBy(KeysOf(groups), StrLe)
    requires i < j < |groups|
    ensures var t := MonthPoints(groups, keys, w);
      StrLe(t[i].yearMonth, t[j].yearMonth) && t[i].yearMonth != t[j].yearMonth
  {
    var ks := KeysOf(groups);
    assert StrLe(ks[i], ks[j]) && ks[i] != ks[j];
  }

  function BreachCounts(t: seq<MonthPoint>): nat {
    if t == [] then 0 else t[0].breachCount + BreachCounts(t[1..])
  }

  function AffectedTotals(t: seq<MonthPoint>): nat {
    if t == [] then 0 else t[0].totalAffected + AffectedTotals(t[1..])
  }

  lemma {:induction false} MonthPointsTotals(groups: seq<(string, nat)>, keys: seq<string>, w: seq<nat>)
    requires |keys| == |w|
    ensures BreachCounts(MonthPoints(groups, keys, w)) == TotalCount(groups)
    ensures AffectedTotals(MonthPoints(groups, keys, w)) == WeightsOver(keys, w, KeysOf(groups))
  {
    if groups != [] {
      MonthPointsTotals(groups[1..], keys, w);
      assert MonthPoints(groups, keys, w)[1..] == MonthPoints(groups[1..], keys, w);
      assert KeysOf(groups)[1..] == KeysOf(groups[1..]);
    }
  }

  /** The timeline accounts for every filtered breach and every affected user exactly once. */
  lemma TimelineTotals(rows: seq<Row>)
    ensures BreachCounts(Timeline(rows)) == |rows|
    ensures AffectedTotals(Timeline(rows)) == TotalPwned(rows)
  {
    StrLeIsTotalOrder();
    var keys := MonthKeys(rows);
    var groups := GroupSizes(keys, StrLe);
    MonthPointsTotals(groups, keys, PwnCounts(rows));
    WeightsCover(keys, PwnCounts(rows), KeysOf(groups));
  }

  /** For rows whose columns were derived from their dates, the key order is
      the chronological order: earlier points are strictly earlier months. */
  lemma TimelineChronological(rows: seq<Row>, i: nat, j: nat, r1: Row, r2: Row)
    requires forall r :: r in rows ==> r == Derive(r.b)
    requires i < j < |Timeline(rows)| && r1 in rows && r2 in rows
    requires Timeline(rows)[i].yearMonth == r1.breachYearMonth && Timeline(rows)[j].yearMonth == r2.breachYearMonth
    ensures r1.breachYear < r2.breachYear || (r1.breachYear == r2.breachYear && r1.breachMonth < r2.breachMonth)
  {
    YearMonthKeyOrder(r1.b.breachDate, r2.b.breachDate);
    YearMonthKeyInjective(r1.b.breachDate, r2.b.breachDate);
  }

  // --------------------------------------------------------------- severity

  /** The classes counted as high-risk, as a list (a class listed twice on a
      breach counts twice). */
  const HighRiskClasses: seq<string> := [
    "Passwords", "Credit cards", "Social security numbers", "Financial data",
    "Health records", "Dates of birth", "Phone numbers", "Security questions and answers"]

  function CategoryScore(c: SizeCategory): nat {
    match c
    case Small => 1
    case Medium => 2
    case Large => 3
    case Massive => 4
  }

  /** The size score as written: `pd.cut` with labels 1..4 followed by
      `astype(int)`, which raises for the missing bin of a count of 0. */
  function SizeScoreAsWritten(pwnCount: nat): (s: Option<nat>)
    ensures s == None <==> pwnCount == 0
    ensures s.Some? ==> 1 <= s.value <= 4 && s.value == CategoryScore(SizeCategoryOf(pwnCount).value)
  {
    match Cut(pwnCount, SizeEdges, true)
    case None => None
    case Some(i) => Some(i + 1)
  }

  /** A breach with no affected account has no size score, so the severity
      table cannot be built for any selection containing it. */
  lemma SizeScoreUndefinedAtZero()
    ensures SizeScoreAsWritten(0) == None
    ensures forall p: nat :: p > 0 ==> SizeScoreAsWritten(p).Some?
  {
  }

  /** The size score with the lowest bin closed at 0: every count gets a score. */
  function SizeScore(pwnCount: nat): (s: nat)
    ensures 1 <= s <= 4
    ensures pwnCount > 0 ==> SizeScoreAsWritten(pwnCount) == Some(s)
    ensures pwnCount <= 10000 ==> s == 1
  {
    match SizeScoreAsWritten(pwnCount)
    case None => 1
    case Some(v) => v
  }

  /** More affected accounts never lower the size score. */
  lemma SizeScoreMonotone(a: nat, b: nat)
    requires a <= b
    ensures SizeScore(a) <= SizeScore(b)
  {
  }

  /** The number of high-risk items in a breach's class list, duplicates counted. */
  predicate IsHighRisk(c: string) {
    c in HighRiskClasses
  }

  function HighRiskCount(classes: seq<string>): (n: nat)
    ensures n == |Filter(classes, IsHighRisk)|
    ensures n <= |classes|
  {
    if classes == [] then 0
    else (if classes[0] in HighRiskClasses then 1 else 0) + HighRiskCount(classes[1..])
  }

  /** No high-risk item gives a count of 0; only high-risk items give the full length. */
  lemma {:induction false} HighRiskCountExtremes(classes: seq<string>)
    ensures HighRiskCount(classes) == 0 <==> forall c :: c in classes ==> !IsHighRisk(c)
    ensures HighRiskCount(classes) == |classes| <==> forall c :: c in classes ==> IsHighRisk(c)
  {
    if classes != [] {
      HighRiskCountExtremes(classes[1..]);
      assert forall c :: c in classes <==> c == classes[0] || c in classes[1..];
    }
  }

  datatype SeverityLevel = Low | Medium | High

  /** `pd.cut(score, bins=[0, 3, 6, 10])` into Low, Medium and High. */
  function SeverityLevelOf(score: int): (c: Option<SeverityLevel>)
    ensures c == None <==> score <= 0 || score > 10
    ensures c == Some(Low) <==> 0 < score <= 3
    ensures c == Some(SeverityLevel.Medium) <==> 3 < score <= 6
    ensures c == Some(High) <==> 6 < score <= 10
  {
    match Cut(score, [0, 3, 6, 10], false)
    case None => None
    case Some(i) => Some([Low, SeverityLevel.Medium, High][i])
  }

  /** A filtered row with its severity columns. */
  datatype SeverityRow = SeverityRow(
    row: Row,
    sizeScore: nat,
    sensitiveScore: nat,
    highRiskDataCount: nat,
    dataClassScore: nat,
    severityScore: nat,
    category: SeverityLevel)

  /** The severity columns of one row: every score lies in 1..10, the cap
      at 10 never changes it, and every score falls in a category. */
  function SeverityOf(r: Row): (s: SeverityRow)
    ensures s.row == r
    ensures s.sizeScore == SizeScore(r.b.pwnCount) && 1 <= s.sizeScore <= 4
    ensures s.sensitiveScore == (if r.b.isSensitive then 3 else 0)
    ensures s.highRiskDataCount == HighRiskCount(r.b.dataClasses)
    ensures s.dataClassScore == Min(s.highRiskDataCount, 3)
    ensures 1 <= s.severityScore <= 10
    ensures s.severityScore == s.sizeScore + s.sensitiveScore + s.dataClassScore
    ensures SeverityLevelOf(s.severityScore) == Some(s.category)
  {
    var size := SizeScore(r.b.pwnCount);
    var sensitive := if r.b.isSensitive then 3 else 0;
    var highRisk := HighRiskCount(r.b.dataClasses);
    var classScore := Min(highRisk, 3);
    var total := Min(size + sensitive + classScore, 10);
    var category := match SeverityLevelOf(total) case Some(c) => c case None => Low;
    SeverityRow(r, size, sensitive, highRisk, classScore, total, category)
  }

  /** The severity row of every breach, in table order. */
  function SeverityColumns(rows: seq<Row>): (t: seq<SeverityRow>)
    ensures |t| == |rows|
    ensures forall i :: 0 <= i < |rows| ==> t[i] == SeverityOf(rows[i])
  {
    if rows == [] then [] else [SeverityOf(rows[0])] + SeverityColumns(rows[1..])
  }

  /** `severity_df` as written: the size score's `astype(int)` raises for the
      whole table as soon as one selected breach has PwnCount 0; otherwise the
      table is the corrected one. */
  function SeverityTableAsWritten(rows: seq<Row>): (r: Result<seq<SeverityRow>, string>)
    ensures r.Failure? <==> exists x :: x in rows && x.b.pwnCount == 0
    ensures r.Success? ==> r.value == SeverityColumns(rows)
  {
    if rows == [] then Success([])
    else
      match SizeScoreAsWritten(rows[0].b.pwnCount)
      case None => Failure("ValueError: Cannot convert float NaN to integer")
      case Some(_) =>
        match SeverityTableAsWritten(rows[1..])
        case Failure(e) => Failure(e)
        case Success(rest) => Success([SeverityOf(rows[0])] + rest)
  }

  lemma {:induction false} SeverityColumnsAppend(a: seq<Row>, b: seq<Row>)
    ensures SeverityColumns(a + b) == SeverityColumns(a) + SeverityColumns(b)
  {
    if a == [] {
      assert a + b == b;
    } else {
      assert (a + b)[1..] == a[1..] + b;
      SeverityColumnsAppend(a[1..], b);
    }
  }

  lemma SeverityColumnsSnoc(rows: seq<Row>, i: nat)
    requires i < |rows|
    ensures SeverityColumns(rows[..i + 1]) == SeverityColumns(rows[..i]) + [SeverityOf(rows[i])]
  {
    assert rows[..i + 1] == rows[..i] + [rows[i]];
    SeverityColumnsAppend(rows[..i], [rows[i]]);
  }

  /** `severity_df`: a copy of the filtered rows gaining the score columns. */
  method SeverityTable(rows: seq<Row>) returns (t: seq<SeverityRow>)
    ensures t == SeverityColumns(rows)
  {
    t := [];
    var i := 0;
    while i < |rows|
      invariant 0 <= i <= |rows|
      invariant t == SeverityColumns(rows[..i])
    {
      SeverityColumnsSnoc(rows, i);
      t := t + [SeverityOf(rows[i])];
      i := i + 1;
    }
    assert rows[..|rows|] == rows;
  }

  function LevelsOf(t: seq<SeverityRow>): (ls: seq<SeverityLevel>)
    ensures |ls| == |t|
    ensures forall i :: 0 <= i < |t| ==> ls[i] == t[i].category
  {
    if t == [] then [] else [t[0].category] + LevelsOf(t[1..])
  }

  /** The levels of the `SeverityCategory` categorical, in declaration order. */
  const SeverityLevels: seq<SeverityLevel> := [Low, SeverityLevel.Medium, High]

  /** `SeverityCategory.value_counts()` of the categorical column: all three
      levels, absent ones with count 0, every row counted in its own level. */
  function SeverityDistribution(t: seq<SeverityRow>): (d: seq<(SeverityLevel, nat)>)
    ensures |d| == 3 && NoDup(KeysOf(d))
    ensures forall l: SeverityLevel :: l in KeysOf(d)
    ensures forall i :: 0 <= i < |d| ==> d[i].1 == Count(LevelsOf(t), d[i].0)
    ensures forall i, j :: 0 <= i < j < |d| ==> d[i].1 >= d[j].1
    ensures TotalCount(d) == |t|
  {
    assert forall l: SeverityLevel :: l in SeverityLevels by {
      forall l: SeverityLevel ensures l in SeverityLevels {
        assert l == SeverityLevels[0] || l == SeverityLevels[1] || l == SeverityLevels[2];
      }
    }
    CategoricalCounts(LevelsOf(t), SeverityLevels)
  }

  predicate IsHighSeverity(s: SeverityRow) {
    s.category == High
  }

  function ScoreOf(s: SeverityRow): int {
    s.severityScore
  }

  /** The High rows sorted by score, largest first, first ten. */
  function TopHighSeverity(t: seq<SeverityRow>): (h: seq<SeverityRow>)
    ensures |h| == Min(10, |Filter(t, IsHighSeverity)|)
    ensures multiset(h) <= multiset(Filter(t, IsHighSeverity))
    ensures forall s :: s in h ==> s in t && s.category == High
    ensures forall i, j :: 0 <= i < j < |h| ==> h[i].severityScore >= h[j].severityScore
    ensures forall s :: s in t && s.category == High && s !in h ==> forall y :: y in h ==> s.severityScore <= y.severityScore
  {
    NLargest(Filter(t, IsHighSeverity), 10, ScoreOf)
  }

  // ------------------------------------------------------- recent additions

  function AddedKey(r: Row): int {
    DayNumber(r.b.addedDate)
  }

  /** `sort_values('AddedDate', ascending=False).head(10)`: the ten most
      recently added breaches, newest first. */
  function RecentAdditions(rows: seq<Row>): (t: seq<Row>)
    ensures |t| == Min(10, |rows|)
    ensures multiset(t) <= multiset(rows)
    ensures forall i, j :: 0 <= i < j < |t| ==> OnOrBefore(t[j].b.addedDate, t[i].b.addedDate)
    ensures forall x, y :: x in rows && x !in t && y in t ==> OnOrBefore(x.b.addedDate, y.b.addedDate)
  {
    var t := NLargest(rows, 10, AddedKey);
    forall i, j | 0 <= i < j < |t| ensures OnOrBefore(t[j].b.addedDate, t[i].b.addedDate) {
      DayNumberOrder(t[j].b.addedDate, t[i].b.addedDate);
    }
    forall x, y | x in rows && x !in t && y in t ensures OnOrBefore(x.b.addedDate, y.b.addedDate) {
      DayNumberOrder(x.b.addedDate, y.b.addedDate);
    }
    t
  }

  // ------------------------------------------------------------- geography

  /** A row of the geographic table. */
  datatype GeoRow = GeoRow(name: string, domain: string, breachDate: CalendarDate, pwnCount: nat)

  predicate HasGeographicData(r: Row) {
    "Geographic locations" in r.b.dataClasses
  }

  function GeoOf(r: Row): GeoRow {
    GeoRow(r.b.name, r.b.domain, r.b.breachDate, r.b.pwnCount)
  }

  function GeoProjection(rows: seq<Row>): (g: seq<GeoRow>)
    ensures |g| == |rows|
    ensures forall i :: 0 <= i < |rows| ==> g[i] == GeoOf(rows[i])
  {
    if rows == [] then [] else GeoProjection(rows[..|rows| - 1]) + [GeoOf(rows[|rows| - 1])]
  }

  /** `geo_data`: the filtered breaches listing geographic locations, in table order. */
  method GeoRows(rows: seq<Row>) returns (geo: seq<GeoRow>)
    ensures geo == GeoProjection(Filter(rows, HasGeographicData))
    ensures forall g :: g in geo <==> exists r :: r in rows && HasGeographicData(r) && g == GeoOf(r)
  {
    geo := [];
    var i := 0;
    while i < |rows|
      invariant 0 <= i <= |rows|
      invariant geo == GeoProjection(Filter(rows[..i], HasGeographicData))
    {
      var row := rows[i];
      assert rows[..i + 1] == rows[..i] + [row];
      FilterAppend(rows[..i], row, HasGeographicData);
      if "Geographic locations" in row.b.dataClasses {
        GeoProjectionSnoc(Filter(rows[..i], HasGeographicData), row);
        geo := geo + [GeoRow(row.b.name, row.b.domain, row.b.breachDate, row.b.pwnCount)];
      }
      i := i + 1;
    }
    assert rows[..|rows|] == rows;
    GeoProjectionMembers(Filter(rows, HasGeographicData));
  }

  lemma GeoProjectionSnoc(selected: seq<Row>, r: Row)
    ensures GeoProjection(selected + [r]) == GeoProjection(selected) + [GeoOf(r)]
  {
    assert (selected + [r])[..|selected|] == selected;
  }

  lemma GeoProjectionMembers(selected: seq<Row>)
    ensures forall g :: g in GeoProjection(selected) <==> exists r :: r in selected && g == GeoOf(r)
  {
    var geo := GeoProjection(selected);
    forall g ensures g in geo <==> exists r :: r in selected && g == GeoOf(r) {
      if g in geo {
        var k :| 0 <= k < |geo| && geo[k] == g;
        assert selected[k] in selected;
      }
      if r :| r in selected && g == GeoOf(r) {
        var k :| 0 <= k < |selected| && selected[k] == r;
        assert geo[k] == g;
      }
    }
  }

  // ----------------------------------------------------------------- search

  predicate NameOrDomainMatches(r: Row, term: string) {
    ContainsIgnoringCase(r.b.name, term) || ContainsIgnoringCase(r.b.domain, term)
  }

  /** The names on exploded rows (of the whole table) whose class contains the term. */
  function ClassMatchNames(classRows: seq<ClassRow>, term: string): set<string> {
    set cr | cr in classRows && ContainsIgnoringCase(cr.dataClass, term) :: cr.row.b.name
  }

  /** The two result frames before de-duplication, concatenated. */
  function SearchCandidates(filtered: seq<Row>, classRows: seq<ClassRow>, term: string): (s: seq<Row>)
    ensures forall r :: r in s <==> r in filtered && (NameOrDomainMatches(r, term) || r.b.name in ClassMatchNames(classRows, term))
  {
    Filter(filtered, (r: Row) => NameOrDomainMatches(r, term))
      + Filter(filtered, (r: Row) => r.b.name in ClassMatchNames(classRows, term))
  }

  datatype SearchOutcome = NotRun | Results(rows: seq<Row>) | Raised

  /** The search as written: `drop_duplicates()` hashes every column, and the
      `DataClasses` cells are lists, which cannot be hashed; so any non-empty
      candidate frame raises, and only an empty one comes back. */
  function SearchAsWritten(filtered: seq<Row>, classRows: seq<ClassRow>, term: string): (o: SearchOutcome)
    ensures o == NotRun <==> term == ""
    ensures o == Raised <==> term != "" && exists r :: r in filtered && (NameOrDomainMatches(r, term) || r.b.name in ClassMatchNames(classRows, term))
    ensures o.Results? ==> o.rows == []
  {
    var candidates := SearchCandidates(filtered, classRows, term);
    assert |candidates| > 0 ==> candidates[0] in candidates;
    if term == "" then NotRun
    else if |candidates| == 0 then Results([])
    else Raised
  }

  /** The search with duplicates removed by record: the matching filtered
      breaches, each once, name and domain matches first. */
  function Search(filtered: seq<Row>, classRows: seq<ClassRow>, term: string): (o: SearchOutcome)
    ensures o == NotRun <==> term == ""
    ensures o != Raised
    ensures o.Results? ==> NoDup(o.rows)
    ensures o.Results? ==> forall r :: r in o.rows <==>
      r in filtered && (NameOrDomainMatches(r, term) || r.b.name in ClassMatchNames(classRows, term))
  {
    if term == "" then NotRun else Results(Distinct(SearchCandidates(filtered, classRows, term)))
  }

  /** Under unique names a filtered breach is found exactly when its name,
      its domain or one of its own classes contains the term. */
  lemma SearchMatchesIff(all: seq<Row>, filtered: seq<Row>, term: string)
    requires UniqueNames(all) && forall r :: r in filtered ==> r in all
    requires term != ""
    ensures forall r :: r in Search(filtered, Explode(all), term).rows <==>
      r in filtered && (ContainsIgnoringCase(r.b.name, term) || ContainsIgnoringCase(r.b.domain, term)
        || exists c :: c in r.b.dataClasses && ContainsIgnoringCase(c, term))
  {
    var names := ClassMatchNames(Explode(all), term);
    forall r | r in filtered
      ensures r.b.name in names <==> exists c :: c in r.b.dataClasses && ContainsIgnoringCase(c, term)
    {
      if r.b.name in names {
        var cr :| cr in Explode(all) && ContainsIgnoringCase(cr.dataClass, term) && cr.row.b.name == r.b.name;
        assert cr.row == r;
      }
      if c :| c in r.b.dataClasses && ContainsIgnoringCase(c, term) {
        assert ClassRow(r, c) in Explode(all);
      }
    }
  }

  /** A breach that matches makes the search as written raise, while the
      de-duplicated search lists it. */
  lemma SearchRaisesOnAnyMatch(filtered: seq<Row>, classRows: seq<ClassRow>, term: string, r: Row)
    requires term != "" && r in filtered && NameOrDomainMatches(r, term)
    ensures SearchAsWritten(filtered, classRows, term) == Raised
    ensures r in Search(filtered, classRows, term).rows
  {
  }
}
