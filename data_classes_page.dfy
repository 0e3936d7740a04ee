/** The data-classes page: a date filter, class counts as percentages of the
    number of breaches, sorted class combinations, (year, class) counts and
    the page's insights. */
module DataClassesPage {
  import opened Wrappers
  import opened Seqs
  import opened Sorting
  import opened Tables
  import opened Strings
  import opened Dates
  import opened Records
  import opened Filters
  import opened Analysis

  /** The page's date filter and the restriction of the exploded rows. */
  method PageFilters(df: seq<Row>, classRows: seq<ClassRow>, dateRange: seq<CalendarDate>)
    returns (filtered: seq<Row>, filteredClassRows: seq<ClassRow>)
    ensures IsSubsequence(filtered, df)
    ensures |dateRange| != 2 ==> filtered == df
    ensures |dateRange| == 2 ==> forall r :: r in filtered <==> r in df && InDateRange(r, dateRange[0], dateRange[1])
    ensures filteredClassRows == RestrictToNames(classRows, filtered)
    ensures forall cr :: cr in filteredClassRows <==> cr in classRows && cr.row.b.name in NamesOf(filtered)
    ensures IsSubsequence(filteredClassRows, classRows)
  {
    filtered := DateStep(df, dateRange);
    filteredClassRows := RestrictToNames(classRows, filtered);
  }

  /** Every class with its count and the count as a percentage of the number
      of filtered breaches (not of the sum of the counts). */
  function ClassShares(classes: seq<string>, breaches: nat): (s: seq<(string, Fraction)>)
    ensures NoDup(KeysOf(s)) && |s| == |Distinct(classes)|
    ensures forall c :: c in KeysOf(s) <==> c in classes
    ensures forall i :: 0 <= i < |s| ==> s[i].1 == Percent(Count(classes, s[i].0), breaches)
    ensures forall i, j :: 0 <= i < j < |s| ==> Count(classes, s[i].0) >= Count(classes, s[j].0)
    ensures breaches > 0 ==> ShareNumerators(s) == 100 * |classes|
  {
    var counts := ValueCounts(classes);
    ValueCountsLength(classes);
    assert breaches > 0 ==> ShareNumerators(ShareTable(counts, breaches)) == 100 * TotalCount(counts) by {
      if breaches > 0 {
        SharesSum(counts, breaches);
      }
    }
    ShareTable(counts, breaches)
  }

  /** `', '.join(sorted(DataClasses))`. */
  function CombinationKey(classes: seq<string>): string {
    StrLeIsTotalOrder();
    Join(Sort(classes, StrLe), ", ")
  }

  /** The combination key ignores the order in which a breach lists its classes. */
  lemma CombinationKeyIgnoresOrder(a: seq<string>, b: seq<string>)
    requires multiset(a) == multiset(b)
    ensures CombinationKey(a) == CombinationKey(b)
  {
    StrLeIsTotalOrder();
    SortedPermutationsEqual(Sort(a, StrLe), Sort(b, StrLe), StrLe);
  }

  function CombinationKeys(rows: seq<Row>): (ks: seq<string>)
    ensures |ks| == |rows|
    ensures forall i :: 0 <= i < |rows| ==> ks[i] == CombinationKey(rows[i].b.dataClasses)
  {
    if rows == [] then [] else [CombinationKey(rows[0].b.dataClasses)] + CombinationKeys(rows[1..])
  }

  /** The ten most frequent combinations, most frequent first, each with the
      number of breaches having it. */
  function TopCombinations(rows: seq<Row>): (t: seq<(string, nat)>)
    ensures |t| == Min(10, |Distinct(CombinationKeys(rows))|)
    ensures |rows| > 0 ==> |t| > 0
    ensures NoDup(KeysOf(t))
    ensures forall i :: 0 <= i < |t| ==> t[i].1 == Count(CombinationKeys(rows), t[i].0) > 0
    ensures forall i, j :: 0 <= i < j < |t| ==> t[i].1 >= t[j].1
    ensures forall r, i :: r in rows && CombinationKey(r.b.dataClasses) !in KeysOf(t) && 0 <= i < |t| ==>
      Count(CombinationKeys(rows), CombinationKey(r.b.dataClasses)) <= t[i].1
  {
    var t := TopCounts(CombinationKeys(rows));
    assert forall r :: r in rows ==> CombinationKey(r.b.dataClasses) in CombinationKeys(rows) by {
      forall r | r in rows ensures CombinationKey(r.b.dataClasses) in CombinationKeys(rows) {
        var i :| 0 <= i < |rows| && rows[i] == r;
        assert CombinationKeys(rows)[i] == CombinationKey(r.b.dataClasses);
      }
    }
    t
  }

  /** The (year, class) key of every exploded row. */
  function YearClassKeys(classRows: seq<ClassRow>): (ks: seq<(int, string)>)
    ensures |ks| == |classRows|
    ensures forall i :: 0 <= i < |classRows| ==> ks[i] == (classRows[i].row.b.breachDate.year, classRows[i].dataClass)
  {
    if classRows == [] then []
    else [(classRows[0].row.b.breachDate.year, classRows[0].dataClass)] + YearClassKeys(classRows[1..])
  }

  /** `filtered_data_classes_df['Year'] = ...`: the year column, row by row. */
  method AddYearColumn(classRows: seq<ClassRow>) returns (keys: seq<(int, string)>)
    ensures keys == YearClassKeys(classRows)
  {
    keys := [];
    var i := 0;
    while i < |classRows|
      invariant 0 <= i <= |classRows|
      invariant keys == YearClassKeys(classRows[..i])
    {
      YearClassKeysSnoc(classRows[..i], classRows[i]);
      assert classRows[..i + 1] == classRows[..i] + [classRows[i]];
      keys := keys + [(classRows[i].row.b.breachDate.year, classRows[i].dataClass)];
      i := i + 1;
    }
    assert classRows[..|classRows|] == classRows;
  }

  lemma YearClassKeysSnoc(classRows: seq<ClassRow>, cr: ClassRow)
    ensures YearClassKeys(classRows + [cr]) == YearClassKeys(classRows) + [(cr.row.b.breachDate.year, cr.dataClass)]
  {
  }

  /** `groupby(['Year', 'DataClasses']).size()`: keys in (year, class) order,
      each count the number of rows with that year and class, counts adding
      up to the number of exploded rows. */
  function TemporalCounts(classRows: seq<ClassRow>): (t: seq<((int, string), nat)>)
    ensures NoDup(KeysOf(t))
    ensures SortedBy(KeysOf(t), PairLe)
    ensures forall k :: k in KeysOf(t) <==> k in YearClassKeys(classRows)
    ensures forall i :: 0 <= i < |t| ==> t[i].1 == Count(YearClassKeys(classRows), t[i].0) > 0
    ensures TotalCount(t) == |classRows|
  {
    PairLeIsTotalPreorder();
    GroupSizes(YearClassKeys(classRows), PairLe)
  }

  /** The page's insight figures; the average is `typesListed / breaches`. */
  datatype ClassInsights = ClassInsights(
    mostCommonClass: string,
    mostCommonCount: nat,
    mostCommonShare: Fraction,
    uniqueTypes: nat,
    mostCommonCombination: string,
    combinationCount: nat,
    typesListed: nat,
    breaches: nat)

  /** The insights as written: the heads of the two tables are taken without
      a guard, so a selection without class rows raises. */
  function PageInsights(rows: seq<Row>, classRows: seq<ClassRow>): (r: Result<ClassInsights, string>)
    ensures r.Failure? <==> |classRows| == 0 || |rows| == 0
    ensures r.Success? ==> r.value.mostCommonClass in ClassesOf(classRows)
    ensures r.Success? ==> forall c :: c in ClassesOf(classRows) ==> Count(ClassesOf(classRows), c) <= r.value.mostCommonCount
    ensures r.Success? ==> r.value.mostCommonCount == Count(ClassesOf(classRows), r.value.mostCommonClass)
    ensures r.Success? ==> r.value.mostCommonShare == Percent(r.value.mostCommonCount, |rows|)
    ensures r.Success? ==> r.value.uniqueTypes == |Distinct(ClassesOf(classRows))|
    ensures r.Success? ==> r.value.combinationCount == Count(CombinationKeys(rows), r.value.mostCommonCombination) > 0
    ensures r.Success? ==> forall x :: x in rows ==>
      Count(CombinationKeys(rows), CombinationKey(x.b.dataClasses)) <= r.value.combinationCount
    ensures r.Success? ==> r.value.typesListed == ClassEntries(rows) && r.value.breaches == |rows| > 0
  {
    var classes := ClassesOf(classRows);
    var counts := ValueCounts(classes);
    var combos := TopCombinations(rows);
    if |counts| == 0 || |combos| == 0 then
      Failure("IndexError: single positional indexer is out-of-bounds")
    else
      var mostCommon := MostCommonClass(classes);
      NoDupSameElements(KeysOf(counts), Distinct(classes));
      CombinationHeadIsMostFrequent(rows);
      Success(ClassInsights(mostCommon, Count(classes, mostCommon), Percent(Count(classes, mostCommon), |rows|),
        |counts|, combos[0].0, combos[0].1, ClassEntries(rows), |rows|))
  }

  lemma CombinationHeadIsMostFrequent(rows: seq<Row>)
    requires |rows| > 0
    ensures forall x :: x in rows ==>
      Count(CombinationKeys(rows), CombinationKey(x.b.dataClasses)) <= TopCombinations(rows)[0].1
  {
    var t := TopCombinations(rows);
    forall x | x in rows ensures Count(CombinationKeys(rows), CombinationKey(x.b.dataClasses)) <= t[0].1 {
      var k := CombinationKey(x.b.dataClasses);
      if k in KeysOf(t) {
        var i := KeyAt(t, k);
        assert i == 0 || t[i].1 <= t[0].1;
      }
    }
  }
}
