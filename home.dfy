/** The home page: the same records with a text size column, four filters,
    the class percentages relative to the shown ten, and insights computed
    without guards. */
module Home {
  import opened Wrappers
  import opened Seqs
  import opened Tables
  import opened Dates
  import opened Records
  import opened Filters
  import opened Analysis

  /** The conjunction of the home page's sidebar tests. */
  predicate PassesHomeFilters(r: Row, dateRange: seq<CalendarDate>, verification: seq<string>,
                              sensitivity: seq<string>, sizes: seq<string>) {
    && (|dateRange| == 2 ==> InDateRange(r, dateRange[0], dateRange[1]))
    && FlagAdmits(verification, "Verified", "Unverified", r.b.isVerified)
    && FlagAdmits(sensitivity, "Sensitive", "Non-Sensitive", r.b.isSensitive)
    && (|sizes| > 0 ==> SizeText(r.sizeCategory) in sizes)
  }

  /** The home page's filter chain, then the restriction of the exploded rows. */
  method HomeFilters(df: seq<Row>, classRows: seq<ClassRow>, dateRange: seq<CalendarDate>,
                     verification: seq<string>, sensitivity: seq<string>, sizes: seq<string>)
    returns (filtered: seq<Row>, filteredClassRows: seq<ClassRow>)
    ensures IsSubsequence(filtered, df)
    ensures forall r :: r in filtered <==> r in df && PassesHomeFilters(r, dateRange, verification, sensitivity, sizes)
    ensures filteredClassRows == RestrictToNames(classRows, filtered)
    ensures forall cr :: cr in filteredClassRows <==> cr in classRows && cr.row.b.name in NamesOf(filtered)
    ensures IsSubsequence(filteredClassRows, classRows)
  {
    filtered := DateStep(df, dateRange);
    ghost var previous := filtered;
    filtered := VerificationStep(filtered, verification);
    SubsequenceTrans(filtered, previous, df);
    previous := filtered;
    filtered := SensitivityStep(filtered, sensitivity);
    SubsequenceTrans(filtered, previous, df);
    previous := filtered;
    filtered := SizeTextStep(filtered, sizes);
    SubsequenceTrans(filtered, previous, df);
    filteredClassRows := RestrictToNames(classRows, filtered);
  }

  /** The insights as written: the head of the class counts and `idxmax` are
      taken without a guard, so an empty selection raises instead of
      producing figures. */
  function HomeInsights(rows: seq<Row>, classRows: seq<ClassRow>, currentYear: int): (r: Result<Insights, string>)
    ensures r.Failure? <==> |classRows| == 0 || |rows| == 0
    ensures r.Success? ==> r.value.mostCommonClass in ClassesOf(classRows)
    ensures r.Success? ==> forall c :: c in ClassesOf(classRows) ==>
      Count(ClassesOf(classRows), c) <= Count(ClassesOf(classRows), r.value.mostCommonClass)
    ensures r.Success? ==> r.value.largestName == rows[FirstArgMax(rows, PwnOf)].b.name
    ensures r.Success? ==> forall x :: x in rows ==> x.b.pwnCount <= r.value.largestCount
    ensures r.Success? ==> r.value.largestCount == rows[FirstArgMax(rows, PwnOf)].b.pwnCount
    ensures r.Success? ==> (r.value.trend == Increasing <==> RecentCount(rows, currentYear) > PreviousCount(rows, currentYear))
  {
    var counts := ValueCounts(ClassesOf(classRows));
    if |counts| == 0 then
      Failure("IndexError: single positional indexer is out-of-bounds")
    else if |rows| == 0 then
      Failure("ValueError: attempt to get argmax of an empty sequence")
    else
      var largest := LargestByIdxMax(rows);
      Success(Insights(MostCommonClass(ClassesOf(classRows)), largest.0, largest.1, TrendOf(rows, currentYear)))
  }

  /** The exploded rows of a selection are empty whenever the selection is,
      so the unguarded insights fail exactly when no class row survives. */
  lemma HomeInsightsFailOnEmptyClasses(all: seq<Row>, rows: seq<Row>, currentYear: int)
    ensures HomeInsights(rows, RestrictToNames(Explode(all), rows), currentYear).Failure?
      <==> |RestrictToNames(Explode(all), rows)| == 0
  {
    if |rows| == 0 {
      assert NamesOf(rows) == {};
    }
  }

  /** Whenever the unguarded insights succeed they agree with the guarded ones. */
  lemma HomeInsightsAgreeWhenDefined(rows: seq<Row>, classRows: seq<ClassRow>, currentYear: int)
    requires HomeInsights(rows, classRows, currentYear).Success?
    ensures HomeInsights(rows, classRows, currentYear).value == GuardedInsights(rows, classRows, currentYear)
  {
  }
}
