/** Breach records and the columns `load_data` derives from them: the year,
    the month, the "YYYY-MM" key, the size category, and the table exploded
    into one row per (breach, data class). */
module Records {
  import opened Wrappers
  import opened Seqs
  import opened Dates

  /** One breach as listed in the input file. */
  datatype Breach = Breach(
    name: string,
    title: string,
    domain: string,
    breachDate: CalendarDate,
    addedDate: CalendarDate,
    modifiedDate: CalendarDate,
    pwnCount: nat,
    description: string,
    dataClasses: seq<string>,
    isVerified: bool,
    isSensitive: bool)

  datatype SizeCategory = Small | Medium | Large | Massive

  predicate StrictlyIncreasing(edges: seq<int>) {
    forall i, j :: 0 <= i < j < |edges| ==> edges[i] < edges[j]
  }

  /** `pd.cut(x, bins)` with right-closed bins (edges[i], edges[i+1]]; with
      `openTop` the last bin is (edges[last], infinity). Values outside every
      bin get no bin (NaN). */
  function Cut(x: int, edges: seq<int>, openTop: bool): (r: Option<nat>)
    requires |edges| >= 1 && StrictlyIncreasing(edges)
    ensures r.Some? <==> edges[0] < x && (openTop || x <= edges[|edges| - 1])
    ensures r.Some? ==> r.value < (if openTop then |edges| else |edges| - 1)
    ensures r.Some? ==> edges[r.value] < x && (r.value + 1 < |edges| ==> x <= edges[r.value + 1])
    decreases |edges|
  {
    if x <= edges[0] then None
    else if |edges| == 1 then (if openTop then Some(0) else None)
    else if x <= edges[1] then Some(0)
    else
      match Cut(x, edges[1..], openTop)
      case None => None
      case Some(i) => Some(i + 1)
  }

  /** The finite edges of the size bins; the last bin has no upper edge. */
  const SizeEdges: seq<int> := [0, 10000, 1000000, 50000000]

  /** The size category of a breach; a count of 0 lies in no bin. */
  function SizeCategoryOf(pwnCount: int): (c: Option<SizeCategory>)
    ensures c == None <==> pwnCount <= 0
    ensures c == Some(Small) <==> 0 < pwnCount <= 10000
    ensures c == Some(Medium) <==> 10000 < pwnCount <= 1000000
    ensures c == Some(Large) <==> 1000000 < pwnCount <= 50000000
    ensures c == Some(Massive) <==> 50000000 < pwnCount
  {
    match Cut(pwnCount, SizeEdges, true)
    case None => None
    case Some(i) => Some([Small, Medium, Large, Massive][i])
  }

  function SizeLabel(c: SizeCategory): string {
    match c
    case Small => "Small (<10k)"
    case Medium => "Medium (10k-1M)"
    case Large => "Large (1M-50M)"
    case Massive => "Massive (>50M)"
  }

  /** The category column after `.astype(str)`: a missing category becomes the text "nan". */
  function SizeText(c: Option<SizeCategory>): (s: string)
    ensures c == None <==> s == "nan"
  {
    match c
    case None => "nan"
    case Some(k) => SizeLabel(k)
  }

  /** The category column of the pages that convert it to text right after
      `pd.cut`: the bin labels, and "nan" for a count of 0. */
  function SizeCategoryText(pwnCount: int): (s: string)
    ensures s == "nan" <==> pwnCount <= 0
    ensures s == "Small (<10k)" <==> 0 < pwnCount <= 10000
    ensures s == "Medium (10k-1M)" <==> 10000 < pwnCount <= 1000000
    ensures s == "Large (1M-50M)" <==> 1000000 < pwnCount <= 50000000
    ensures s == "Massive (>50M)" <==> 50000000 < pwnCount
  {
    var c := SizeCategoryOf(pwnCount);
    SizeTextInjective(c, None);
    SizeTextInjective(c, Some(Small));
    SizeTextInjective(c, Some(Medium));
    SizeTextInjective(c, Some(Large));
    SizeTextInjective(c, Some(Massive));
    SizeText(c)
  }

  /** The text column loses no information: distinct categories keep distinct texts. */
  lemma SizeTextInjective(a: Option<SizeCategory>, b: Option<SizeCategory>)
    ensures SizeText(a) == SizeText(b) <==> a == b
  {
    if a != b && a.Some? && b.Some? {
      var x, y := SizeLabel(a.value), SizeLabel(b.value);
      assert |x| != |y| || x[0] != y[0];
    }
  }

  type MonthNumber = m: int | 1 <= m <= 12 witness 1

  /** A breach with the columns `load_data` adds to it. */
  datatype Row = Row(
    b: Breach,
    breachYear: int,
    breachMonth: MonthNumber,
    breachYearMonth: string,
    sizeCategory: Option<SizeCategory>)

  /** The derived columns of one breach. */
  function Derive(b: Breach): (r: Row)
    ensures r.b == b
    ensures ParseYearMonth(r.breachYearMonth) == Some((r.breachYear, r.breachMonth))
    ensures r.breachYear == b.breachDate.year && r.breachMonth == b.breachDate.month
    ensures r.sizeCategory == SizeCategoryOf(b.pwnCount)
  {
    YearMonthRoundTrip(b.breachDate);
    Row(b, b.breachDate.year, b.breachDate.month, YearMonthKey(b.breachDate), SizeCategoryOf(b.pwnCount))
  }

  /** One row of the exploded table: a breach paired with one of its data classes. */
  datatype ClassRow = ClassRow(row: Row, dataClass: string)

  function ExplodeRow(r: Row): (cs: seq<ClassRow>)
    ensures |cs| == |r.b.dataClasses|
    ensures forall i :: 0 <= i < |cs| ==> cs[i] == ClassRow(r, r.b.dataClasses[i])
  {
    seq(|r.b.dataClasses|, i requires 0 <= i < |r.b.dataClasses| => ClassRow(r, r.b.dataClasses[i]))
  }

  /** `explode('DataClasses')`: every breach repeated once per data class, in
      table order; a breach without classes contributes no row. */
  function Explode(rows: seq<Row>): (cs: seq<ClassRow>)
    ensures forall cr :: cr in cs <==> cr.row in rows && cr.dataClass in cr.row.b.dataClasses
  {
    if rows == [] then []
    else
      var last := rows[|rows| - 1];
      assert rows == rows[..|rows| - 1] + [last];
      assert forall cr: ClassRow :: cr in ExplodeRow(last) <==> cr.row == last && cr.dataClass in last.b.dataClasses by {
        forall cr: ClassRow | cr.row == last && cr.dataClass in last.b.dataClasses
          ensures cr in ExplodeRow(last)
        {
          var i :| 0 <= i < |last.b.dataClasses| && last.b.dataClasses[i] == cr.dataClass;
          assert ExplodeRow(last)[i] == cr;
        }
      }
      Explode(rows[..|rows| - 1]) + ExplodeRow(last)
  }

  lemma ExplodeSnoc(rows: seq<Row>, r: Row)
    ensures Explode(rows + [r]) == Explode(rows) + ExplodeRow(r)
  {
    assert (rows + [r])[..|rows|] == rows;
  }

  lemma ExplodeRowPrefix(r: Row, j: nat)
    requires j < |r.b.dataClasses|
    ensures ExplodeRow(r)[..j + 1] == ExplodeRow(r)[..j] + [ClassRow(r, r.b.dataClasses[j])]
  {
  }

  lemma ExplodePrefix(df: seq<Row>, i: nat)
    requires i < |df|
    ensures Explode(df[..i + 1]) == Explode(df[..i]) + ExplodeRow(df[i])[..|df[i].b.dataClasses|]
  {
    assert df[..i + 1] == df[..i] + [df[i]];
    ExplodeSnoc(df[..i], df[i]);
    assert ExplodeRow(df[i])[..|df[i].b.dataClasses|] == ExplodeRow(df[i]);
  }

  /** The number of (breach, class) entries of a table. */
  function ClassEntries(rows: seq<Row>): nat {
    if rows == [] then 0 else ClassEntries(rows[..|rows| - 1]) + |rows[|rows| - 1].b.dataClasses|
  }

  lemma {:induction false} ExplodeLength(rows: seq<Row>)
    ensures |Explode(rows)| == ClassEntries(rows)
  {
    if rows != [] {
      ExplodeLength(rows[..|rows| - 1]);
    }
  }

  function NamesOf(rows: seq<Row>): set<string> {
    set r | r in rows :: r.b.name
  }

  /** No two different breaches share a name. */
  predicate UniqueNames(rows: seq<Row>) {
    forall x, y :: x in rows && y in rows && x.b.name == y.b.name ==> x == y
  }

  /** `classRows[classRows['Name'].isin(rows['Name'])]`. */
  function RestrictToNames(classRows: seq<ClassRow>, rows: seq<Row>): (cs: seq<ClassRow>)
    ensures IsSubsequence(cs, classRows)
    ensures forall cr :: cr in cs <==> cr in classRows && cr.row.b.name in NamesOf(rows)
    ensures forall cr :: Count(cs, cr) == if cr.row.b.name in NamesOf(rows) then Count(classRows, cr) else 0
  {
    FilterIsSubsequence(classRows, (cr: ClassRow) => cr.row.b.name in NamesOf(rows));
    forall cr ensures Count(Filter(classRows, (cr: ClassRow) => cr.row.b.name in NamesOf(rows)), cr)
        == if cr.row.b.name in NamesOf(rows) then Count(classRows, cr) else 0 {
      FilterCount(classRows, (cr: ClassRow) => cr.row.b.name in NamesOf(rows), cr);
    }
    Filter(classRows, (cr: ClassRow) => cr.row.b.name in NamesOf(rows))
  }

  /** The restricted class rows and the filtered breaches agree in membership:
      every class row names a kept breach and every class of a kept breach
      has its row. */
  lemma RestrictAgrees(all: seq<Row>, rows: seq<Row>)
    requires forall r :: r in rows ==> r in all
    ensures forall cr :: cr in RestrictToNames(Explode(all), rows) ==> exists r :: r in rows && r.b.name == cr.row.b.name
    ensures forall r, c :: r in rows && c in r.b.dataClasses ==> ClassRow(r, c) in RestrictToNames(Explode(all), rows)
  {
    forall r, c | r in rows && c in r.b.dataClasses
      ensures ClassRow(r, c) in RestrictToNames(Explode(all), rows)
    {
      assert r.b.name in NamesOf(rows);
    }
  }

  /** Under unique names the restriction keeps exactly the class rows of the kept breaches. */
  lemma RestrictExactly(all: seq<Row>, rows: seq<Row>)
    requires UniqueNames(all) && forall r :: r in rows ==> r in all
    ensures forall cr :: cr in RestrictToNames(Explode(all), rows) <==> cr.row in rows && cr.dataClass in cr.row.b.dataClasses
  {
    forall cr | cr in RestrictToNames(Explode(all), rows)
      ensures cr.row in rows
    {
      var r :| r in rows && r.b.name == cr.row.b.name;
    }
    RestrictAgrees(all, rows);
  }

  /** The column assignments of `load_data`, row by row. */
  method DeriveColumns(raw: seq<Breach>) returns (df: seq<Row>)
    ensures |df| == |raw| && forall i :: 0 <= i < |raw| ==> df[i] == Derive(raw[i])
  {
    df := [];
    var i := 0;
    while i < |raw|
      invariant 0 <= i <= |raw|
      invariant |df| == i && forall k :: 0 <= k < i ==> df[k] == Derive(raw[k])
    {
      var b := raw[i];
      df := df + [Row(b, b.breachDate.year, b.breachDate.month, YearMonthKey(b.breachDate), SizeCategoryOf(b.pwnCount))];
      i := i + 1;
    }
  }

  /** `explode('DataClasses')`, row by row. */
  method ExplodeTable(df: seq<Row>) returns (classRows: seq<ClassRow>)
    ensures classRows == Explode(df)
  {
    classRows := [];
    var i := 0;
    while i < |df|
      invariant 0 <= i <= |df|
      invariant classRows == Explode(df[..i])
    {
      var classes := df[i].b.dataClasses;
      var j := 0;
      while j < |classes|
        invariant 0 <= j <= |classes|
        invariant classRows == Explode(df[..i]) + ExplodeRow(df[i])[..j]
      {
        ExplodeRowPrefix(df[i], j);
        classRows := classRows + [ClassRow(df[i], classes[j])];
        j := j + 1;
      }
      ExplodePrefix(df, i);
      i := i + 1;
    }
    assert df[..|df|] == df;
  }

  /** `load_data`: adds the derived columns to every breach, then explodes the table. */
  method LoadData(raw: seq<Breach>) returns (df: seq<Row>, classRows: seq<ClassRow>)
    ensures |df| == |raw| && forall i :: 0 <= i < |raw| ==> df[i] == Derive(raw[i])
    ensures classRows == Explode(df)
  {
    df := DeriveColumns(raw);
    classRows := ExplodeTable(df);
  }
}
