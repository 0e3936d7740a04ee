/** The sidebar filter steps. Each one keeps, in table order, the rows of its
    input that pass one test; the pages chain different subsets of them. */
module Filters {
  import opened Wrappers
  import opened Seqs
  import opened Dates
  import opened Records

  predicate InDateRange(r: Row, start: CalendarDate, end: CalendarDate) {
    OnOrBefore(start, r.b.breachDate) && OnOrBefore(r.b.breachDate, end)
  }

  /** The date-range step: applied only when the widget returned two dates,
      and then inclusive at both ends. */
  function DateStep(rows: seq<Row>, range: seq<CalendarDate>): (out: seq<Row>)
    ensures IsSubsequence(out, rows)
    ensures |range| != 2 ==> out == rows
    ensures |range| == 2 ==> forall r :: r in out <==> r in rows && InDateRange(r, range[0], range[1])
  {
    if |range| == 2 then
      FilterIsSubsequence(rows, (r: Row) => InDateRange(r, range[0], range[1]));
      Filter(rows, (r: Row) => InDateRange(r, range[0], range[1]))
    else
      SubsequenceRefl(rows);
      rows
  }

  /** A two-option multiselect over a boolean column: an empty selection or one
      holding both labels keeps every row, a single label keeps the rows whose
      flag matches it. */
  function FlagStep(rows: seq<Row>, selection: seq<string>, onLabel: string, offLabel: string, flag: Row -> bool): (out: seq<Row>)
    ensures IsSubsequence(out, rows)
    ensures (onLabel in selection) == (offLabel in selection) ==> out == rows
    ensures onLabel in selection && offLabel !in selection ==> forall r :: r in out <==> r in rows && flag(r)
    ensures offLabel in selection && onLabel !in selection ==> forall r :: r in out <==> r in rows && !flag(r)
  {
    SubsequenceRefl(rows);
    FilterIsSubsequence(rows, flag);
    FilterIsSubsequence(rows, (r: Row) => !flag(r));
    if |selection| == 0 then rows
    else if onLabel in selection && offLabel in selection then rows
    else if onLabel in selection then Filter(rows, flag)
    else if offLabel in selection then Filter(rows, (r: Row) => !flag(r))
    else rows
  }

  /** Whether a two-option multiselect lets a row with flag `v` through. */
  predicate FlagAdmits(selection: seq<string>, onLabel: string, offLabel: string, v: bool) {
    if (onLabel in selection) == (offLabel in selection) then true
    else if onLabel in selection then v
    else !v
  }

  /** The "Verification Status" step. */
  function VerificationStep(rows: seq<Row>, selection: seq<string>): (out: seq<Row>)
    ensures IsSubsequence(out, rows)
    ensures ("Verified" in selection) == ("Unverified" in selection) ==> out == rows
    ensures "Verified" in selection && "Unverified" !in selection ==> forall r :: r in out <==> r in rows && r.b.isVerified
    ensures "Unverified" in selection && "Verified" !in selection ==> forall r :: r in out <==> r in rows && !r.b.isVerified
  {
    FlagStep(rows, selection, "Verified", "Unverified", (r: Row) => r.b.isVerified)
  }

  /** The "Sensitivity Status" step. */
  function SensitivityStep(rows: seq<Row>, selection: seq<string>): (out: seq<Row>)
    ensures IsSubsequence(out, rows)
    ensures ("Sensitive" in selection) == ("Non-Sensitive" in selection) ==> out == rows
    ensures "Sensitive" in selection && "Non-Sensitive" !in selection ==> forall r :: r in out <==> r in rows && r.b.isSensitive
    ensures "Non-Sensitive" in selection && "Sensitive" !in selection ==> forall r :: r in out <==> r in rows && !r.b.isSensitive
  {
    FlagStep(rows, selection, "Sensitive", "Non-Sensitive", (r: Row) => r.b.isSensitive)
  }

  /** The size step on the categorical column: a non-empty selection keeps the
      rows whose category (possibly the missing one) is selected. */
  function SizeStep(rows: seq<Row>, selection: seq<Option<SizeCategory>>): (out: seq<Row>)
    ensures IsSubsequence(out, rows)
    ensures |selection| == 0 ==> out == rows
    ensures |selection| > 0 ==> forall r :: r in out <==> r in rows && r.sizeCategory in selection
  {
    SubsequenceRefl(rows);
    FilterIsSubsequence(rows, (r: Row) => r.sizeCategory in selection);
    if |selection| == 0 then rows else Filter(rows, (r: Row) => r.sizeCategory in selection)
  }

  /** The size step on the text column: a non-empty selection keeps the rows
      whose category text is selected. */
  function SizeTextStep(rows: seq<Row>, selection: seq<string>): (out: seq<Row>)
    ensures IsSubsequence(out, rows)
    ensures |selection| == 0 ==> out == rows
    ensures |selection| > 0 ==> forall r :: r in out <==> r in rows && SizeText(r.sizeCategory) in selection
  {
    SubsequenceRefl(rows);
    FilterIsSubsequence(rows, (r: Row) => SizeText(r.sizeCategory) in selection);
    if |selection| == 0 then rows else Filter(rows, (r: Row) => SizeText(r.sizeCategory) in selection)
  }

  function SizeTexts(selection: seq<Option<SizeCategory>>): (ts: seq<string>)
    ensures |ts| == |selection|
    ensures forall i :: 0 <= i < |selection| ==> ts[i] == SizeText(selection[i])
  {
    if selection == [] then [] else [SizeText(selection[0])] + SizeTexts(selection[1..])
  }

  /** Filtering on the text column selects the same rows, in the same order,
      as filtering on the categories the texts name. */
  lemma SizeTextStepAgrees(rows: seq<Row>, selection: seq<Option<SizeCategory>>)
    ensures SizeTextStep(rows, SizeTexts(selection)) == SizeStep(rows, selection)
  {
    var ts := SizeTexts(selection);
    forall r: Row
      ensures (SizeText(r.sizeCategory) in ts) == (r.sizeCategory in selection)
    {
      if SizeText(r.sizeCategory) in ts {
        var i :| 0 <= i < |ts| && ts[i] == SizeText(r.sizeCategory);
        SizeTextInjective(selection[i], r.sizeCategory);
      }
    }
    FilterExt(rows, (r: Row) => SizeText(r.sizeCategory) in ts, (r: Row) => r.sizeCategory in selection);
  }

  /** The default size selection (every text occurring in the full table, with
      "nan" kept because it is a string and not a missing value) keeps every row. */
  lemma DefaultSizeSelectionKeepsAll(all: seq<Row>, rows: seq<Row>)
    requires forall r :: r in rows ==> r in all
    ensures SizeTextStep(rows, Distinct(SizeTextsOf(all))) == rows
  {
    var options := Distinct(SizeTextsOf(all));
    forall r | r in rows ensures SizeText(r.sizeCategory) in options {
      var i :| 0 <= i < |all| && all[i] == r;
    }
    if |options| > 0 {
      FilterKeepsAll(rows, (r: Row) => SizeText(r.sizeCategory) in options);
    }
  }

  /** The category texts of a table, row by row. */
  function SizeTextsOf(rows: seq<Row>): (ts: seq<string>)
    ensures |ts| == |rows|
    ensures forall i :: 0 <= i < |rows| ==> ts[i] == SizeText(rows[i].sizeCategory)
  {
    if rows == [] then [] else [SizeText(rows[0].sizeCategory)] + SizeTextsOf(rows[1..])
  }

  /** The names of the breaches owning an exploded row with a selected class. */
  function SelectedNames(classRows: seq<ClassRow>, selected: seq<string>): set<string> {
    set cr | cr in classRows && cr.dataClass in selected :: cr.row.b.name
  }

  /** The data-class step: a non-empty selection keeps the rows whose name
      appears on an exploded row with a selected class. */
  function ClassStep(rows: seq<Row>, classRows: seq<ClassRow>, selected: seq<string>): (out: seq<Row>)
    ensures IsSubsequence(out, rows)
    ensures |selected| == 0 ==> out == rows
    ensures |selected| > 0 ==> forall r :: r in out <==> r in rows && r.b.name in SelectedNames(classRows, selected)
  {
    SubsequenceRefl(rows);
    FilterIsSubsequence(rows, (r: Row) => r.b.name in SelectedNames(classRows, selected));
    if |selected| == 0 then rows else Filter(rows, (r: Row) => r.b.name in SelectedNames(classRows, selected))
  }

  /** With unique names, the data-class step keeps exactly the rows having at
      least one selected class. */
  lemma ClassStepAny(all: seq<Row>, rows: seq<Row>, selected: seq<string>)
    requires UniqueNames(all) && forall r :: r in rows ==> r in all
    requires |selected| > 0
    ensures forall r :: r in ClassStep(rows, Explode(all), selected) <==>
      r in rows && exists c :: c in r.b.dataClasses && c in selected
  {
    var names := SelectedNames(Explode(all), selected);
    forall r | r in rows
      ensures r.b.name in names <==> exists c :: c in r.b.dataClasses && c in selected
    {
      if r.b.name in names {
        var cr :| cr in Explode(all) && cr.dataClass in selected && cr.row.b.name == r.b.name;
        assert cr.row == r;
      }
      if c :| c in r.b.dataClasses && c in selected {
        assert ClassRow(r, c) in Explode(all);
      }
    }
  }
}
