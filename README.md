# Data-breach dashboard: a Dafny model of its record pipeline

The dashboard reads a list of breach records (Have I Been Pwned style). Each record has:
- a name, title and domain;
- a breach date, an added date and a modified date;
- a PwnCount;
- a list of data classes;
- verification and sensitivity flags.

Every page then runs the same pipeline over that list:
- derive year, month, a `YYYY-MM` key and a size category for every breach;
- explode the data classes into one row per (breach, class);
- narrow the breaches with sidebar filters, then restrict the class rows to the breaches that remain;
- compute tables and insights from what is left.

This project models that pipeline for the main dashboard (`app.py`), the home page (`Home.py`), the timeline page and the data-class page. It proves what each table and figure means.

Modules:

- `Seqs`, `Sorting`, `Tables`, `Strings`, `Dates`: the collection semantics the pages rely on.
  - Boolean-mask selection is `Filter` (an order-preserving subsequence).
  - `value_counts` is `ValueCounts` (counts in non-increasing order).
  - `groupby(...).size()` is `GroupSizes` (keys ascending, one per value present).
  - `nlargest` is `NLargest`; `idxmax` is `FirstArgMax` (the first maximum).
  - `sorted` on strings is `Sort` by `StrLe` (code-point order).
  - `strftime('%Y-%m')` is `YearMonthKey`.
- `Records`: the record, the derived columns, the right-closed binning of `pd.cut` (`Cut`), the explode, and `load_data` as a method.
- `Filters`: the date, verification, sensitivity, size and data-class filter steps shared by the pages.
- `Analysis`: overview figures, percentages, top-10 tables, the largest breach, the two-year trend and the insight panel.
- `Dashboard`: `app.py`'s filter chain, monthly timeline, severity scoring, recent additions, geographic table and search.
- `Home`, `DataClassesPage`, `TimelinePage`: the other three pages.

Modelling choices:

- Percentages are exact fractions (`Analysis.Fraction`), with no rounding.
- The current year is a parameter.
- A PwnCount of 0 falls outside the first size bin, so its size category is `None` (pandas NaN).
  - `app.py` keeps that as a missing category, and the size filter matches it by `Option` membership.
  - The other pages convert the column to text, so the missing category becomes the string `"nan"` (`Records.SizeText`).
- Where a page raises on some input, the model returns a `Result` (or `SearchOutcome.Raised`) naming the Python exception. No precondition excludes that input.

## Model

| member | source | states |
|---|---|---|
| Records.Cut | app.py:124-128 | `pd.cut` with right-closed bins: a value gets a bin exactly when it is above the first edge (and at most the last edge unless the top is open); the bin index is the one whose interval holds the value |
| Records.SizeCategoryOf | app.py:124-128 | PwnCount 0 (or less) has no category; otherwise Small, Medium, Large or Massive exactly on (0,10k], (10k,1M], (1M,50M], above 50M |
| Records.SizeText | pages/1_Timeline_Analysis.py:32-36 | the text of a size category is "nan" exactly when the category is missing |
| Records.SizeCategoryText | Home.py:183-187 | the string column after `astype(str)`: "nan" exactly for PwnCount <= 0, and each label exactly on its interval |
| Records.SizeTextInjective | Home.py:183-187 | converting to text loses nothing: two categories have the same text exactly when they are equal |
| Records.Derive | app.py:119-128 | derived columns: the `YYYY-MM` key parses back to the breach year and month; year and month are the breach date's; the size category is the binned PwnCount |
| Records.Explode | app.py:131 | a (breach, class) row is in the exploded table exactly when the breach is in the table and the class is in its list |
| Records.ExplodeSnoc | app.py:131 | exploding a table with one more breach appends exactly that breach's class rows |
| Records.ExplodeLength | app.py:131 | the exploded table has one row per list entry over all breaches |
| Seqs.FilterCount | app.py:212 | a boolean mask keeps every copy of a selected element and no copy of any other |
| Records.RestrictToNames | app.py:212 | the restricted class rows are a subsequence of the class rows, hold exactly those whose breach name is among the kept breaches, and keep every copy: a row occurs as often as in the class rows when its name is kept, and not at all otherwise |
| Records.RestrictAgrees | app.py:212 | after restricting the full explode to a filtered table, every class row names a kept breach, and every class of a kept breach is present |
| Records.RestrictExactly | app.py:212 | with unique breach names, the restricted explode equals the explode of the kept breaches, membership-wise |
| Records.DeriveColumns | app.py:114-128 | the loop over records yields, position by position, the derived row of each record |
| Records.ExplodeTable | app.py:131 | the nested loop over breaches and their classes yields exactly the exploded table |
| Records.LoadData | app.py:108-133 | loading yields the derived table and its explode |
| Filters.DateStep | app.py:151-156 | the result is a subsequence of the input; a range of length other than two leaves the table unchanged; otherwise a breach is kept exactly when its date is in the inclusive range |
| Filters.FlagStep | app.py:165-171 | two-option flag filter: both or neither label selected leaves the table unchanged; only the on label keeps exactly the flagged breaches; only the off label keeps exactly the unflagged ones |
| Filters.VerificationStep | app.py:165-171 | the flag filter on IsVerified with "Verified" / "Unverified" |
| Filters.SensitivityStep | app.py:180-186 | the flag filter on IsSensitive with "Sensitive" / "Non-Sensitive" |
| Filters.SizeStep | app.py:195-196 | an empty selection keeps everything; otherwise a breach is kept exactly when its (possibly missing) category is selected |
| Filters.SizeTextStep | Home.py:254-255 | the same filter on the text column: kept exactly when the category text is selected |
| Filters.SizeTextStepAgrees | Home.py:254-255 | filtering by the texts of a selection keeps exactly what filtering by the selection itself keeps |
| Filters.DefaultSizeSelectionKeepsAll | Home.py:249-255 | the default selection (every text present in the loaded table) removes no breach |
| Filters.ClassStep | app.py:206-209 | an empty selection keeps everything; otherwise a breach is kept exactly when its name appears among class rows of a selected class |
| Filters.ClassStepAny | app.py:206-209 | with unique names, a breach is kept exactly when at least one of its own data classes is selected |
| Analysis.Percent | app.py:239 | `part / whole * 100` as a fraction, 0 when the whole is 0 (the guarded form), and at most 100% when the part is at most the whole |
| Analysis.OverviewOf | app.py:224-250 | total breaches, total pwned, verified and sensitive counts (the rows with the flag); both shares are at most 100%, 0 for an empty selection, and count/total*100 otherwise |
| Analysis.TopCounts | app.py:257-259 | `value_counts().head(10)`: exactly min(10, number of distinct values) entries, distinct keys, each count is the key's number of occurrences, counts non-increasing, and no value left out occurs more often than any shown |
| Analysis.TopEntries | app.py:257-259 | the first n entries of the value counts are distinct observed values, counted correctly, in non-increasing order, and present for a non-empty input |
| Analysis.TakeEntries | app.py:259 | any prefix of a count table keeps distinct keys, correct counts and non-increasing order |
| Analysis.TopDominates | app.py:257-259 | no value past the first n entries of the value counts is more frequent than any of them |
| Analysis.TopOfTable | app.py:257-259 | for any count table in non-increasing order, no key past its first n entries occurs more often than any of them |
| Analysis.SharesSum | app.py:263 | every share has the whole as denominator, and the numerators add up to 100 times the table's total count |
| Analysis.TopClassShares | app.py:257-263 | the top-10 percentages: the same keys in the same order as the top-10 class table (so distinct, and min(10, distinct classes) of them), each the class's count over the top-10 total, each at most 100%, summing to 100% for a non-empty selection (Home.py:310-316 computes the same table) |
| Analysis.TopSharesSum | app.py:263 | the top-10 percentages add up to exactly 100% (before rounding) |
| Analysis.TopWithinTotal | app.py:263 | no entry of a count table exceeds the table's total |
| Analysis.TotalCountPositive | app.py:263 | a table whose first count is positive has a positive total, so the percentage denominator is non-zero |
| Analysis.MostCommonClass | app.py:684 | "N/A" for no class rows; otherwise an observed class that no other class outnumbers |
| Analysis.LargestBreach | app.py:687-688 | ("N/A", 0) for an empty selection; otherwise the name and PwnCount of the first breach with the largest PwnCount, which no breach exceeds |
| Analysis.MaxPwn | Home.py:323 | `PwnCount.max()`: a value some breach has and none exceeds |
| Analysis.LargestByIdxMax | Home.py:322-323 | `idxmax` on a non-empty selection: the first breach with the largest PwnCount, and that count |
| Analysis.TopBreaches | app.py:333 | `nlargest(10, 'PwnCount')`: min(10, n) breaches taken from the selection (as a sub-multiset), ordered by non-increasing PwnCount, and no breach left out is larger than any shown (also the top-breaches table at Home.py:368) |
| Analysis.TrendOf | app.py:691-699 | "increasing" exactly when the last two years hold more breaches than the two before; a tie reads "decreasing" |
| Analysis.WindowsDisjoint | app.py:692-694 | the recent and previous windows never share a breach, so their counts add up to at most the selection |
| Analysis.GuardedInsights | app.py:683-699 | the insight panel: most common class (or "N/A"), largest breach as the first maximum (or "N/A", 0), and the trend |
| Dashboard.ApplyFilters | app.py:150-212 | the sidebar chain: the result is a subsequence of the table, a breach is kept exactly when it passes every filter, and the class rows are the name restriction of the class rows to the kept breaches (every copy, in order) |
| Dashboard.Timeline | app.py:296-303 | monthly timeline: months strictly ascending, one point per month present, each count the month's number of breaches (positive), each total the month's summed PwnCount |
| Dashboard.MonthPointsFollowGroups | app.py:296-303 | points built from the ascending month groups keep their order, keys and counts |
| Dashboard.MonthPointsTotals | app.py:296-299 | the counts of the points add up to the groups' total, and their totals add up to the weights over the group keys |
| Dashboard.TimelineTotals | app.py:296-299 | the timeline counts add up to the number of breaches and its totals to the total pwned |
| Dashboard.TimelineChronological | app.py:301-303 | sorting the month keys as text is chronological: an earlier point belongs to a strictly earlier (year, month) |
| Dashboard.SizeScoreAsWritten | app.py:473-477 | the size score as written: undefined (NaN that `astype(int)` rejects) exactly at PwnCount 0; otherwise 1 to 4 from the size category |
| Dashboard.SizeScoreUndefinedAtZero | app.py:473-477 | the as-written score fails at 0 and is defined for every positive PwnCount |
| Dashboard.SizeScore | app.py:473-477 | the corrected score: always 1 to 4, agreeing with the as-written score wherever that is defined, and 1 for counts up to 10k, 0 included |
| Dashboard.SizeScoreMonotone | app.py:473-477 | a larger breach never gets a smaller size score |
| Dashboard.HighRiskCount | app.py:482-484 | the number of list entries that are high-risk classes, duplicates counted: the length of the list filtered by membership in the high-risk list |
| Dashboard.HighRiskCountExtremes | app.py:482-484 | the count is 0 exactly when no entry is high-risk, and the full length exactly when every entry is |
| Dashboard.SeverityLevelOf | app.py:494-498 | Low, Medium and High exactly on (0,3], (3,6], (6,10]; no level outside (0,10] |
| Dashboard.SeverityOf | app.py:473-498 | a severity row of the corrected program: size score the (corrected) binned PwnCount, sensitive score 3 or 0, high-risk count as above, data-class score min(count, 3), total their sum and between 1 and 10 (so the cap at 10 never changes it), and a level that always exists and matches the total |
| Dashboard.SeverityTable | app.py:464-498 | the loop yields `SeverityColumns`: one severity row per breach, in order, each that breach's `SeverityOf` (corrected size score) |
| Dashboard.SeverityTableAsWritten | app.py:464-498 | the severity table as written: it raises exactly when some selected breach has PwnCount 0, and is otherwise the corrected table |
| Dashboard.SeverityDistribution | app.py:494-505 | `value_counts()` of the categorical level column: exactly the three levels, each once, each counted correctly (0 for an absent level), non-increasing, adding up to the number of breaches |
| Dashboard.TopHighSeverity | app.py:527-532 | exactly min(10, number of High rows) rows, a sub-multiset of the High rows, by non-increasing score, and no High row left out scores above any shown |
| Dashboard.RecentAdditions | app.py:617 | the recent-additions table: exactly min(10, n) breaches taken from the selection (as a sub-multiset), newest added date first, and no breach left out was added later than any shown |
| Dashboard.GeoRows | app.py:640-648 | the loop yields the projection of exactly the breaches listing "Geographic locations", in order; a geo row is present exactly when some such breach projects to it |
| Dashboard.GeoProjectionMembers | app.py:643-648 | a row is in a projection exactly when some projected breach gives it |
| Dashboard.SearchCandidates | app.py:721-734 | the concatenation holds exactly the selected breaches whose name or domain contains the term, or whose name has a class row containing it (case-insensitively) |
| Dashboard.SearchAsWritten | app.py:719-735 | search as written: nothing for an empty term; raises exactly when some breach matches; an empty result otherwise |
| Dashboard.SearchRaisesOnAnyMatch | app.py:731-735 | one name match is enough for the as-written search to raise, while the corrected search lists that breach |
| Dashboard.Search | app.py:719-735 | the corrected search: nothing for an empty term, never raises, no duplicates, and a breach is listed exactly when it is a candidate |
| Dashboard.SearchMatchesIff | app.py:721-734 | with unique names, a breach is found exactly when its name, its domain or one of its own classes contains the term |
| Home.HomeFilters | Home.py:209-258 | the home sidebar chain (date, verification, sensitivity, size text): a subsequence, a breach is kept exactly when it passes every filter, and the class rows are the name restriction to the kept breaches (every copy, in order) |
| Home.HomeInsights | Home.py:310-332 | as written: fails exactly when there are no class rows (`iloc[0]`) or no breaches (`idxmax`); otherwise the most common class, the first largest breach and its count, and the trend |
| Home.HomeInsightsFailOnEmptyClasses | Home.py:319-323 | after the usual restriction of the class rows, the home insights fail exactly when no class row survives (an empty selection included) |
| Home.HomeInsightsAgreeWhenDefined | Home.py:319-332 | wherever the home insights succeed they equal the guarded insights of the main dashboard |
| DataClassesPage.PageFilters | pages/2_Data_Classes_Analysis.py:60-69 | the page's filter chain: the date step, and the class rows are the name restriction to the kept breaches (every copy, in order) |
| DataClassesPage.ClassShares | pages/2_Data_Classes_Analysis.py:73-75 | per class, the share of breaches listing it: one entry per observed class (distinct keys, as many as distinct classes), in non-increasing order of count, each its count over the number of breaches, the numerators summing to 100 times the class rows when there are breaches |
| DataClassesPage.CombinationKeyIgnoresOrder | pages/2_Data_Classes_Analysis.py:103 | the comma-joined sorted list is the same for any reordering of a breach's classes |
| DataClassesPage.TopCombinations | pages/2_Data_Classes_Analysis.py:103-107 | top-10 combinations: exactly min(10, number of distinct combinations), distinct, counted correctly, non-increasing, and no left-out combination is more common than any shown |
| DataClassesPage.AddYearColumn | pages/2_Data_Classes_Analysis.py:130 | the loop adding the year column yields exactly the (year, class) pairs |
| DataClassesPage.YearClassKeysSnoc | pages/2_Data_Classes_Analysis.py:130 | one more class row appends exactly its pair |
| DataClassesPage.TemporalCounts | pages/2_Data_Classes_Analysis.py:131-132 | the (year, class) group sizes: distinct keys in ascending order, one per pair present, counted correctly, adding up to the number of class rows |
| DataClassesPage.PageInsights | pages/2_Data_Classes_Analysis.py:155-175 | fails exactly when there are no class rows or no breaches; otherwise the most common class (no class outnumbers it) with its count and share of breaches, the number of distinct classes, the most common combination (none outnumbers it), and the class entries and breaches behind the average |
| DataClassesPage.CombinationHeadIsMostFrequent | pages/2_Data_Classes_Analysis.py:103-107 | the first combination of the table is at least as common as every breach's combination |
| TimelinePage.PageFilters | pages/1_Timeline_Analysis.py:64-79 | the page's chain: a subsequence, and a breach is kept exactly when it passes the date range (if given) and the size texts (if any) |
| TimelinePage.IntGroups | pages/1_Timeline_Analysis.py:86 | group sizes of an integer column: keys strictly ascending, one per value present, counted correctly, adding up to the column length |
| TimelinePage.YearlyCounts | pages/1_Timeline_Analysis.py:86-87 | breaches per year: years strictly ascending, exactly the years present, counts correct and positive, adding up to the breaches |
| TimelinePage.MonthlyCounts | pages/1_Timeline_Analysis.py:105-106 | breaches per month: months strictly ascending in 1..12, exactly the months present, counts correct, adding up to the breaches |
| TimelinePage.YearSizeCounts | pages/1_Timeline_Analysis.py:127-131 | (year, size text) group sizes: distinct ascending keys, exactly the pairs present, counted correctly, adding up to the breaches |
| TimelinePage.Peak | pages/1_Timeline_Analysis.py:157-158 | `idxmax` over ascending group sizes: none exactly for an empty column; otherwise a present value that no value outnumbers and every smaller value occurs less often |
| TimelinePage.PeakIsFirstMax | pages/1_Timeline_Analysis.py:157-158 | the first largest group of an ascending table has the largest count, and every smaller key has fewer |
| TimelinePage.PageInsights | pages/1_Timeline_Analysis.py:155-158 | fails (`ZeroDivisionError`) exactly for an empty selection; otherwise the summary below |
| TimelinePage.Summarise | pages/1_Timeline_Analysis.py:155-174 | total breaches, number of years (positive, the average's denominator), the peak year and month with their counts, and the month's name |
| TimelinePage.MonthInRange | pages/1_Timeline_Analysis.py:174 | every month present is in 1..12, so the name lookup at month - 1 is in range |
| Dates.YearMonthRoundTrip | app.py:121 | the `YYYY-MM` key of a four-digit year and a month parses back to that year and month |
| Dates.YearMonthKeyInjective | app.py:121 | different (year, month) pairs have different keys |
| Dates.YearMonthKeyOrder | app.py:301-303 | comparing keys as text agrees with comparing (year, month) |
| Dates.DayNumberOrder | app.py:617 | the day number used as the sort key orders dates exactly as calendar order does |
| Tables.GroupSizes | app.py:296 | `groupby(...).size()`: distinct keys in ascending order, exactly the values present, counts correct and positive, adding up to the input length |
| Tables.ValueCounts | app.py:257 | `value_counts()`: as group sizes, but in non-increasing order of count |
| Tables.ValueCountsLength | app.py:257 | the value counts have one entry per distinct value |
| Tables.CategoricalCounts | app.py:505 | `value_counts()` of a categorical column: one entry per declared category, distinct, each counted correctly (0 when absent), non-increasing, adding up to the number of values |
| Tables.ValueCountsHeadIsMostFrequent | Home.py:319 | `iloc[0]` of the value counts is at least as frequent as any value present |
| Tables.NLargest | app.py:333 | `nlargest(n)`: min(n, len) elements drawn from the input, non-increasing, nothing left out larger than anything kept |
| Tables.FirstArgMax | Home.py:322 | `idxmax`: a position whose value none exceeds, before which every value is smaller |
| Tables.NLargestOneIsFirstArgMax | app.py:687 | `nlargest(1)` picks the same breach as `idxmax` |
| Strings.ContainsIgnoringCase | app.py:721-723 | `str.contains(term, case=False)` for a literal term: true exactly when the lower-cased term occurs in the lower-cased text |
| Sorting.Sort | pages/2_Data_Classes_Analysis.py:103 | `sorted`: ordered, a permutation of the input |
| Sorting.SortedPermutationsEqual | pages/2_Data_Classes_Analysis.py:103 | two sorted permutations of the same list are equal, so the order of a breach's classes does not change its combination |

## Left out

- Rendering is not modelled: Streamlit layout, CSS, Plotly charts, colours, tabs, number formatting and `round(1)`. This includes the pie and bar charts for size, verification and sensitivity shares, and their mean-PwnCount bars.
- JSON reading, `json_normalize`, `st.cache_data` and date parsing are not modelled. The loaded records are a parameter with calendar dates already parsed.
- `datetime.now()` is left out; the current year is a parameter.
- Floating-point division and `round` are replaced by exact fractions. The average breaches per year and the average data types per breach are given as numerator and denominator.
- `str.contains` treats the term as a regular expression; the model matches it as a literal substring. Lower-casing covers ASCII letters only, with no Unicode case folding.
- `explode` turns an empty data-class list into one row holding NaN; the model produces no row. `value_counts` drops NaN, so the counts are unaffected. The search's class match, where that NaN would make the boolean mask fail, is not modelled.
- `value_counts` and `sort_values` (quicksort) leave the order of equal counts unspecified. The model uses a stable order, and its contracts promise only non-increasing counts.
- Analysis.TopCounts: states non-increasing counts but not which of several equally frequent classes comes first.
- Dashboard.TopHighSeverity: states non-increasing scores but not the order among equal scores, which the default `sort_values` does not fix.
- Dashboard.SeverityOf, Dashboard.SeverityTable, Dashboard.SeverityDistribution and Dashboard.TopHighSeverity model the severity section with the corrected size score (see Findings). As written, the section raises for any selection holding a breach with PwnCount 0; Dashboard.SeverityTableAsWritten states exactly when.
- Dashboard.RecentAdditions, Dashboard.GeoRows, Analysis.GuardedInsights, Dashboard.Search, Dashboard.SearchAsWritten and Analysis.TopBreaches (as the top-breaches table at Home.py:368) describe their page section only when no earlier section raised. An uncaught exception ends the Streamlit script run, so nothing after it is drawn. In app.py, the severity ValueError (app.py:477) stops everything after the severity section: the size and sensitivity charts, recent additions, the geographic table, the insights and the search. In Home.py, the IndexError at Home.py:319 stops the page before the top-breaches table.
- Display-only parts are not modelled: the description's HTML unescaping and the breach detail panel. They only display fields.
- Dashboard.RecentAdditions: `AddedDate` is a timestamp in the source, but the model keeps its calendar date only. Its contract therefore orders the breaches by day and does not say how breaches added on the same day are ordered.
- The sensitive-breach class chart (app.py:575-584) is not modelled separately. It is the top-10 class table computed over the sensitive breaches only, so Analysis.TopClassShares applies to it unchanged.
- Each page has its own `load_data`, and each computes a subset of the same columns. All four are modelled by `Records.LoadData`; the columns a page does not compute are unused there.
- Timeline `astype(str)` (pages/1_Timeline_Analysis.py:127) is not modelled: the column is already text, so the conversion changes nothing.
- Records.RestrictExactly, Filters.ClassStepAny and Dashboard.SearchMatchesIff: the membership equivalences assume unique breach names. The pages match breaches by name, so two breaches sharing a name would be confused with each other.
- Analysis.TopBreaches: states the kept breaches as a sub-multiset of the selection, not which of several equally large breaches is kept. `nlargest(keep='first')` picks the earliest; the model's stable sort does too, but the contract does not say so.
- Records.Derive: dates are restricted to four-digit years (1000 to 9999), for which `%Y` prints exactly four digits; other years are not modelled.

## Findings

| source | as written | input that shows it | evidently intended | confidence | as-written member | corrected member |
|---|---|---|---|---|---|---|
| app.py:473-477 | `pd.cut(PwnCount, bins=[0, 10000, ...], labels=[1,2,3,4]).astype(int)`: the first bin is open at 0, so a PwnCount of 0 gets NaN, and casting NaN to int raises for the whole severity table | any selected breach with PwnCount 0 | 0 scores 1, like the rest of the smallest bin (`include_lowest=True`) | not executed | Dashboard.SizeScoreAsWritten, Dashboard.SizeScoreUndefinedAtZero, Dashboard.SeverityTableAsWritten | Dashboard.SizeScore, Dashboard.SizeScoreMonotone, Dashboard.SeverityTable |
| app.py:731-735 | `pd.concat([...]).drop_duplicates()` over rows whose DataClasses cell is a list: hashing a list raises `TypeError` | any non-empty search term that matches at least one breach | the matching breaches, each once | not executed | Dashboard.SearchAsWritten, Dashboard.SearchRaisesOnAnyMatch | Dashboard.Search, Dashboard.SearchMatchesIff |
| Home.py:319-323 | `data_class_counts.iloc[0]` and `PwnCount.idxmax()` with no guard: an empty selection raises `IndexError` / `ValueError` | a date range or filter combination that keeps no breach, or only breaches without data classes | "N/A" and 0, as on the main dashboard (app.py:684-688) | not executed | Home.HomeInsights, Home.HomeInsightsFailOnEmptyClasses | Analysis.GuardedInsights, Home.HomeInsightsAgreeWhenDefined |
