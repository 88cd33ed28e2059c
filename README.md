# Presidential 2022 sponsorships: the aggregation pass, in Dafny

`parrain_presidentielle_2022.py` is a Streamlit page about the sponsorships
("parrainages") that elected officials give candidates in the 2022 French
presidential election. The Constitutional Council publishes them as a CSV
file, one row per validated sponsorship. This project models the part of the
page that computes something, and proves what it computes:

* **the candidate totalizer** (lines 16-27). It produces `df_parrain`: one row
  per distinct candidate, in order of first appearance. Each row holds the
  candidate's number of rows and the constant limit 500. The table is then
  sorted by that number, largest first.
* **the cumulative occurrence builder** (lines 29-46). It produces
  `df_occurence`. For each candidate, each department the candidate has a
  sponsorship from, and each distinct publication date of the whole file, it
  emits one row carrying the running number of that pair's sponsorships. Dates
  are visited in order of first appearance. The code does not sort them.
* **the "Par département" page** (lines 120-125 and 132-133):
  * the department menu;
  * `df_departement`, the rows of the chosen department at `Date ==
    Date.max()`, sorted by count, largest first;
  * the number in the page title, which is the sum of those rows;
  * the rule that forces a y-axis tick of 1 when no count exceeds 10.

The raw file becomes a `seq<Record>` with the three columns the code reads.
The two loops become methods that build their tables by appending, as the
source does. They are proved equal to specification functions
(`Totalizer.Totals`, `OccurrenceTable.Occurrences`), and lemmas about those
functions state what the tables contain. Most of the page logic is
expression-level pandas code, so it is modelled as functions.

Modules, leaves first:
* `Options`, `Seqs` (`unique()`, counting, sums), `Lex` (Python's `str`
  order and `max`) and `Sorting` (`sort_values(ascending=False)`);
* `Records` (the raw table);
* `Totalizer`;
* `OccurrenceTable` and `OccurrenceProperties`;
* `DayMonthYear` (the `DD/MM/YYYY` dates);
* `DepartmentPage` and `DepartmentTotals`.

## Model

| member | source | states |
|---|---|---|
| Seqs.Distinct | parrain_presidentielle_2022.py:19 | `unique()` returns no value twice and exactly the values of the column |
| Seqs.DistinctKeepsFirstAppearanceOrder | parrain_presidentielle_2022.py:19 | `unique()` lists values in the order of their first appearance in the column |
| Lex.LexLessEq | parrain_presidentielle_2022.py:121 | Python's `<=` on `str`, character by character; it has no contract of its own, and the four lemmas below prove it a total order |
| Lex.LexReflexive | parrain_presidentielle_2022.py:121 | every string is at most itself |
| Lex.LexTotal | parrain_presidentielle_2022.py:121 | any two strings are comparable |
| Lex.LexAntisymmetric | parrain_presidentielle_2022.py:121 | two strings each at most the other are equal |
| Lex.LexTransitive | parrain_presidentielle_2022.py:121 | the order is transitive |
| Lex.MaxBy | parrain_presidentielle_2022.py:121 | `max()` over a text column (also line 64): `None` exactly for an empty column, otherwise a value of the column whose key no key of the column exceeds |
| Sorting.SortDescending | parrain_presidentielle_2022.py:27 | sorting by a column, largest first, returns the same rows (same multiset) with non-increasing keys |
| Records.Dates | parrain_presidentielle_2022.py:34 | the distinct publication dates: each date of the file once, and no other |
| Records.DepartmentsOf | parrain_presidentielle_2022.py:32 | the departments of a candidate's rows are exactly the departments some row for that candidate has |
| Records.DatesKeepFirstAppearanceOrder | parrain_presidentielle_2022.py:34 | the distinct dates come in the order in which each first appears in the `Date` column |
| Records.CandidateCount | parrain_presidentielle_2022.py:21 | `count()` of one candidate's rows; it has no contract of its own, and `CandidateCountIsMultiplicity` and `Totalizer.TotalsSumToRowCount` state what it counts |
| Records.CellCount | parrain_presidentielle_2022.py:35 | `len` of the rows of one candidate, department and date; it has no contract of its own, and `CellsOverDates` and `OccurrenceProperties.OccurrenceStep` state how it adds up |
| Records.CellsOverDates | parrain_presidentielle_2022.py:35 | counting the rows on one more date adds exactly that date's rows |
| Records.CountOnDatesSnoc | parrain_presidentielle_2022.py:29-46 | one more row of the file raises a pair's count over some dates by one exactly when that row is of the pair and on one of the dates |
| Records.CandidateCountIsMultiplicity | parrain_presidentielle_2022.py:21 | a candidate's count is the multiplicity of its name in the `Candidat` column |
| Totalizer.Totals | parrain_presidentielle_2022.py:19-26 | the unsorted table names each candidate of the file once and no other name; each row holds the candidate's row count and the limit 500 |
| Totalizer.TotalizeCandidates | parrain_presidentielle_2022.py:16-27 | the loop, followed by the sort, yields exactly the sorted `Totals` table |
| Totalizer.TotalsArePositive | parrain_presidentielle_2022.py:19-21 | every listed candidate has at least one sponsorship |
| Totalizer.TotalsSumToRowCount | parrain_presidentielle_2022.py:21 | the counts add up to the number of rows of the file |
| Totalizer.SortedTotalsDistinctNames | parrain_presidentielle_2022.py:19-27 | after sorting, no candidate appears twice |
| Totalizer.SortedTotalsCoverNames | parrain_presidentielle_2022.py:19-27 | after sorting, the table names exactly the candidates of the file |
| Totalizer.SortedTotalsCounts | parrain_presidentielle_2022.py:21-27 | after sorting, each row still holds its candidate's row count and the limit 500 |
| Totalizer.SortedTotalsTable | parrain_presidentielle_2022.py:16-27 | `df_parrain` as shown: counts non-increasing, each candidate exactly once, counts correct, limit 500, total equal to the number of rows |
| OccurrenceTable.Occurrences | parrain_presidentielle_2022.py:29-46 | `df_occurence` as a function of the file; it has no contract of its own: `BuildOccurrences` proves the loops compute it, and the `OccurrenceProperties` lemmas below state its length, its rows, its keys and its counts |
| OccurrenceTable.Pairs | parrain_presidentielle_2022.py:31-32 | the (candidate, department) pairs the two outer loops visit; it has no contract of its own, and `PairsAreTheInputPairs` and `PairsNoDup` state what it holds |
| OccurrenceTable.Running | parrain_presidentielle_2022.py:33-35 | the counter `n` after a list of dates; it has no contract of its own, and `RunningCountsListedDates` and `RunningMonotone` state what it counts |
| OccurrenceTable.BuildOccurrences | parrain_presidentielle_2022.py:29-46 | the three nested loops with the running counter `n` yield exactly `Occurrences(rows)` |
| OccurrenceProperties.RunningCountsListedDates | parrain_presidentielle_2022.py:33-35 | after visiting distinct dates, `n` is the number of the pair's rows published on one of them |
| OccurrenceProperties.RunningMonotone | parrain_presidentielle_2022.py:33-35 | visiting more dates never lowers `n` |
| OccurrenceProperties.PairsNoDup | parrain_presidentielle_2022.py:31-32 | no (candidate, department) pair is visited twice |
| OccurrenceProperties.PairsAreTheInputPairs | parrain_presidentielle_2022.py:31-32 | the visited (candidate, department) pairs are the pairs found in the file, each once |
| OccurrenceProperties.OccurrencesLength | parrain_presidentielle_2022.py:31-39 | the table has (number of pairs) × (number of distinct dates) rows |
| OccurrenceProperties.OccurrenceAt | parrain_presidentielle_2022.py:31-39 | row `p·D + k` holds pair `p`, date `k`, limit 500, and the number of that pair's rows published on date `k` or on a date first seen before it |
| OccurrenceProperties.OccurrenceRowFromInput | parrain_presidentielle_2022.py:36-46 | every row's candidate and department come from one row of the file, its date from a row of the file, and its limit is 500 |
| OccurrenceProperties.OccurrenceCoversEveryKey | parrain_presidentielle_2022.py:31-39 | every pair of the file has a row for every publication date of the file |
| OccurrenceProperties.OccurrenceKeysUnique | parrain_presidentielle_2022.py:31-39 | no two rows share a (candidate, department, date) key |
| OccurrenceProperties.OccurrenceStep | parrain_presidentielle_2022.py:33-35 | a pair's count at date `k` is its count at date `k - 1` plus its rows published on date `k`, so a date without rows repeats the previous value |
| OccurrenceProperties.OccurrenceNonDecreasing | parrain_presidentielle_2022.py:33-38 | along the date iteration order, a pair's counts never decrease |
| OccurrenceProperties.OccurrenceFinal | parrain_presidentielle_2022.py:33-35 | a pair's count at the last visited date equals its total number of rows |
| DepartmentPage.DepartmentOptions | parrain_presidentielle_2022.py:120 | the menu lists each department of `df_occurence` once and no other |
| DepartmentPage.DepartmentOptionsAreInputDepartments | parrain_presidentielle_2022.py:120 | a department is in the menu exactly when a row of the file has that department |
| DepartmentPage.MaxDate | parrain_presidentielle_2022.py:121 | `Date.max()` is `None` exactly for an empty table; otherwise it is a date of the table that no other date exceeds as text |
| DepartmentPage.AtDepartmentAndDate | parrain_presidentielle_2022.py:121 | the boolean mask on department and date; it has no contract of its own, and `MaskKeepsMatchingRows` states which rows it keeps |
| DepartmentPage.MaskKeepsMatchingRows | parrain_presidentielle_2022.py:121 | the boolean mask keeps every row of the department at the date, as often as it occurs, and nothing else |
| DepartmentPage.ViewAt | parrain_presidentielle_2022.py:121 | masking and then sorting gives exactly the matching rows, counts non-increasing |
| DepartmentPage.DepartmentView | parrain_presidentielle_2022.py:121 | `df_departement` holds exactly the rows of the department whose date equals `Date.max()`, with their multiplicities, counts non-increasing |
| DepartmentPage.DepartmentViewNonEmpty | parrain_presidentielle_2022.py:120-121 | for any department the menu offers, the view has at least one row |
| DepartmentPage.MaxCount | parrain_presidentielle_2022.py:132 | `Parrainage.max()` is missing (NaN) exactly for an empty view; otherwise it is a count of the view that no count exceeds |
| DepartmentPage.TickForced | parrain_presidentielle_2022.py:132-133 | the tick step is forced to 1 exactly when the view is non-empty and every count is at most 10 |
| DepartmentPage.TitleTotal | parrain_presidentielle_2022.py:125 | `df_departement['Parrainage'].sum()`; it has no contract of its own, and `TitleTotalOfFilter` and `DepartmentTotals.ViewTotalCountsRows` state what it counts |
| DepartmentPage.TitleTotalOfFilter | parrain_presidentielle_2022.py:121-125 | sorting does not change the title number: it is the sum of the masked rows |
| DepartmentTotals.ViewTotalCountsRows | parrain_presidentielle_2022.py:121-125 | at the `k`-th distinct date, the title number is the number of the department's sponsorships published on that date or on a date first seen before it |
| DepartmentTotals.MaxDateIsAPublicationDate | parrain_presidentielle_2022.py:121 | for a non-empty file, `Date.max()` exists and is one of the file's publication dates |
| DepartmentTotals.DepartmentTitleCountsRows | parrain_presidentielle_2022.py:121-125 | the title of `df_departement` counts the department's sponsorships published up to the date `Date.max()` picks, in first-appearance order |
| DepartmentPage.TwoPublicationsOccurrences | parrain_presidentielle_2022.py:29-46 | a file with two sponsorships of one pair, published on two different dates, gives two rows whose counts are 1 then 2 |
| DepartmentPage.MarchExampleIsOccurrences | parrain_presidentielle_2022.py:29-46 | the table the finding below uses is the one the builder makes from a file with one sponsorship of X from Ain published on 24/02/2022 and another on 07/03/2022 |
| DepartmentPage.MaxDateMissesLatestDay | parrain_presidentielle_2022.py:121 | with one row for 24/02/2022 and one for 07/03/2022, `Date.max()` picks 24/02/2022, although 07/03/2022 is the later day |
| DepartmentPage.StaleDepartmentTotal | parrain_presidentielle_2022.py:121-125 | in that table, the page's title number is 1 |
| DepartmentPage.LatestDate | parrain_presidentielle_2022.py:121 | the corrected choice of date: a date of the table whose `YYYYMMDD` key no other date's key exceeds |
| DepartmentPage.LatestDateIsLatestDay | parrain_presidentielle_2022.py:121 | when every date is well-formed `DD/MM/YYYY`, the corrected choice is the latest day of the table |
| DayMonthYear.ChronoKeyOrder | parrain_presidentielle_2022.py:121 | for well-formed dates, comparing `YYYYMMDD` keys as text compares the days |
| DepartmentPage.LatestDepartmentView | parrain_presidentielle_2022.py:121 | the corrected view holds exactly the department's rows at the latest day, counts non-increasing |
| DepartmentPage.LatestDepartmentTotal | parrain_presidentielle_2022.py:121-125 | in the same table, the corrected title number is 2 |
| DepartmentTotals.LatestDepartmentTitleCountsRows | parrain_presidentielle_2022.py:121-125 | the corrected title counts the department's sponsorships published up to the latest day, in first-appearance order |

## Left out

- Downloading the CSV over HTTP and `pd.read_csv` (lines 12-14) are I/O. The file is the parameter `rows: seq<Record>`, with every field read as text.
- The Streamlit widgets, Plotly figures and Folium maps (lines 50-141) are rendering through libraries that are not part of this model. Only the values lines 120-125 and 132-133 compute are modelled. `liste_candidats` (line 48), the wording at line 96 and the title of the totals chart (line 64) feed only that rendering. Line 64 also uses `Date.max()`, as `MaxDate`.
- pandas NaN: every field is taken to be a non-null string. So `count()` (line 21) counts the same rows as `len` (line 35), and `unique()` never meets NaN. Two NaNs are kept. `Date.max()` of an empty table is NaN: `MaxDate` returns `None`, no row matches it, and `DepartmentView` is empty (only a file with no rows gives an empty table). `Parrainage.max()` of an empty view is NaN: `MaxCount` returns `None` and `TickForced` is false, as `NaN <= 10` is.
- Sorting.SortDescending: rows with equal counts stay in their input order. pandas' default quicksort leaves their order unspecified. The model claims only what the source guarantees: the same rows, counts non-increasing.
- DataFrame index labels are not modelled: a filtered or sorted frame is modelled as the sequence of its rows.
- The lists `candidat`, `parrainage`, `departement`, `nombre` and `date` are appended in lockstep. They are modelled as one sequence of row values.
- The code does not sort the publication dates. The cumulative count runs along the file's first-appearance order of dates, and the model follows the code. `OccurrenceNonDecreasing` and `OccurrenceAt` are stated along that order. They are chronological only when the file lists dates chronologically.
- The code does not reject a malformed date. `DayMonthYear.WellFormed` is used only to state what the corrected date choice achieves.
- The two-criterion eligibility evaluation (at least 30 departments, at most 10% from one) does not appear in `parrain_presidentielle_2022.py`, so it is not part of this model.

## Findings

| source | as written | input that shows it | evidently intended | confidence | as-written member | corrected member |
|---|---|---|---|---|---|---|
| parrain_presidentielle_2022.py:121 | `df_occurence['Date'].max()` takes the maximum of the `DD/MM/YYYY` strings as text, so the day of the month decides first | a file of two rows, both candidate X from Ain, published on 24/02/2022 and on 07/03/2022 (its table is `MarchExample`, by `MarchExampleIsOccurrences`): the text maximum is "24/02/2022", and the page shows that department's stale total of 1 instead of 2 (line 64's title names the wrong day too) | take the latest publication day, e.g. by comparing `YYYYMMDD` | high; not executed | DepartmentPage.MaxDateMissesLatestDay | DepartmentPage.LatestDateIsLatestDay |
