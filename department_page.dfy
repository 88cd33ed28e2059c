/** The "Par département" page: the department menu, `df_departement` (the
    occurrence rows of one department at the largest `Date` value, most
    sponsored candidate first), the number in its title and the y-axis
    tick rule. */
module DepartmentPage {
  import opened Options
  import opened Seqs
  import opened Lex
  import opened Sorting
  import opened Records
  import opened OccurrenceTable
  import opened OccurrenceProperties
  import opened DayMonthYear

  /** The largest count for which the y-axis ticks every unit. */
  const TickThreshold: int := 10

  /** `Parrainage`, the column the view is sorted by and summed over. */
  function RowCount(o: OccurrenceRow): int
  {
    o.count
  }

  /** `df_occurence['Département']` */
  function DepartmentColumn(occ: seq<OccurrenceRow>): seq<string>
  {
    seq(|occ|, i requires 0 <= i < |occ| => occ[i].department)
  }

  /** `df_occurence['Date']` */
  function DateColumn(occ: seq<OccurrenceRow>): seq<string>
  {
    seq(|occ|, i requires 0 <= i < |occ| => occ[i].date)
  }

  /** The menu entries: `df_occurence['Département'].unique()`. */
  function DepartmentOptions(occ: seq<OccurrenceRow>): (ds: seq<string>)
    ensures NoDup(ds)
    ensures forall d :: d in ds <==> exists i :: 0 <= i < |occ| && occ[i].department == d
  {
    var column := DepartmentColumn(occ);
    assert forall i :: 0 <= i < |occ| ==> column[i] == occ[i].department;
    Distinct(column)
  }

  /** A date compared as the text it is. */
  function AsText(s: string): string
  {
    s
  }

  /** `df_occurence['Date'].max()`: the largest date string, compared as
      text; `None` for an empty table. */
  function MaxDate(occ: seq<OccurrenceRow>): (m: Option<string>)
    ensures m.None? <==> occ == []
    ensures m.Some? ==> exists i :: 0 <= i < |occ| && occ[i].date == m.value
    ensures m.Some? ==> forall i :: 0 <= i < |occ| ==> LexLessEq(occ[i].date, m.value)
  {
    var column := DateColumn(occ);
    assert forall i :: 0 <= i < |occ| ==> column[i] == occ[i].date;
    MaxBy(column, AsText)
  }

  /** The boolean mask `(Département == dept) & (Date == date)` applied to
      `occ`: its matching rows, in table order. */
  function AtDepartmentAndDate(occ: seq<OccurrenceRow>, dept: string, date: string): seq<OccurrenceRow>
  {
    if occ == [] then []
    else
      var prev := AtDepartmentAndDate(DropLast(occ), dept, date);
      if Last(occ).department == dept && Last(occ).date == date then prev + [Last(occ)] else prev
  }

  /** The mask keeps every matching row, as often as it occurs, and
      nothing else. */
  lemma {:induction false} MaskKeepsMatchingRows(occ: seq<OccurrenceRow>, dept: string, date: string)
    ensures forall o :: multiset(AtDepartmentAndDate(occ, dept, date))[o]
                     == (if o.department == dept && o.date == date then multiset(occ)[o] else 0)
  {
    if occ != [] {
      MaskKeepsMatchingRows(DropLast(occ), dept, date);
      assert occ == DropLast(occ) + [Last(occ)];
    }
  }

  /** The rows of `dept` at `date`, sorted by `Parrainage`, largest first. */
  function ViewAt(occ: seq<OccurrenceRow>, dept: string, date: string): (view: seq<OccurrenceRow>)
    ensures forall o :: multiset(view)[o] == (if o.department == dept && o.date == date then multiset(occ)[o] else 0)
    ensures NonIncreasing(view, RowCount)
  {
    MaskKeepsMatchingRows(occ, dept, date);
    SortDescending(AtDepartmentAndDate(occ, dept, date), RowCount)
  }

  /** Line 121, `df_departement`: exactly the rows of `dept` whose date is
      the text-largest date of the table, each as often as in the table,
      sorted by count, largest first. */
  function DepartmentView(occ: seq<OccurrenceRow>, dept: string): (view: seq<OccurrenceRow>)
    ensures forall o :: multiset(view)[o] == (if o.department == dept && Some(o.date) == MaxDate(occ) then multiset(occ)[o] else 0)
    ensures NonIncreasing(view, RowCount)
  {
    match MaxDate(occ)
    case None => []
    case Some(m) => ViewAt(occ, dept, m)
  }

  /** `df_departement['Parrainage'].max()`; `None` (pandas' NaN) for an
      empty view. */
  function MaxCount(view: seq<OccurrenceRow>): (m: Option<nat>)
    ensures m.None? <==> view == []
    ensures m.Some? ==> exists i :: 0 <= i < |view| && view[i].count == m.value
    ensures m.Some? ==> forall i :: 0 <= i < |view| ==> view[i].count <= m.value
  {
    if view == [] then None
    else
      assert forall i :: 0 <= i < |view| - 1 ==> DropLast(view)[i] == view[i];
      match MaxCount(DropLast(view))
      case None => Some(Last(view).count)
      case Some(m) => if Last(view).count <= m then Some(m) else Some(Last(view).count)
  }

  /** Lines 132-133: the tick step is forced to 1 when the largest count is
      at most 10. A NaN maximum compares false, so an empty view keeps the
      default ticks. */
  function TickForced(view: seq<OccurrenceRow>): (b: bool)
    ensures b <==> view != [] && forall i :: 0 <= i < |view| ==> view[i].count <= TickThreshold
  {
    match MaxCount(view)
    case None => false
    case Some(m) => m <= TickThreshold
  }

  /** The number in the title (line 125): `df_departement['Parrainage'].sum()`. */
  function TitleTotal(view: seq<OccurrenceRow>): int
  {
    Sum(view, RowCount)
  }

  /** Sorting does not change the title number: it is the sum over the
      filtered rows. */
  lemma TitleTotalOfFilter(occ: seq<OccurrenceRow>, dept: string, date: string)
    ensures TitleTotal(ViewAt(occ, dept, date)) == Sum(AtDepartmentAndDate(occ, dept, date), RowCount)
  {
    SumPermutation(ViewAt(occ, dept, date), AtDepartmentAndDate(occ, dept, date), RowCount);
  }

  /** The menu of the occurrence table lists exactly the departments of the
      raw table. */
  lemma DepartmentOptionsAreInputDepartments(rows: seq<Record>, dept: string)
    ensures dept in DepartmentOptions(Occurrences(rows)) <==> exists a :: 0 <= a < |rows| && rows[a].department == dept
  {
    var occ := Occurrences(rows);
    if dept in DepartmentOptions(occ) {
      var i :| 0 <= i < |occ| && occ[i].department == dept;
      OccurrenceRowFromInput(rows, i);
    }
    if exists a :: 0 <= a < |rows| && rows[a].department == dept {
      var a :| 0 <= a < |rows| && rows[a].department == dept;
      OccurrenceCoversEveryKey(rows, a, a);
    }
  }

  /** Whatever department is picked from the menu, its view has a row:
      the department's first raw row gives a pair that has a row at every
      date, the largest one included. */
  lemma DepartmentViewNonEmpty(rows: seq<Record>, dept: string)
    requires dept in DepartmentOptions(Occurrences(rows))
    ensures DepartmentView(Occurrences(rows), dept) != []
  {
    var occ := Occurrences(rows);
    DepartmentOptionsAreInputDepartments(rows, dept);
    var a :| 0 <= a < |rows| && rows[a].department == dept;
    var m := MaxDate(occ).value;
    var i :| 0 <= i < |occ| && occ[i].date == m;
    OccurrenceRowFromInput(rows, i);
    var b :| 0 <= b < |rows| && rows[b].date == m;
    OccurrenceCoversEveryKey(rows, a, b);
    var i' :| 0 <= i' < |occ| && occ[i'].department == dept && occ[i'].date == m;
    assert occ[i'] in multiset(occ);
    assert multiset(DepartmentView(occ, dept))[occ[i']] > 0;
  }

  // ---------------------------------------------------------------------
  // The latest publication day

  /** The date the page evidently means to show: the latest day, found by
      comparing `YYYYMMDD` keys. */
  function LatestDate(occ: seq<OccurrenceRow>): (m: Option<string>)
    ensures m.None? <==> occ == []
    ensures m.Some? ==> exists i :: 0 <= i < |occ| && occ[i].date == m.value
    ensures m.Some? ==> forall i :: 0 <= i < |occ| ==> LexLessEq(ChronoKey(occ[i].date), ChronoKey(m.value))
  {
    var column := DateColumn(occ);
    assert forall i :: 0 <= i < |occ| ==> column[i] == occ[i].date;
    MaxBy(column, ChronoKey)
  }

  /** When every date is a `DD/MM/YYYY` date, `LatestDate` is the latest
      day of the table. */
  lemma LatestDateIsLatestDay(occ: seq<OccurrenceRow>)
    requires occ != []
    requires forall i :: 0 <= i < |occ| ==> WellFormed(occ[i].date)
    ensures LatestDate(occ).Some? && WellFormed(LatestDate(occ).value)
    ensures forall i :: 0 <= i < |occ| ==> DayNumber(occ[i].date) <= DayNumber(LatestDate(occ).value)
  {
    var m := LatestDate(occ).value;
    forall i | 0 <= i < |occ|
      ensures DayNumber(occ[i].date) <= DayNumber(m)
    {
      ChronoKeyOrder(occ[i].date, m);
    }
  }

  /** `df_departement` taken at the latest day instead of the text-largest
      date. */
  function LatestDepartmentView(occ: seq<OccurrenceRow>, dept: string): (view: seq<OccurrenceRow>)
    ensures forall o :: multiset(view)[o] == (if o.department == dept && Some(o.date) == LatestDate(occ) then multiset(occ)[o] else 0)
    ensures NonIncreasing(view, RowCount)
  {
    match LatestDate(occ)
    case None => []
    case Some(m) => ViewAt(occ, dept, m)
  }

  /** Two publications of one pair: one row on 24 February 2022 and one
      more on 7 March 2022. */
  const MarchExample: seq<OccurrenceRow> :=
    [OccurrenceRow("X", "Ain", "24/02/2022", 1, Limit), OccurrenceRow("X", "Ain", "07/03/2022", 2, Limit)]

  /** A file with two publications of one pair, on two different dates. */
  function TwoPublications(c: string, d: string, early: string, late: string): seq<Record>
  {
    [Record(c, d, early), Record(c, d, late)]
  }

  lemma TwoPublicationsPairs(c: string, d: string, early: string, late: string)
    ensures Pairs(TwoPublications(c, d, early, late)) == [(c, d)]
  {
    var rows := TwoPublications(c, d, early, late);
    assert Distinct(Candidates(rows)) == [c] by {
      assert Candidates(rows) == [c, c];
      DistinctOfTwo(c, c);
    }
    assert Distinct(DepartmentsOf(rows, c)) == [d] by {
      var ds := Distinct(DepartmentsOf(rows, c));
      assert d in DepartmentsOf(rows, c) by {
        assert rows[0].candidate == c && rows[0].department == d;
      }
      forall i | 0 <= i < |ds|
        ensures ds[i] == d
      {
        assert ds[i] in DepartmentsOf(rows, c);
      }
      NoDupSingleton(ds, d);
    }
    SinglePairPairs(rows, c, d);
  }

  /** One candidate seen in one department gives one pair. */
  lemma SinglePairPairs(rows: seq<Record>, c: string, d: string)
    requires Distinct(Candidates(rows)) == [c] && Distinct(DepartmentsOf(rows, c)) == [d]
    ensures Pairs(rows) == [(c, d)]
  {
    assert DropLast([c]) == [] && Last([c]) == c;
    assert PairsFor(rows, [c]) == PairsFor(rows, []) + WithCandidate(c, [d]);
    assert WithCandidate(c, [d]) == [(c, d)];
  }

  lemma TwoPublicationsDates(c: string, d: string, early: string, late: string)
    requires early != late
    ensures Dates(TwoPublications(c, d, early, late)) == [early, late]
  {
    assert PublicationDates(TwoPublications(c, d, early, late)) == [early, late];
    DistinctOfTwo(early, late);
  }

  lemma TwoPublicationsCounts(c: string, d: string, early: string, late: string)
    requires early != late
    ensures CountOnDates(TwoPublications(c, d, early, late), c, d, [early]) == 1
    ensures CountOnDates(TwoPublications(c, d, early, late), c, d, [early, late]) == 2
  {
    var rows := TwoPublications(c, d, early, late);
    CountOnDatesSnoc([], rows[0], c, d, [early]);
    CountOnDatesSnoc([rows[0]], rows[1], c, d, [early]);
    assert [] + [rows[0]] == [rows[0]] && [rows[0]] + [rows[1]] == rows;
    AllDatesCountWholePair(rows, c, d, [early, late]);
    CountWhereAll(rows, (r: Record) => r.candidate == c && r.department == d);
  }

  lemma TwoPublicationsRow(c: string, d: string, early: string, late: string, k: nat)
    requires early != late && k < 2
    ensures |Occurrences(TwoPublications(c, d, early, late))| == 2
    ensures Occurrences(TwoPublications(c, d, early, late))[k]
         == OccurrenceRow(c, d, [early, late][k], k + 1, Limit)
  {
    var rows := TwoPublications(c, d, early, late);
    var js := [early, late];
    TwoPublicationsPairs(c, d, early, late);
    TwoPublicationsDates(c, d, early, late);
    SinglePairRow(rows, c, d, js, k);
    assert CountOnDates(rows, c, d, js[..k + 1]) == k + 1 by {
      TwoPublicationsCounts(c, d, early, late);
      assert js[..k + 1] == if k == 0 then [early] else js;
    }
  }

  /** When the file holds one pair, the table is that pair's series. */
  lemma SinglePairRow(rows: seq<Record>, c: string, d: string, js: seq<string>, k: nat)
    requires Pairs(rows) == [(c, d)] && Dates(rows) == js && k < |js|
    ensures |Occurrences(rows)| == |js|
    ensures Occurrences(rows)[k] == OccurrenceRow(c, d, js[k], CountOnDates(rows, c, d, js[..k + 1]), Limit)
  {
    OccurrencesLength(rows);
    OccurrenceAt(rows, 0, k);
  }

  /** The page builds, from two publications of one pair on two dates, the
      counts 1 then 2. */
  lemma TwoPublicationsOccurrences(c: string, d: string, early: string, late: string)
    requires early != late
    ensures Occurrences(TwoPublications(c, d, early, late))
         == [OccurrenceRow(c, d, early, 1, Limit), OccurrenceRow(c, d, late, 2, Limit)]
  {
    TwoPublicationsRow(c, d, early, late, 0);
    TwoPublicationsRow(c, d, early, late, 1);
  }

  /** `MarchExample` is the occurrence table the page builds from a file
      with one sponsorship of X from Ain published on 24/02/2022 and another
      on 07/03/2022. */
  lemma MarchExampleIsOccurrences()
    ensures Occurrences(TwoPublications("X", "Ain", "24/02/2022", "07/03/2022")) == MarchExample
  {
    assert "24/02/2022"[0] != "07/03/2022"[0];
    TwoPublicationsOccurrences("X", "Ain", "24/02/2022", "07/03/2022");
  }

  lemma ExampleDays()
    ensures WellFormed("24/02/2022") && WellFormed("07/03/2022")
    ensures DayNumber("24/02/2022") < DayNumber("07/03/2022")
  {
    var early, late := "24/02/2022", "07/03/2022";
    WellFormedFromChars(early);
    WellFormedFromChars(late);
    assert early[6..10] == late[6..10];
    NumberOfTwo(early[3..5]);
    NumberOfTwo(late[3..5]);
    NumberOfTwo(early[0..2]);
    NumberOfTwo(late[0..2]);
  }

  /** As text, "24/02/2022" is the larger of the two dates. */
  lemma ExampleTextMax()
    ensures MaxDate(MarchExample) == Some("24/02/2022")
  {
    assert !LexLessEq("24/02/2022", "07/03/2022");
    assert MarchExample[0].date == "24/02/2022" && MarchExample[1].date == "07/03/2022";
  }

  /** By day, 7 March 2022 is the later of the two. */
  lemma ExampleLatestDay()
    ensures LatestDate(MarchExample) == Some("07/03/2022")
  {
    var early, late := "24/02/2022", "07/03/2022";
    ExampleDays();
    ChronoKeyOrder(late, early);
    assert !LexLessEq(ChronoKey(late), ChronoKey(early));
    assert MarchExample[0].date == early && MarchExample[1].date == late;
    var m := LatestDate(MarchExample).value;
    assert m == early || m == late;
  }

  /** Once a March date is published, the text maximum still picks the
      February date. */
  lemma MaxDateMissesLatestDay()
    ensures MaxDate(MarchExample) == Some("24/02/2022")
    ensures WellFormed("24/02/2022") && WellFormed("07/03/2022")
    ensures DayNumber("24/02/2022") < DayNumber("07/03/2022")
    ensures LatestDate(MarchExample) == Some("07/03/2022")
  {
    ExampleTextMax();
    ExampleDays();
    ExampleLatestDay();
  }

  /** So the page shows the stale count 1 ... */
  lemma StaleDepartmentTotal()
    ensures TitleTotal(DepartmentView(MarchExample, "Ain")) == 1
  {
    ExampleTextMax();
    var a := MarchExample[0];
    assert a != MarchExample[1];
    assert multiset(MarchExample) == multiset{a, MarchExample[1]};
    var view := DepartmentView(MarchExample, "Ain");
    assert multiset(view) == multiset{a};
    SumPermutation(view, [a], RowCount);
  }

  /** ... where the latest day has 2. */
  lemma LatestDepartmentTotal()
    ensures TitleTotal(LatestDepartmentView(MarchExample, "Ain")) == 2
  {
    ExampleLatestDay();
    var b := MarchExample[1];
    assert MarchExample[0] != b;
    assert multiset(MarchExample) == multiset{MarchExample[0], b};
    var latest := LatestDepartmentView(MarchExample, "Ain");
    assert multiset(latest) == multiset{b};
    SumPermutation(latest, [b], RowCount);
  }
}
