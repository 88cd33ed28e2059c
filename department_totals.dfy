/** What the number in the department page's title counts, traced back to
    the raw table: at publication date `Dates(rows)[k]`, the sum of the
    department's cumulative counts is the number of the department's
    sponsorships published on that date or on a date first seen before it. */
module DepartmentTotals {
  import opened Options
  import opened Seqs
  import opened Records
  import opened OccurrenceTable
  import opened OccurrenceProperties
  import opened DepartmentPage

  /** What one pair (candidate, department) adds to the department `dept`
      over the dates `js`. */
  function PairShare(rows: seq<Record>, dept: string, js: seq<string>, p: (string, string)): nat
  {
    if p.1 == dept then CountOnDates(rows, p.0, p.1, js) else 0
  }

  function PairShares(rows: seq<Record>, dept: string, js: seq<string>): ((string, string)) -> int
  {
    p => PairShare(rows, dept, js, p)
  }

  // ---------------------------------------------------------------------
  // The filter over the emitted rows

  lemma {:induction false} FilterAppend(a: seq<OccurrenceRow>, b: seq<OccurrenceRow>, dept: string, date: string)
    ensures AtDepartmentAndDate(a + b, dept, date) == AtDepartmentAndDate(a, dept, date) + AtDepartmentAndDate(b, dept, date)
  {
    if b == [] {
      assert a + b == a;
    } else {
      FilterAppend(a, DropLast(b), dept, date);
      assert DropLast(a + b) == a + DropLast(b);
      assert Last(a + b) == Last(b);
    }
  }

  /** Over distinct dates, the mask keeps at most the row of date `k` from
      a pair's series: the one of the first `n` rows, when the pair is in
      `dept`. */
  lemma {:induction false} SeriesFilterPrefix(rows: seq<Record>, c: string, d: string, js: seq<string>, dept: string, k: nat, n: nat)
    requires NoDup(js) && k < |js| && n <= |js|
    ensures AtDepartmentAndDate(Series(rows, c, d, js)[..n], dept, js[k])
         == if d == dept && k < n then [Series(rows, c, d, js)[k]] else []
  {
    if n > 0 {
      var s := Series(rows, c, d, js);
      SeriesFilterPrefix(rows, c, d, js, dept, k, n - 1);
      assert DropLast(s[..n]) == s[..n - 1];
      assert Last(s[..n]) == s[n - 1];
      assert s[n - 1].department == d && s[n - 1].date == js[n - 1];
    }
  }

  lemma PrefixNoDup<T>(s: seq<T>, n: nat)
    requires NoDup(s) && n <= |s|
    ensures NoDup(s[..n])
  {
  }

  /** From one pair's series the mask keeps the row of date `k`, whose
      count is the pair's share. */
  lemma SeriesFilterSum(rows: seq<Record>, p: (string, string), js: seq<string>, dept: string, k: nat)
    requires NoDup(js) && k < |js|
    ensures Sum(AtDepartmentAndDate(Series(rows, p.0, p.1, js), dept, js[k]), RowCount)
         == PairShares(rows, dept, js[..k + 1])(p)
  {
    var s := Series(rows, p.0, p.1, js);
    SeriesFilterPrefix(rows, p.0, p.1, js, dept, k, |js|);
    assert s[..|js|] == s;
    PrefixNoDup(js, k + 1);
    RunningCountsListedDates(rows, p.0, p.1, js[..k + 1]);
    if p.1 == dept {
      assert Sum([s[k]], RowCount) == s[k].count;
    }
  }

  /** The masked rows of the pairs `ps` sum to the pairs' shares. */
  lemma {:induction false} EmitFilterSum(rows: seq<Record>, ps: seq<(string, string)>, js: seq<string>, dept: string, k: nat)
    requires NoDup(js) && k < |js|
    ensures Sum(AtDepartmentAndDate(Emit(rows, ps, js), dept, js[k]), RowCount) == Sum(ps, PairShares(rows, dept, js[..k + 1]))
  {
    if ps != [] {
      var init, p := DropLast(ps), Last(ps);
      var front, back := Emit(rows, init, js), Series(rows, p.0, p.1, js);
      assert Emit(rows, ps, js) == front + back;
      EmitFilterSum(rows, init, js, dept, k);
      FilterAppend(front, back, dept, js[k]);
      SumAppend(AtDepartmentAndDate(front, dept, js[k]), AtDepartmentAndDate(back, dept, js[k]), RowCount);
      SeriesFilterSum(rows, p, js, dept, k);
    }
  }

  // ---------------------------------------------------------------------
  // Pairs partition the department's rows

  /** Summing the shares of distinct pairs that include every pair of the
      table counts each row of `dept` on the dates `js` once. */
  lemma {:induction false} SharesCountDepartment(rows: seq<Record>, ps: seq<(string, string)>, dept: string, js: seq<string>)
    requires NoDup(ps)
    requires forall i :: 0 <= i < |rows| ==> (rows[i].candidate, rows[i].department) in ps
    ensures Sum(ps, PairShares(rows, dept, js)) == DepartmentCountOnDates(rows, dept, js)
  {
    if rows == [] {
      forall i | 0 <= i < |ps|
        ensures PairShares(rows, dept, js)(ps[i]) == 0
      {
      }
      SumOfZeros(ps, PairShares(rows, dept, js));
    } else {
      var init, x := DropLast(rows), Last(rows);
      assert rows == init + [x];
      assert forall i :: 0 <= i < |init| ==> init[i] == rows[i];
      SharesCountDepartment(init, ps, dept, js);
      DepartmentCountSnoc(init, x, dept, js);
      var y := (x.candidate, x.department);
      forall p
        ensures PairShares(rows, dept, js)(p)
             == PairShares(init, dept, js)(p) + (if p == y && x.department == dept && x.date in js then 1 else 0)
      {
        CountOnDatesSnoc(init, x, p.0, p.1, js);
      }
      if x.department == dept && x.date in js {
        SumBump(ps, PairShares(init, dept, js), PairShares(rows, dept, js), y);
      } else {
        SumPointwise(ps, PairShares(init, dept, js), ps, PairShares(rows, dept, js));
      }
    }
  }

  // ---------------------------------------------------------------------
  // The title number

  /** Lines 121 and 125 at a publication date `Dates(rows)[k]`: the title
      number is the count of the department's sponsorships published on
      that date or on one first seen before it. */
  lemma ViewTotalCountsRows(rows: seq<Record>, dept: string, k: nat)
    requires k < |Dates(rows)|
    ensures TitleTotal(ViewAt(Occurrences(rows), dept, Dates(rows)[k])) == DepartmentCountOnDates(rows, dept, Dates(rows)[..k + 1])
  {
    var ps, js := Pairs(rows), Dates(rows);
    TitleTotalOfFilter(Occurrences(rows), dept, js[k]);
    EmitFilterSum(rows, ps, js, dept, k);
    forall i | 0 <= i < |rows|
      ensures (rows[i].candidate, rows[i].department) in ps
    {
      PairsAreTheInputPairs(rows, rows[i].candidate, rows[i].department);
    }
    PairsNoDup(rows);
    SharesCountDepartment(rows, ps, dept, js[..k + 1]);
  }

  /** The page's date is one of the publication dates of a non-empty table. */
  lemma MaxDateIsAPublicationDate(rows: seq<Record>)
    requires rows != []
    ensures MaxDate(Occurrences(rows)).Some?
    ensures MaxDate(Occurrences(rows)).value in Dates(rows)
  {
    var occ := Occurrences(rows);
    OccurrenceCoversEveryKey(rows, 0, 0);
    var i :| 0 <= i < |occ| && occ[i].date == MaxDate(occ).value;
    OccurrenceRowFromInput(rows, i);
  }

  /** The title of `df_departement`, when the text-largest date is the
      `k`-th distinct publication date. */
  lemma DepartmentTitleCountsRows(rows: seq<Record>, dept: string, k: nat)
    requires k < |Dates(rows)| && MaxDate(Occurrences(rows)) == Some(Dates(rows)[k])
    ensures TitleTotal(DepartmentView(Occurrences(rows), dept)) == DepartmentCountOnDates(rows, dept, Dates(rows)[..k + 1])
  {
    ViewTotalCountsRows(rows, dept, k);
  }

  /** The same count for the view taken at the latest day. */
  lemma LatestDepartmentTitleCountsRows(rows: seq<Record>, dept: string, k: nat)
    requires k < |Dates(rows)| && LatestDate(Occurrences(rows)) == Some(Dates(rows)[k])
    ensures TitleTotal(LatestDepartmentView(Occurrences(rows), dept)) == DepartmentCountOnDates(rows, dept, Dates(rows)[..k + 1])
  {
    ViewTotalCountsRows(rows, dept, k);
  }
}
