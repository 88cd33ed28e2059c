/** The cumulative occurrence builder: `df_occurence`, one row per
    (candidate, department the candidate has a sponsorship from, publication
    date of the whole table) with the running number of that pair's
    sponsorships up to that date. Dates are visited in order of first
    appearance in the raw table; they are not sorted. */
module OccurrenceTable {
  import opened Seqs
  import opened Records

  /** One row of `df_occurence`: `Candidats`, `Département`, `Date`,
      `Parrainage`, `Limite`. */
  datatype OccurrenceRow = OccurrenceRow(candidate: string, department: string, date: string, count: nat, limit: int)

  /** The counter `n` of the pair (c, d) once the dates `js` have been
      visited, in that order. */
  function Running(rows: seq<Record>, c: string, d: string, js: seq<string>): nat
  {
    if js == [] then 0 else Running(rows, c, d, DropLast(js)) + CellCount(rows, c, d, Last(js))
  }

  /** The rows emitted for the pair (c, d): one per date of `js`, each with
      the counter after that date. */
  function Series(rows: seq<Record>, c: string, d: string, js: seq<string>): seq<OccurrenceRow>
  {
    seq(|js|, k requires 0 <= k < |js| => OccurrenceRow(c, d, js[k], Running(rows, c, d, js[..k + 1]), Limit))
  }

  /** The pairs (c, d) for the departments `ds`. */
  function WithCandidate(c: string, ds: seq<string>): seq<(string, string)>
  {
    seq(|ds|, m requires 0 <= m < |ds| => (c, ds[m]))
  }

  /** The pairs visited for the candidates `cs`: for each candidate in turn,
      its distinct departments in order of first appearance. */
  function PairsFor(rows: seq<Record>, cs: seq<string>): seq<(string, string)>
  {
    if cs == [] then []
    else PairsFor(rows, DropLast(cs)) + WithCandidate(Last(cs), Distinct(DepartmentsOf(rows, Last(cs))))
  }

  /** Every (candidate, department) pair the outer two loops visit. */
  function Pairs(rows: seq<Record>): seq<(string, string)>
  {
    PairsFor(rows, Distinct(Candidates(rows)))
  }

  /** The rows emitted for the pairs `ps`, in order, each over all of `js`. */
  function Emit(rows: seq<Record>, ps: seq<(string, string)>, js: seq<string>): seq<OccurrenceRow>
  {
    if ps == [] then []
    else Emit(rows, DropLast(ps), js) + Series(rows, Last(ps).0, Last(ps).1, js)
  }

  /** `df_occurence`. */
  function Occurrences(rows: seq<Record>): seq<OccurrenceRow>
  {
    Emit(rows, Pairs(rows), Dates(rows))
  }

  lemma SeriesSnoc(rows: seq<Record>, c: string, d: string, js: seq<string>, k: nat)
    requires k < |js|
    ensures Running(rows, c, d, js[..k + 1]) == Running(rows, c, d, js[..k]) + CellCount(rows, c, d, js[k])
    ensures Series(rows, c, d, js)[..k + 1]
         == Series(rows, c, d, js)[..k] + [OccurrenceRow(c, d, js[k], Running(rows, c, d, js[..k + 1]), Limit)]
  {
    assert DropLast(js[..k + 1]) == js[..k];
    PrefixSnoc(Series(rows, c, d, js), k);
  }

  lemma PairsForSnoc(rows: seq<Record>, cs: seq<string>, i: nat)
    requires i < |cs|
    ensures PairsFor(rows, cs[..i + 1]) == PairsFor(rows, cs[..i]) + WithCandidate(cs[i], Distinct(DepartmentsOf(rows, cs[i])))
  {
    assert DropLast(cs[..i + 1]) == cs[..i];
  }

  lemma WithCandidateSnoc(c: string, ds: seq<string>, m: nat)
    requires m < |ds|
    ensures WithCandidate(c, ds[..m + 1]) == WithCandidate(c, ds[..m]) + [(c, ds[m])]
  {
  }

  lemma EmitSnoc(rows: seq<Record>, ps: seq<(string, string)>, p: (string, string), js: seq<string>)
    ensures Emit(rows, ps + [p], js) == Emit(rows, ps, js) + Series(rows, p.0, p.1, js)
  {
    assert DropLast(ps + [p]) == ps;
  }

  /** Emitting the series of department `m` extends the rows of the
      departments before it to those up to it. */
  lemma DepartmentStep(rows: seq<Record>, done: seq<(string, string)>, c: string, ds: seq<string>, m: nat, js: seq<string>)
    requires m < |ds|
    ensures Emit(rows, done + WithCandidate(c, ds[..m]), js) + Series(rows, c, ds[m], js)
         == Emit(rows, done + WithCandidate(c, ds[..m + 1]), js)
  {
    EmitSnoc(rows, done + WithCandidate(c, ds[..m]), (c, ds[m]), js);
    WithCandidateSnoc(c, ds, m);
    assert done + WithCandidate(c, ds[..m]) + [(c, ds[m])] == done + WithCandidate(c, ds[..m + 1]);
  }

  /** Lines 29-46: for each unique candidate, each unique department of that
      candidate, each unique publication date, add the cell's row count to
      `n` and append the row (c, d, j, n) with the limit 500. */
  method BuildOccurrences(rows: seq<Record>) returns (occ: seq<OccurrenceRow>)
    ensures occ == Occurrences(rows)
  {
    occ := [];
    var candidates := Distinct(Candidates(rows));
    var dates := Dates(rows);
    for i := 0 to |candidates|
      invariant occ == Emit(rows, PairsFor(rows, candidates[..i]), dates)
    {
      var c := candidates[i];
      var departments := Distinct(DepartmentsOf(rows, c));
      ghost var done := PairsFor(rows, candidates[..i]);
      assert done + WithCandidate(c, departments[..0]) == done;
      for m := 0 to |departments|
        invariant occ == Emit(rows, done + WithCandidate(c, departments[..m]), dates)
      {
        var d := departments[m];
        ghost var before := done + WithCandidate(c, departments[..m]);
        ghost var series := Series(rows, c, d, dates);
        var n := 0;
        for k := 0 to |dates|
          invariant n == Running(rows, c, d, dates[..k])
          invariant occ == Emit(rows, before, dates) + series[..k]
        {
          SeriesSnoc(rows, c, d, dates, k);
          n := n + CellCount(rows, c, d, dates[k]);
          occ := occ + [OccurrenceRow(c, d, dates[k], n, Limit)];
        }
        assert series[..|dates|] == series;
        DepartmentStep(rows, done, c, departments, m, dates);
      }
      assert departments[..|departments|] == departments;
      PairsForSnoc(rows, candidates, i);
    }
    assert candidates[..|candidates|] == candidates;
  }
}
