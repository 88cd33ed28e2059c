/** The raw sponsorship table as read from the Constitutional Council's
    file: one row per validated sponsorship, with the three columns the
    aggregation pass reads. */
module Records {
  import opened Seqs

  /** One row of the raw table: `Candidat`, `Département`,
      `Date de publication` (kept as the `DD/MM/YYYY` text it is read as). */
  datatype Record = Record(candidate: string, department: string, date: string)

  /** The constant `limite` / `Limite` column added to both derived tables. */
  const Limit: int := 500

  /** `df['Candidat']` */
  function Candidates(rows: seq<Record>): seq<string>
  {
    seq(|rows|, i requires 0 <= i < |rows| => rows[i].candidate)
  }

  /** `df['Date de publication']` */
  function PublicationDates(rows: seq<Record>): seq<string>
  {
    seq(|rows|, i requires 0 <= i < |rows| => rows[i].date)
  }

  /** `df['Date de publication'].unique()`: every publication date of the
      table, once each, in order of first appearance. */
  function Dates(rows: seq<Record>): (ds: seq<string>)
    ensures NoDup(ds)
    ensures forall j :: j in ds <==> exists i :: 0 <= i < |rows| && rows[i].date == j
  {
    var column := PublicationDates(rows);
    assert forall i :: 0 <= i < |rows| ==> column[i] == rows[i].date;
    Distinct(column)
  }

  /** The distinct dates are listed in the order in which they first
      appear in the `Date de publication` column. */
  lemma DatesKeepFirstAppearanceOrder(rows: seq<Record>, i: nat, j: nat)
    requires i < j < |Dates(rows)|
    ensures FirstIndex(PublicationDates(rows), Dates(rows)[i]) < FirstIndex(PublicationDates(rows), Dates(rows)[j])
  {
    DistinctKeepsFirstAppearanceOrder(PublicationDates(rows), i, j);
  }

  /** `df['Département'][df['Candidat'] == c]`: the departments of the rows
      sponsoring `c`, in row order. */
  function DepartmentsOf(rows: seq<Record>, c: string): (ds: seq<string>)
    ensures forall d :: d in ds <==> exists i :: 0 <= i < |rows| && rows[i].candidate == c && rows[i].department == d
  {
    if rows == [] then []
    else
      var prev := DepartmentsOf(DropLast(rows), c);
      assert forall i :: 0 <= i < |rows| - 1 ==> DropLast(rows)[i] == rows[i];
      if Last(rows).candidate == c then prev + [Last(rows).department] else prev
  }

  /** `df['Candidat'][df['Candidat'] == c].count()`: rows sponsoring `c`. */
  function CandidateCount(rows: seq<Record>, c: string): nat
  {
    CountWhere(rows, (r: Record) => r.candidate == c)
  }

  /** Rows sponsoring `c` from department `d`. */
  function PairCount(rows: seq<Record>, c: string, d: string): nat
  {
    CountWhere(rows, (r: Record) => r.candidate == c && r.department == d)
  }

  /** `len(df[(Candidat == c) & (Département == d) & (Date == j)])`. */
  function CellCount(rows: seq<Record>, c: string, d: string, j: string): nat
  {
    CountWhere(rows, (r: Record) => r.candidate == c && r.department == d && r.date == j)
  }

  /** Rows sponsoring `c` from `d` published on one of the dates `js`. */
  function CountOnDates(rows: seq<Record>, c: string, d: string, js: seq<string>): nat
  {
    CountWhere(rows, (r: Record) => r.candidate == c && r.department == d && r.date in js)
  }

  /** Rows from department `d` published on one of the dates `js`. */
  function DepartmentCountOnDates(rows: seq<Record>, d: string, js: seq<string>): nat
  {
    CountWhere(rows, (r: Record) => r.department == d && r.date in js)
  }

  /** One more row of the file changes a count over dates by that row alone. */
  lemma CountOnDatesSnoc(rows: seq<Record>, x: Record, c: string, d: string, js: seq<string>)
    ensures CountOnDates(rows + [x], c, d, js)
         == CountOnDates(rows, c, d, js) + (if x.candidate == c && x.department == d && x.date in js then 1 else 0)
  {
    assert DropLast(rows + [x]) == rows;
  }

  lemma DepartmentCountSnoc(rows: seq<Record>, x: Record, d: string, js: seq<string>)
    ensures DepartmentCountOnDates(rows + [x], d, js)
         == DepartmentCountOnDates(rows, d, js) + (if x.department == d && x.date in js then 1 else 0)
  {
    assert DropLast(rows + [x]) == rows;
  }

  /** A candidate's count is the multiplicity of its name in the
      `Candidat` column. */
  lemma {:induction false} CandidateCountIsMultiplicity(rows: seq<Record>, c: string)
    ensures CandidateCount(rows, c) == multiset(Candidates(rows))[c]
  {
    if rows != [] {
      CandidateCountIsMultiplicity(DropLast(rows), c);
      assert Candidates(rows) == Candidates(DropLast(rows)) + [Last(rows).candidate];
    }
  }

  /** Summing a candidate/department pair's cells over a list of distinct
      dates counts the pair's rows published on those dates. */
  lemma {:induction false} CellsOverDates(rows: seq<Record>, c: string, d: string, js: seq<string>, j: string)
    requires j !in js
    ensures CountOnDates(rows, c, d, js + [j]) == CountOnDates(rows, c, d, js) + CellCount(rows, c, d, j)
  {
    CountWhereSplit(rows,
      (r: Record) => r.candidate == c && r.department == d && r.date in js + [j],
      (r: Record) => r.candidate == c && r.department == d && r.date in js,
      (r: Record) => r.candidate == c && r.department == d && r.date == j);
  }

  /** When every row's date is listed, counting over the dates counts every
      row of the pair. */
  lemma AllDatesCountWholePair(rows: seq<Record>, c: string, d: string, js: seq<string>)
    requires forall i :: 0 <= i < |rows| ==> rows[i].date in js
    ensures CountOnDates(rows, c, d, js) == PairCount(rows, c, d)
  {
    CountWhereExt(rows,
      (r: Record) => r.candidate == c && r.department == d && r.date in js,
      (r: Record) => r.candidate == c && r.department == d);
  }
}
