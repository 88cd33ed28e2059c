/** The candidate totalizer: `df_parrain`, one row per candidate with the
    number of sponsorships received, sorted by that number, largest first. */
module Totalizer {
  import opened Seqs
  import opened Sorting
  import opened Records

  /** One row of `df_parrain`: `candidat`, `nombre parrainage`, `limite`. */
  datatype TotalRow = TotalRow(candidate: string, count: nat, limit: int)

  /** The `nombre parrainage` column, the sort key. */
  function CountOf(t: TotalRow): int
  {
    t.count
  }

  /** The table before sorting: one row per distinct candidate, in order of
      first appearance, carrying that candidate's row count. */
  function Totals(rows: seq<Record>): (t: seq<TotalRow>)
    ensures forall i, j :: 0 <= i < j < |t| ==> t[i].candidate != t[j].candidate
    ensures forall c :: c in Candidates(rows) <==> exists i :: 0 <= i < |t| && t[i].candidate == c
    ensures forall i :: 0 <= i < |t| ==> t[i].count == CandidateCount(rows, t[i].candidate) && t[i].limit == Limit
  {
    var names := Distinct(Candidates(rows));
    var t := seq(|names|, i requires 0 <= i < |names| => TotalRow(names[i], CandidateCount(rows, names[i]), Limit));
    assert forall i :: 0 <= i < |t| ==> t[i].candidate == names[i];
    t
  }

  /** Lines 16-27: loop over the unique candidates appending each one's
      count, add the constant limit, sort by count descending. */
  method TotalizeCandidates(rows: seq<Record>) returns (table: seq<TotalRow>)
    ensures table == SortDescending(Totals(rows), CountOf)
  {
    var names := Distinct(Candidates(rows));
    var unsorted: seq<TotalRow> := [];
    for i := 0 to |names|
      invariant unsorted == Totals(rows)[..i]
    {
      unsorted := unsorted + [TotalRow(names[i], CandidateCount(rows, names[i]), Limit)];
    }
    assert unsorted == Totals(rows);
    table := SortDescending(unsorted, CountOf);
  }

  /** Every listed candidate has at least one sponsorship. */
  lemma TotalsArePositive(rows: seq<Record>, i: nat)
    requires i < |Totals(rows)|
    ensures Totals(rows)[i].count >= 1
  {
    var c := Totals(rows)[i].candidate;
    CandidateCountIsMultiplicity(rows, c);
    assert c in Candidates(rows);
  }

  /** The counts partition the rows: together they add up to the number
      of rows of the raw table. */
  lemma TotalsSumToRowCount(rows: seq<Record>)
    ensures Sum(Totals(rows), CountOf) == |rows|
  {
    var column := Candidates(rows);
    var names := Distinct(column);
    forall i | 0 <= i < |names|
      ensures CountOf(Totals(rows)[i]) == multiset(column)[names[i]]
    {
      CandidateCountIsMultiplicity(rows, names[i]);
    }
    SumPointwise(Totals(rows), CountOf, names, x => multiset(column)[x]);
    SumOfMultiplicities(column);
  }

  /** Sorting keeps exactly the rows of the unsorted table. */
  lemma SortedTotalsSameRows(rows: seq<Record>)
    ensures var u, t := Totals(rows), SortDescending(Totals(rows), CountOf);
      (forall i :: 0 <= i < |t| ==> t[i] in u) && (forall i :: 0 <= i < |u| ==> u[i] in t)
  {
    var u := Totals(rows);
    var t := SortDescending(u, CountOf);
    forall i | 0 <= i < |t|
      ensures t[i] in u
    {
      assert t[i] in multiset(t);
    }
    forall i | 0 <= i < |u|
      ensures u[i] in t
    {
      assert u[i] in multiset(u);
    }
  }

  /** No candidate appears twice in the sorted table: a row is fixed by
      its candidate, and sorting repeats no row. */
  lemma SortedTotalsDistinctNames(rows: seq<Record>)
    ensures var t := SortDescending(Totals(rows), CountOf);
      forall i, j :: 0 <= i < j < |t| ==> t[i].candidate != t[j].candidate
  {
    var u := Totals(rows);
    var t := SortDescending(u, CountOf);
    assert NoDup(u);
    NoDupPermutation(u, t);
    SortedTotalsCounts(rows);
  }

  /** Reordering rows keeps the set of names they carry. */
  lemma PermutationKeepsNames(u: seq<TotalRow>, t: seq<TotalRow>, c: string)
    requires multiset(u) == multiset(t)
    ensures (exists i :: 0 <= i < |u| && u[i].candidate == c) <==> (exists i :: 0 <= i < |t| && t[i].candidate == c)
  {
    if exists a :: 0 <= a < |u| && u[a].candidate == c {
      var a :| 0 <= a < |u| && u[a].candidate == c;
      assert u[a] in multiset(t);
      var i :| 0 <= i < |t| && t[i] == u[a];
    }
    if exists i :: 0 <= i < |t| && t[i].candidate == c {
      var i :| 0 <= i < |t| && t[i].candidate == c;
      assert t[i] in multiset(u);
      var a :| 0 <= a < |u| && u[a] == t[i];
    }
  }

  /** The sorted table names exactly the candidates of the raw table. */
  lemma SortedTotalsCoverNames(rows: seq<Record>)
    ensures var t := SortDescending(Totals(rows), CountOf);
      forall c :: c in Candidates(rows) <==> exists i :: 0 <= i < |t| && t[i].candidate == c
  {
    var u := Totals(rows);
    var t := SortDescending(u, CountOf);
    forall c
      ensures c in Candidates(rows) <==> exists i :: 0 <= i < |t| && t[i].candidate == c
    {
      PermutationKeepsNames(u, t, c);
    }
  }

  /** Every row of the sorted table carries its candidate's row count and
      the limit 500. */
  lemma SortedTotalsCounts(rows: seq<Record>)
    ensures var t := SortDescending(Totals(rows), CountOf);
      forall i :: 0 <= i < |t| ==> t[i].count == CandidateCount(rows, t[i].candidate) && t[i].limit == Limit
  {
    SortedTotalsSameRows(rows);
  }

  /** `df_parrain` as displayed: each distinct candidate exactly once and no
      other name, its count the number of its rows, the limit 500, counts
      non-increasing, and all counts adding up to the number of rows. */
  lemma SortedTotalsTable(rows: seq<Record>)
    ensures var t := SortDescending(Totals(rows), CountOf);
      && NonIncreasing(t, CountOf)
      && (forall i, j :: 0 <= i < j < |t| ==> t[i].candidate != t[j].candidate)
      && (forall c :: c in Candidates(rows) <==> exists i :: 0 <= i < |t| && t[i].candidate == c)
      && (forall i :: 0 <= i < |t| ==> t[i].count == CandidateCount(rows, t[i].candidate) && t[i].limit == Limit)
      && Sum(t, CountOf) == |rows|
  {
    SortedTotalsDistinctNames(rows);
    SortedTotalsCoverNames(rows);
    SortedTotalsCounts(rows);
    TotalsSumToRowCount(rows);
    SumPermutation(Totals(rows), SortDescending(Totals(rows), CountOf), CountOf);
  }
}
