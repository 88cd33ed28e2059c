/** What `df_occurence` holds: its shape (one row per visited pair and
    publication date), where its values come from, and how the running
    count behaves along the dates. */
module OccurrenceProperties {
  import opened Seqs
  import opened Records
  import opened OccurrenceTable

  // ---------------------------------------------------------------------
  // The running counter of one pair

  /** The counter after visiting distinct dates `js` is the number of the
      pair's rows published on one of those dates. */
  lemma {:induction false} RunningCountsListedDates(rows: seq<Record>, c: string, d: string, js: seq<string>)
    requires NoDup(js)
    ensures Running(rows, c, d, js) == CountOnDates(rows, c, d, js)
  {
    if js == [] {
      CountWhereNone(rows, (r: Record) => r.candidate == c && r.department == d && r.date in js);
    } else {
      var init, j := DropLast(js), Last(js);
      assert js == init + [j];
      RunningCountsListedDates(rows, c, d, init);
      CellsOverDates(rows, c, d, init, j);
    }
  }

  /** Visiting more dates never lowers the counter. */
  lemma {:induction false} RunningMonotone(rows: seq<Record>, c: string, d: string, js: seq<string>, k: nat, k': nat)
    requires k <= k' <= |js|
    ensures Running(rows, c, d, js[..k]) <= Running(rows, c, d, js[..k'])
    decreases k' - k
  {
    if k < k' {
      RunningMonotone(rows, c, d, js, k, k' - 1);
      assert DropLast(js[..k']) == js[..k' - 1];
    }
  }

  // ---------------------------------------------------------------------
  // Shape of the emitted rows

  lemma {:induction false} EmitLength(rows: seq<Record>, ps: seq<(string, string)>, js: seq<string>)
    ensures |Emit(rows, ps, js)| == |ps| * |js|
  {
    if ps != [] {
      EmitLength(rows, DropLast(ps), js);
      assert |ps| * |js| == |DropLast(ps)| * |js| + |js|;
    }
  }

  /** The rows of pair number `p` occupy positions `p * |js|` to
      `p * |js| + |js| - 1`, one per date in the order of `js`. */
  lemma {:induction false} EmitAt(rows: seq<Record>, ps: seq<(string, string)>, js: seq<string>, p: nat, k: nat)
    requires p < |ps| && k < |js|
    ensures p * |js| + k < |Emit(rows, ps, js)|
    ensures Emit(rows, ps, js)[p * |js| + k] == Series(rows, ps[p].0, ps[p].1, js)[k]
  {
    var init, last := DropLast(ps), Last(ps);
    var front, back := Emit(rows, init, js), Series(rows, last.0, last.1, js);
    assert Emit(rows, ps, js) == front + back;
    EmitLength(rows, init, js);
    var at := p * |js| + k;
    BlockBounds(p, |init|, |js|, k);
    if p < |init| {
      EmitAt(rows, init, js, p, k);
      assert (front + back)[at] == front[at];
    } else {
      assert (front + back)[at] == back[k];
    }
  }

  /** Block `p` of `n + 1` blocks of `dd` positions: its offset `k` lies
      before the last block when `p < n`, and at offset `k` of it when `p == n`. */
  lemma BlockBounds(p: nat, n: nat, dd: nat, k: nat)
    requires p <= n && k < dd
    ensures p < n ==> p * dd + k < n * dd
    ensures p == n ==> p * dd + k == n * dd + k
    ensures p * dd + k < n * dd + dd
  {
    MulMonotone(p, n, dd);
    if p < n {
      MulMonotone(p + 1, n, dd);
    }
  }

  /** `EmitAt` with the counter read as a count of rows. */
  lemma EmitRow(rows: seq<Record>, ps: seq<(string, string)>, js: seq<string>, p: nat, k: nat)
    requires NoDup(js) && p < |ps| && k < |js|
    ensures p * |js| + k < |Emit(rows, ps, js)|
    ensures Emit(rows, ps, js)[p * |js| + k]
         == OccurrenceRow(ps[p].0, ps[p].1, js[k], CountOnDates(rows, ps[p].0, ps[p].1, js[..k + 1]), Limit)
  {
    EmitAt(rows, ps, js, p, k);
    RunningCountsListedDates(rows, ps[p].0, ps[p].1, js[..k + 1]);
  }

  /** Any emitted row is the row of some pair `p` at some date `k`. */
  lemma EmitIndex(rows: seq<Record>, ps: seq<(string, string)>, js: seq<string>, i: nat) returns (p: nat, k: nat)
    requires i < |Emit(rows, ps, js)|
    ensures p < |ps| && k < |js| && i == p * |js| + k
    ensures Emit(rows, ps, js)[i].candidate == ps[p].0
    ensures Emit(rows, ps, js)[i].department == ps[p].1
    ensures Emit(rows, ps, js)[i].date == js[k]
    ensures Emit(rows, ps, js)[i].limit == Limit
  {
    EmitLength(rows, ps, js);
    p, k := DivModIndex(i, |ps|, |js|);
    EmitAt(rows, ps, js, p, k);
  }

  /** With no pair and no date repeated, a (candidate, department, date)
      key fixes the position of its row. */
  lemma EmitKeysUnique(rows: seq<Record>, ps: seq<(string, string)>, js: seq<string>, i: nat, i': nat)
    requires NoDup(ps) && NoDup(js)
    requires i < |Emit(rows, ps, js)| && i' < |Emit(rows, ps, js)|
    requires Emit(rows, ps, js)[i].candidate == Emit(rows, ps, js)[i'].candidate
    requires Emit(rows, ps, js)[i].department == Emit(rows, ps, js)[i'].department
    requires Emit(rows, ps, js)[i].date == Emit(rows, ps, js)[i'].date
    ensures i == i'
  {
    var p, k := EmitIndex(rows, ps, js, i);
    var p', k' := EmitIndex(rows, ps, js, i');
    NoDupIndex(ps, p, p');
    NoDupIndex(js, k, k');
  }

  lemma MulMonotone(a: nat, b: nat, m: nat)
    requires a <= b
    ensures a * m <= b * m
  {
  }

  /** A position below `n * D` splits into a block number below `n` and an
      offset below `D`. */
  lemma DivModIndex(i: nat, n: nat, dd: nat) returns (q: nat, r: nat)
    requires i < n * dd
    ensures q < n && r < dd && i == q * dd + r
  {
    q, r := i / dd, i % dd;
    if q >= n {
      MulMonotone(n, q, dd);
    }
  }

  // ---------------------------------------------------------------------
  // The visited pairs

  /** A pair is visited exactly when its candidate is visited and the
      candidate has a row from its department. */
  lemma {:induction false} PairsForMembership(rows: seq<Record>, cs: seq<string>, c: string, d: string)
    ensures (c, d) in PairsFor(rows, cs) <==> c in cs && d in DepartmentsOf(rows, c)
  {
    if cs != [] {
      var init, last := DropLast(cs), Last(cs);
      assert cs == init + [last];
      PairsForMembership(rows, init, c, d);
      var w := WithCandidate(last, Distinct(DepartmentsOf(rows, last)));
      if (c, d) in w {
        var m :| 0 <= m < |w| && w[m] == (c, d);
        assert Distinct(DepartmentsOf(rows, last))[m] == d;
      }
      if c == last && d in DepartmentsOf(rows, c) {
        var ds := Distinct(DepartmentsOf(rows, last));
        var m :| 0 <= m < |ds| && ds[m] == d;
        assert w[m] == (c, d);
      }
    }
  }

  /** No pair is visited twice. */
  lemma {:induction false} PairsForNoDup(rows: seq<Record>, cs: seq<string>)
    requires NoDup(cs)
    ensures NoDup(PairsFor(rows, cs))
  {
    if cs != [] {
      var init, last := DropLast(cs), Last(cs);
      assert cs == init + [last];
      PairsForNoDup(rows, init);
      var w := WithCandidate(last, Distinct(DepartmentsOf(rows, last)));
      forall m | 0 <= m < |w|
        ensures w[m] !in PairsFor(rows, init)
      {
        PairsForMembership(rows, init, w[m].0, w[m].1);
      }
      NoDupConcat(PairsFor(rows, init), w);
    }
  }

  /** No (candidate, department) pair is visited twice. */
  lemma PairsNoDup(rows: seq<Record>)
    ensures NoDup(Pairs(rows))
  {
    PairsForNoDup(rows, Distinct(Candidates(rows)));
  }

  /** The visited pairs are exactly the (candidate, department) pairs that
      occur in the raw table, each once. */
  lemma PairsAreTheInputPairs(rows: seq<Record>, c: string, d: string)
    ensures NoDup(Pairs(rows))
    ensures (c, d) in Pairs(rows) <==> exists i :: 0 <= i < |rows| && rows[i].candidate == c && rows[i].department == d
  {
    PairsForNoDup(rows, Distinct(Candidates(rows)));
    PairsForMembership(rows, Distinct(Candidates(rows)), c, d);
    if d in DepartmentsOf(rows, c) {
      var i :| 0 <= i < |rows| && rows[i].candidate == c && rows[i].department == d;
      assert Candidates(rows)[i] == c;
    }
  }

  // ---------------------------------------------------------------------
  // The occurrence table

  /** The table has one block of rows per visited pair, each block one row
      per publication date. */
  lemma OccurrencesLength(rows: seq<Record>)
    ensures |Occurrences(rows)| == |Pairs(rows)| * |Dates(rows)|
  {
    EmitLength(rows, Pairs(rows), Dates(rows));
  }

  /** Row `p * D + k` (D the number of dates) is pair `p` at date `k`, and
      its count is the number of that pair's rows published on date `k`
      or on a date first seen before it. */
  lemma OccurrenceAt(rows: seq<Record>, p: nat, k: nat)
    requires p < |Pairs(rows)| && k < |Dates(rows)|
    ensures p * |Dates(rows)| + k < |Occurrences(rows)|
    ensures Occurrences(rows)[p * |Dates(rows)| + k]
         == OccurrenceRow(Pairs(rows)[p].0, Pairs(rows)[p].1, Dates(rows)[k],
                          CountOnDates(rows, Pairs(rows)[p].0, Pairs(rows)[p].1, Dates(rows)[..k + 1]), Limit)
  {
    EmitRow(rows, Pairs(rows), Dates(rows), p, k);
  }

  /** Candidate and department of every row come from one raw row, its
      date from another, and its limit is 500. */
  lemma OccurrenceRowFromInput(rows: seq<Record>, i: nat)
    requires i < |Occurrences(rows)|
    ensures Occurrences(rows)[i].limit == Limit
    ensures exists a :: 0 <= a < |rows| && rows[a].candidate == Occurrences(rows)[i].candidate
                                       && rows[a].department == Occurrences(rows)[i].department
    ensures exists b :: 0 <= b < |rows| && rows[b].date == Occurrences(rows)[i].date
  {
    var ps, js := Pairs(rows), Dates(rows);
    var o := Occurrences(rows)[i];
    var p, k := EmitIndex(rows, ps, js, i);
    assert ps[p] == (o.candidate, o.department);
    PairsAreTheInputPairs(rows, o.candidate, o.department);
    assert js[k] == o.date && o.date in js;
  }

  /** Every pair of the raw table has a row for every publication date. */
  lemma OccurrenceCoversEveryKey(rows: seq<Record>, a: nat, b: nat)
    requires a < |rows| && b < |rows|
    ensures exists i :: (0 <= i < |Occurrences(rows)|
                         && Occurrences(rows)[i].candidate == rows[a].candidate
                         && Occurrences(rows)[i].department == rows[a].department
                         && Occurrences(rows)[i].date == rows[b].date)
  {
    var c, d, j := rows[a].candidate, rows[a].department, rows[b].date;
    var ps, js := Pairs(rows), Dates(rows);
    assert (c, d) in ps by {
      PairsAreTheInputPairs(rows, c, d);
    }
    assert j in js by {
      assert PublicationDates(rows)[b] == j;
    }
    var p, k := FirstIndex(ps, (c, d)), FirstIndex(js, j);
    OccurrenceAt(rows, p, k);
    var i := p * |js| + k;
    assert Occurrences(rows)[i].candidate == c && Occurrences(rows)[i].department == d
        && Occurrences(rows)[i].date == j;
  }

  /** No two rows share a (candidate, department, date) key. */
  lemma OccurrenceKeysUnique(rows: seq<Record>, i: nat, i': nat)
    requires i < |Occurrences(rows)| && i' < |Occurrences(rows)|
    requires Occurrences(rows)[i].candidate == Occurrences(rows)[i'].candidate
    requires Occurrences(rows)[i].department == Occurrences(rows)[i'].department
    requires Occurrences(rows)[i].date == Occurrences(rows)[i'].date
    ensures i == i'
  {
    PairsNoDup(rows);
    EmitKeysUnique(rows, Pairs(rows), Dates(rows), i, i');
  }

  /** Row `p * D + k` counts one more than row `p * D + k - 1` for each of
      the pair's rows published on date `k`: a date without such rows
      repeats the previous value. */
  lemma OccurrenceStep(rows: seq<Record>, p: nat, k: nat)
    requires p < |Pairs(rows)| && 0 < k < |Dates(rows)|
    ensures p * |Dates(rows)| + k < |Occurrences(rows)|
    ensures Occurrences(rows)[p * |Dates(rows)| + k].count
         == Occurrences(rows)[p * |Dates(rows)| + k - 1].count + CellCount(rows, Pairs(rows)[p].0, Pairs(rows)[p].1, Dates(rows)[k])
  {
    var ps, js := Pairs(rows), Dates(rows);
    EmitAt(rows, ps, js, p, k);
    EmitAt(rows, ps, js, p, k - 1);
    SeriesSnoc(rows, ps[p].0, ps[p].1, js, k);
  }

  /** Along the dates, a pair's counts never decrease. */
  lemma OccurrenceNonDecreasing(rows: seq<Record>, p: nat, k: nat, k': nat)
    requires p < |Pairs(rows)| && k <= k' < |Dates(rows)|
    ensures p * |Dates(rows)| + k' < |Occurrences(rows)|
    ensures Occurrences(rows)[p * |Dates(rows)| + k].count <= Occurrences(rows)[p * |Dates(rows)| + k'].count
  {
    var ps, js := Pairs(rows), Dates(rows);
    EmitAt(rows, ps, js, p, k);
    EmitAt(rows, ps, js, p, k');
    RunningMonotone(rows, ps[p].0, ps[p].1, js, k + 1, k' + 1);
  }

  /** A pair's row at the last publication date carries all of the pair's
      rows. */
  lemma OccurrenceFinal(rows: seq<Record>, p: nat)
    requires p < |Pairs(rows)| && |Dates(rows)| > 0
    ensures p * |Dates(rows)| + |Dates(rows)| - 1 < |Occurrences(rows)|
    ensures Occurrences(rows)[p * |Dates(rows)| + |Dates(rows)| - 1].count == PairCount(rows, Pairs(rows)[p].0, Pairs(rows)[p].1)
  {
    var ps, js := Pairs(rows), Dates(rows);
    OccurrenceAt(rows, p, |js| - 1);
    assert js[..|js|] == js;
    AllDatesCountWholePair(rows, ps[p].0, ps[p].1, js);
  }
}
