/** Reading Silver through the commit fence: the pushed-down filter and the plain join give the same rows. */
module SilverReads {
  import opened Prelude
  import opened SilverStore
  import opened WriterProtocol
  import opened WriterRefinement

  // ---------------------------------------------------------------- the dataframe operations

  /** Equality with one run ID, or IS IN several. */
  predicate Selects(filter: seq<RunId>, run: RunId) {
    if |filter| == 1 then run == filter[0] else run in filter
  }

  function WhereRows(rows: Frame, filter: seq<RunId>): Frame {
    if rows == [] then []
    else (if Selects(filter, rows[0].owner) then [rows[0]] else []) + WhereRows(rows[1..], filter)
  }

  function WhereRuns(runs: seq<RunId>, filter: seq<RunId>): seq<RunId> {
    if runs == [] then []
    else (if Selects(filter, runs[0]) then [runs[0]] else []) + WhereRuns(runs[1..], filter)
  }

  function Matches(row: Row, runs: seq<RunId>): Frame {
    if runs == [] then [] else (if runs[0] == row.owner then [row] else []) + Matches(row, runs[1..])
  }

  /** One output row for every pair of a row and a run with its ID. */
  function InnerJoin(rows: Frame, runs: seq<RunId>): Frame {
    if rows == [] then [] else Matches(rows[0], runs) + InnerJoin(rows[1..], runs)
  }

  function LeftSemiJoin(rows: Frame, runs: seq<RunId>): Frame {
    if rows == [] then [] else (if rows[0].owner in runs then [rows[0]] else []) + LeftSemiJoin(rows[1..], runs)
  }

  datatype ReadError = EmptyFilter

  /** One table of `visible_dataframes`. */
  function VisibleRows(rows: Frame, committed: seq<RunId>, filter: Option<seq<RunId>>): Result<Frame, ReadError> {
    match filter
    case None => Ok(InnerJoin(rows, Dedup(committed)))
    case Some(runs) =>
      var wanted := Dedup(runs);
      if wanted == [] then Err(EmptyFilter)
      else Ok(LeftSemiJoin(WhereRows(rows, wanted), WhereRuns(Dedup(committed), wanted)))
  }

  // ---------------------------------------------------------------- the two plans agree

  lemma {:induction false} WhereRunsAre(runs: seq<RunId>, filter: seq<RunId>)
    ensures forall r :: r in WhereRuns(runs, filter) <==> r in runs && Selects(filter, r)
  {
    if runs != [] {
      WhereRunsAre(runs[1..], filter);
      assert runs == [runs[0]] + runs[1..];
    }
  }

  lemma {:induction false} MatchesOnce(row: Row, runs: seq<RunId>)
    requires Distinct(runs)
    ensures Matches(row, runs) == if row.owner in runs then [row] else []
  {
    if runs != [] {
      MatchesOnce(row, runs[1..]);
      assert runs == [runs[0]] + runs[1..];
      if runs[0] == row.owner {
        assert row.owner !in runs[1..];
      }
    }
  }

  /** Joining with distinct runs keeps each matching row once. */
  lemma {:induction false} JoinIsSemiJoin(rows: Frame, runs: seq<RunId>)
    requires Distinct(runs)
    ensures InnerJoin(rows, runs) == LeftSemiJoin(rows, runs)
  {
    if rows != [] {
      MatchesOnce(rows[0], runs);
      JoinIsSemiJoin(rows[1..], runs);
    }
  }

  lemma {:induction false} FilterCommutes(rows: Frame, runs: seq<RunId>, filter: seq<RunId>)
    ensures LeftSemiJoin(WhereRows(rows, filter), WhereRuns(runs, filter))
            == WhereRows(LeftSemiJoin(rows, runs), filter)
  {
    WhereRunsAre(runs, filter);
    if rows != [] {
      var row, rest := rows[0], rows[1..];
      FilterCommutes(rest, runs, filter);
      if Selects(filter, row.owner) {
        assert ([row] + WhereRows(rest, filter))[1..] == WhereRows(rest, filter);
      } else {
        assert [] + WhereRows(rest, filter) == WhereRows(rest, filter);
      }
      if row.owner in runs {
        assert ([row] + LeftSemiJoin(rest, runs))[1..] == LeftSemiJoin(rest, runs);
      } else {
        assert [] + LeftSemiJoin(rest, runs) == LeftSemiJoin(rest, runs);
      }
    }
  }

  lemma SelectsIsMembership(filter: seq<RunId>, run: RunId)
    requires filter != []
    ensures Selects(filter, run) <==> run in filter
  {
  }

  lemma {:induction false} WhereRowsIsMembership(rows: Frame, filter: seq<RunId>, same: seq<RunId>)
    requires filter != [] && forall r :: r in filter <==> r in same
    ensures WhereRows(rows, filter) == WhereRows(rows, same)
  {
    if rows != [] {
      assert filter[0] in same;
      SelectsIsMembership(filter, rows[0].owner);
      SelectsIsMembership(same, rows[0].owner);
      WhereRowsIsMembership(rows[1..], filter, same);
    }
  }

  /** Filtering rows and commits first and then semi-joining gives the rows of the plain join with the
      deduplicated commits, filtered afterwards; only the empty filter is refused. */
  lemma PushdownPreservesRows(rows: Frame, committed: seq<RunId>, filter: seq<RunId>)
    ensures VisibleRows(rows, committed, Some(filter)).Ok? <==> filter != []
    ensures filter != [] ==>
              VisibleRows(rows, committed, Some(filter)).value
                  == WhereRows(VisibleRows(rows, committed, None).value, filter)
  {
    if filter != [] {
      var wanted := Dedup(filter);
      assert filter[0] in wanted;
      var runs := Dedup(committed);
      JoinIsSemiJoin(rows, runs);
      FilterCommutes(rows, runs, wanted);
      WhereRowsIsMembership(LeftSemiJoin(rows, runs), wanted, filter);
    }
  }

  lemma {:induction false} VisibleAre(rows: Frame, runs: seq<RunId>)
    ensures forall row :: row in LeftSemiJoin(rows, runs) <==> row in rows && row.owner in runs
  {
    if rows != [] {
      VisibleAre(rows[1..], runs);
      assert rows == [rows[0]] + rows[1..];
    }
  }

  lemma {:induction false} SemiJoinMultiplicity(rows: Frame, runs: seq<RunId>, row: Row)
    ensures multiset(LeftSemiJoin(rows, runs))[row] == if row.owner in runs then multiset(rows)[row] else 0
  {
    if rows != [] {
      assert rows == [rows[0]] + rows[1..];
      SemiJoinMultiplicity(rows[1..], runs, row);
    }
  }

  lemma {:induction false} WhereMultiplicity(rows: Frame, filter: seq<RunId>, row: Row)
    requires filter != []
    ensures multiset(WhereRows(rows, filter))[row] == if row.owner in filter then multiset(rows)[row] else 0
  {
    if rows != [] {
      assert rows == [rows[0]] + rows[1..];
      SelectsIsMembership(filter, rows[0].owner);
      WhereMultiplicity(rows[1..], filter, row);
    }
  }

  /** What a read returns, row by row: each stored row as often as it is stored if its run is committed and, when a
      filter is given, named by it; and not at all otherwise. */
  lemma {:induction false} ReadMultiplicity(rows: Frame, committed: seq<RunId>, filter: seq<RunId>, row: Row)
    ensures VisibleRows(rows, committed, None).Ok?
    ensures multiset(VisibleRows(rows, committed, None).value)[row]
            == if row.owner in committed then multiset(rows)[row] else 0
    ensures VisibleRows(rows, committed, Some(filter)).Ok? <==> filter != []
    ensures filter != [] ==> multiset(VisibleRows(rows, committed, Some(filter)).value)[row]
                             == if row.owner in committed && row.owner in filter then multiset(rows)[row] else 0
  {
    hide WhereRows, LeftSemiJoin, InnerJoin;
    var runs := Dedup(committed);
    JoinIsSemiJoin(rows, runs);
    SemiJoinMultiplicity(rows, runs, row);
    if filter != [] {
      PushdownPreservesRows(rows, committed, filter);
      WhereMultiplicity(InnerJoin(rows, runs), filter, row);
    }
  }

  /** Without the deduplication a run committed twice would show its rows twice. */
  lemma DuplicateCommitDoublesRows(row: Row)
    ensures InnerJoin([row], [row.owner, row.owner]) == [row, row]
    ensures VisibleRows([row], [row.owner, row.owner], None) == Ok([row])
  {
    assert [row.owner, row.owner][1..] == [row.owner];
    assert [row][1..] == [];
    assert Matches(row, [row.owner]) == [row] by { assert [row.owner][1..] == []; }
    assert Dedup([row.owner]) == [row.owner] by { assert [row.owner][1..] == []; }
    JoinIsSemiJoin([row], [row.owner]);
    assert LeftSemiJoin([row], [row.owner]) == [row];
    assert Dedup([row.owner, row.owner]) == [row.owner];
  }

  // ---------------------------------------------------------------- what a reader of a good catalog sees

  /** The rows a snapshot read returns, in some order. */
  ghost predicate Lists(rows: Frame, stored: RowMap) {
    forall row :: row in rows <==> exists k :: k in stored && stored[k] == row
  }

  lemma PinnedSnapshotIsWhole(plan: KeyPlan, catalog: Catalog, run: RunId, t: nat, position: nat)
    requires PlanFitsCounts(plan) && CatalogInvariant(plan, catalog)
    requires run in catalog.commits && t < TABLE_COUNT && position < |catalog.tables[t]|
    requires |catalog.commits[run].snapshots| == TABLE_COUNT
             && (catalog.commits[run].snapshots[t].Some? ==> catalog.commits[run].snapshots[t].value <= position + 1)
    ensures OwnedKeys(catalog.tables[t][position].rows, run) == plan(run, t)
  {
    var log := catalog.tables[t];
    assert Fenced(plan, catalog, run);
    OwnedWithinPlan(plan, t, log[position].rows, run);
    match catalog.commits[run].snapshots[t]
    case None => assert |plan(run, t)| == 0;
    case Some(id) =>
      OwnedKeysGrow(log[id - 1].rows, log[position].rows, run);
  }

  lemma ListedKeys(plan: KeyPlan, t: nat, stored: RowMap, rows: Frame, visible: Frame, run: RunId)
    requires GoodRows(plan, t, stored) && Lists(rows, stored)
    requires forall row :: row in visible && row.owner == run <==> row in rows && row.owner == run
    ensures (set row | row in visible && row.owner == run :: KeyOf(t, row)) == OwnedKeys(stored, run)
  {
    var keys := set row | row in visible && row.owner == run :: KeyOf(t, row);
    forall k
      ensures k in keys <==> k in OwnedKeys(stored, run)
    {
      if k in OwnedKeys(stored, run) {
        assert stored[k] in rows;
        assert KeyOf(t, stored[k]) == k;
      }
      if k in keys {
        var row :| row in visible && row.owner == run && KeyOf(t, row) == k;
        var j :| j in stored && stored[j] == row;
        assert KeyOf(t, stored[j]) == j;
      }
    }
  }

  /** A snapshot read through the catalog's commits shows no row of an uncommitted run, and from a
      run's pinned snapshot on it shows that run whole: exactly its planned keys. */
  lemma ReaderSeesWholeRuns(plan: KeyPlan, catalog: Catalog, t: nat, position: nat, rows: Frame, committed: seq<RunId>,
                            run: RunId)
    requires PlanFitsCounts(plan) && CatalogInvariant(plan, catalog)
    requires t < TABLE_COUNT && position < |catalog.tables[t]| && Lists(rows, catalog.tables[t][position].rows)
    requires forall r :: r in committed <==> r in catalog.commits
    ensures forall row :: row in VisibleRows(rows, committed, None).value ==> row.owner in catalog.commits
    ensures var visible := VisibleRows(rows, committed, None).value;
            run in catalog.commits
            && |catalog.commits[run].snapshots| == TABLE_COUNT
            && (catalog.commits[run].snapshots[t].Some? ==> catalog.commits[run].snapshots[t].value <= position + 1)
            ==> (set row | row in visible && row.owner == run :: KeyOf(t, row)) == plan(run, t)
  {
    var runs := Dedup(committed);
    JoinIsSemiJoin(rows, runs);
    VisibleAre(rows, runs);
    if run in catalog.commits
       && |catalog.commits[run].snapshots| == TABLE_COUNT
       && (catalog.commits[run].snapshots[t].Some? ==> catalog.commits[run].snapshots[t].value <= position + 1)
    {
      PinnedSnapshotIsWhole(plan, catalog, run, t, position);
      assert GoodLog(plan, t, catalog.tables[t]);
      ListedKeys(plan, t, catalog.tables[t][position].rows, rows, VisibleRows(rows, committed, None).value, run);
    }
  }
}
