/** An uninterrupted call of a run that has written nothing yet publishes exactly when its keys are new. */
module WriterProgress {
  import opened Prelude
  import opened SilverStore
  import opened SilverWriter

  /** No snapshot of the table holds a row of the run. */
  ghost predicate Clean(log: TableLog, run: RunId) {
    forall i :: 0 <= i < |log| ==> OwnedKeys(log[i].rows, run) == {}
  }

  ghost predicate KeysNew(t: nat, log: TableLog, frame: Option<Frame>) {
    frame.Some? ==> FrameKeys(t, frame.value) !! CurrentRows(log).Keys
  }

  /** What the staging loop needs of a table's frame. */
  ghost predicate Stageable(t: nat, run: RunId, expected: nat, frame: Option<Frame>) {
    && (frame.Some? ==> ValidFrame(t, run, expected, frame.value))
    && (expected > 0 ==> frame.Some?)
  }

  /** A MERGE into a clean table gives the run exactly the frame's new keys. */
  lemma MergedOwnership(t: nat, rows: RowMap, run: RunId, frame: Frame)
    requires OwnedKeys(rows, run) == {} && forall row :: row in frame ==> row.owner == run
    ensures OwnedKeys(MergeRows(t, rows, frame), run) == FrameKeys(t, frame) - rows.Keys
  {
    var merged := MergeRows(t, rows, frame);
    MergeRowsInserts(t, rows, frame);
    forall k
      ensures k in OwnedKeys(merged, run) <==> k in FrameKeys(t, frame) - rows.Keys
    {
      if k in rows {
        assert k !in OwnedKeys(rows, run);
      }
    }
  }

  lemma CleanHasNoOwned(log: TableLog, run: RunId)
    requires Clean(log, run)
    ensures OwnedSnapshots(log, run) == [] && RowCount(log, run) == 0
  {
    assert forall p :: 0 <= p < |log| ==> !IsOwnedSnapshot(log[p], run);
    assert |OwnedSnapshots(log, run)| == 0;
  }

  lemma {:induction false} OwnedAfterAppend(log: TableLog, run: RunId, rows: RowMap)
    requires Clean(log, run) && OwnedKeys(rows, run) != {}
    ensures OwnedSnapshots(log + [Snapshot(run, rows)], run) == [|log|]
  {
    CleanHasNoOwned(log, run);
    assert (log + [Snapshot(run, rows)])[..|log|] == log;
  }

  /** The rows such a MERGE adds, as the snapshot check counts them. */
  lemma AddedRows(t: nat, rows: RowMap, run: RunId, frame: Frame, first: bool)
    requires OwnedKeys(rows, run) == {} && forall row :: row in frame ==> row.owner == run
    requires FrameKeys(t, frame) !! rows.Keys && (first ==> rows == map[])
    ensures var merged := MergeRows(t, rows, frame);
            (set k | k in merged && (first || (merged[k].primary, merged[k].owner) !in RowIdentities(rows)))
                == FrameKeys(t, frame)
    ensures var merged := MergeRows(t, rows, frame);
            OwnedKeys(merged, run) == FrameKeys(t, frame) && forall k :: k in FrameKeys(t, frame) ==>
                k in merged && merged[k].owner == run
  {
    var merged := MergeRows(t, rows, frame);
    MergeRowsInserts(t, rows, frame);
    MergedOwnership(t, rows, run, frame);
    forall k | k in merged
      ensures (first || (merged[k].primary, merged[k].owner) !in RowIdentities(rows)) <==> k in FrameKeys(t, frame)
    {
      if k in rows {
        assert (rows[k].primary, rows[k].owner) in RowIdentities(rows);
      } else {
        NoIdentityOfCleanRun(rows, run, merged[k].primary);
      }
    }
  }

  /** The snapshot check accepts the snapshot such a MERGE appends. */
  lemma AppendedSnapshotFound(t: nat, log: TableLog, run: RunId, frame: Frame)
    requires Clean(log, run) && frame != [] && ValidFrame(t, run, |frame|, frame)
    requires FrameKeys(t, frame) !! CurrentRows(log).Keys
    ensures FindOwnedSnapshot(MergeInsertOnly(t, log, frame, run), run, |frame|) == Ok(Some(|log| + 1))
  {
    hide OwnedSnapshots, MergeRows, FrameKeys, RowIdentities;
    var rows := CurrentRows(log);
    var merged := MergeRows(t, rows, frame);
    var after := log + [Snapshot(run, merged)];
    CleanHasNoOwned(log, run);
    AddedRows(t, rows, run, frame, |log| == 0);
    OwnedAfterAppend(log, run, merged);
    assert after == MergeInsertOnly(t, log, frame, run);
    assert after[|log|].rows == merged;
    if |log| > 0 {
      assert after[|log| - 1].rows == rows;
    }
    FoundWhenAdded(after, run, FrameKeys(t, frame), |log|);
  }

  /** The snapshot check finds the one owned snapshot, wherever it stands, if it added exactly these keys. */
  lemma FoundWhenAdded(log: TableLog, run: RunId, keys: set<MergeKey>, p: nat)
    requires p < |log| && OwnedSnapshots(log, run) == [p] && keys != {}
    requires var rows := log[p].rows;
             && OwnedKeys(rows, run) == keys
             && (p > 0 ==> OwnedKeys(log[p - 1].rows, run) == {})
             && (set k | k in rows && (p == 0 || (rows[k].primary, rows[k].owner) !in RowIdentities(log[p - 1].rows)))
                 == keys
    ensures FindOwnedSnapshot(log, run, |keys|) == Ok(Some(p + 1))
  {
    hide RowIdentities, OwnedSnapshots;
    var candidate := log[p].rows;
    var additions := set k | k in candidate
      && (p == 0 || (candidate[k].primary, candidate[k].owner) !in RowIdentities(log[p - 1].rows));
    assert additions == keys;
    assert forall k :: k in additions ==> k in OwnedKeys(candidate, run);
  }

  lemma NoIdentityOfCleanRun(rows: RowMap, run: RunId, primary: nat)
    requires OwnedKeys(rows, run) == {}
    ensures (primary, run) !in RowIdentities(rows)
  {
    forall k | k in rows
      ensures rows[k].owner != run
    {
      assert k !in OwnedKeys(rows, run);
    }
  }

  /** Conversely a snapshot that the check finds is the only one the run tagged with rows, and the rows that were not
      there before it are exactly the run's, as many as expected. */
  lemma {:induction false} FoundAddedExactly(log: TableLog, run: RunId, expected: nat)
    requires expected > 0 && FindOwnedSnapshot(log, run, expected).Ok?
    ensures var found := FindOwnedSnapshot(log, run, expected).value;
            && found.Some? && 0 < found.value <= |log|
            && var p := found.value - 1;
               && log[p].tag == run && |OwnedKeys(log[p].rows, run)| == expected
               && (forall q :: 0 <= q < |log| && q != p ==> log[q].tag != run || OwnedKeys(log[q].rows, run) == {})
               && forall k :: k in log[p].rows ==>
                   (log[p].rows[k].owner == run <==>
                    p == 0 || (log[p].rows[k].primary, log[p].rows[k].owner) !in RowIdentities(log[p - 1].rows))
  {
    hide RowIdentities;
    var p := OwnedSnapshots(log, run)[0];
    var rows := log[p].rows;
    var additions := set k | k in rows
      && (p == 0 || (rows[k].primary, rows[k].owner) !in RowIdentities(log[p - 1].rows));
    forall k | k in OwnedKeys(rows, run)
      ensures k in additions
    {
      if p > 0 {
        NoIdentityOfCleanRun(log[p - 1].rows, run, rows[k].primary);
      }
    }
    SubsetCardinality(OwnedKeys(rows, run), additions);
    assert additions == OwnedKeys(rows, run);
    forall q | 0 <= q < |log| && q != p
      ensures log[q].tag != run || OwnedKeys(log[q].rows, run) == {}
    {
      assert IsOwnedSnapshot(log[q], run) ==> q in OwnedSnapshots(log, run);
    }
    forall k | k in rows
      ensures rows[k].owner == run <==> k in additions
    {
      assert rows[k].owner == run <==> k in OwnedKeys(rows, run);
    }
  }

  lemma FreshTableMerged(t: nat, log: TableLog, run: RunId, frame: Frame)
    requires Clean(log, run) && frame != [] && ValidFrame(t, run, |frame|, frame)
    requires FrameKeys(t, frame) !! CurrentRows(log).Keys
    ensures var after := MergeInsertOnly(t, log, frame, run);
            && RowCount(after, run) == |frame|
            && FindOwnedSnapshot(after, run, |frame|).Ok?
  {
    hide FindOwnedSnapshot;
    AppendedSnapshotFound(t, log, run, frame);
    MergedOwnership(t, CurrentRows(log), run, frame);
    assert FrameKeys(t, frame) - CurrentRows(log).Keys == FrameKeys(t, frame);
  }

  lemma FreshTableStaged(t: nat, log: TableLog, run: RunId, expected: nat, frame: Option<Frame>)
    requires Clean(log, run) && Stageable(t, run, expected, frame) && KeysNew(t, log, frame)
    ensures var (after, progress) := StageTable(t, log, run, expected, frame, Applied);
            && progress == Done
            && RowCount(after, run) == expected
            && FindOwnedSnapshot(after, run, expected).Ok?
  {
    hide RowCount, OwnedSnapshots, MergeInsertOnly;
    CleanHasNoOwned(log, run);
    CleanIsVerified(log, run);
    if expected > 0 {
      FreshTableMerged(t, log, run, frame.value);
    }
  }

  lemma CleanIsVerified(log: TableLog, run: RunId)
    requires Clean(log, run)
    ensures FindOwnedSnapshot(log, run, 0) == Ok(None)
  {
    CleanHasNoOwned(log, run);
  }

  lemma CollidingTableRefused(t: nat, log: TableLog, run: RunId, expected: nat, frame: Option<Frame>)
    requires Clean(log, run) && Stageable(t, run, expected, frame) && !KeysNew(t, log, frame)
    ensures StageTable(t, log, run, expected, frame, Applied).1 != Done
  {
    CleanHasNoOwned(log, run);
    var keys := FrameKeys(t, frame.value);
    MergedOwnership(t, CurrentRows(log), run, frame.value);
    SubsetCardinality(keys - CurrentRows(log).Keys, keys);
    assert frame.value == [] ==> keys == {};
  }

  // ---------------------------------------------------------------- the whole call

  /** A resolved run that has no row anywhere yet, over tables that keep the store's invariant. */
  ghost predicate Fresh(catalog: Catalog, run: Run, frames: seq<Option<Frame>>) {
    && |catalog.tables| == |run.counts| == |frames| == TABLE_COUNT
    && RunKey(run) !in catalog.commits
    && (RunKey(run) in catalog.runs ==> catalog.runs[RunKey(run)] == run)
    && forall t :: 0 <= t < TABLE_COUNT ==>
                     Clean(catalog.tables[t], RunKey(run)) && Stageable(t, RunKey(run), run.counts[t], frames[t])
  }

  lemma {:induction false} StagesAll(tables: seq<TableLog>, run: Run, frames: seq<Option<Frame>>, t: nat)
    requires |tables| == |frames| == |run.counts| == TABLE_COUNT && t <= TABLE_COUNT
    requires forall u :: t <= u < TABLE_COUNT ==>
               StageTable(u, tables[u], RunKey(run), run.counts[u], frames[u], Applied).1 == Done
    ensures StageFrom(tables, run, frames, UNINTERRUPTED, t).1 == Done
    decreases |tables| - t
  {
    hide StageTable;
    if t < TABLE_COUNT {
      assert UNINTERRUPTED.tables(t) == Applied;
      var log := StageTable(t, tables[t], RunKey(run), run.counts[t], frames[t], Applied).0;
      StagesAll(tables[t := log], run, frames, t + 1);
    }
  }

  lemma {:induction false} PinsAll(tables: seq<TableLog>, run: RunId, counts: seq<nat>, t: nat)
    requires t <= |tables| == |counts|
    requires forall u :: t <= u < |tables| ==> FindOwnedSnapshot(tables[u], run, counts[u]).Ok?
    ensures PinsFrom(tables, run, counts, t).Ok?
    decreases |tables| - t
  {
    hide FindOwnedSnapshot;
    if t < |tables| {
      PinsAll(tables, run, counts, t + 1);
    }
  }

  lemma SealSucceeds(catalog: Catalog, run: Run, at: nat)
    requires |catalog.tables| == |run.counts| == TABLE_COUNT && RunKey(run) !in catalog.commits
    requires forall t :: 0 <= t < TABLE_COUNT ==>
               RowCount(catalog.tables[t], RunKey(run)) == run.counts[t]
                   && FindOwnedSnapshot(catalog.tables[t], RunKey(run), run.counts[t]).Ok?
    ensures Seal(catalog, run, at, Applied).1.Published?
  {
    hide FindOwnedSnapshot, RowCount;
    assert RowCounts(catalog.tables, RunKey(run)) == run.counts;
    PinsAll(catalog.tables, RunKey(run), run.counts, 0);
  }

  lemma NewKeysPublish(catalog: Catalog, run: Run, frames: seq<Option<Frame>>, at: nat)
    requires Fresh(catalog, run, frames)
    requires forall t :: 0 <= t < TABLE_COUNT ==> KeysNew(t, catalog.tables[t], frames[t])
    ensures WriteRun(catalog, run, frames, at, UNINTERRUPTED).1.Published?
  {
    hide StageTable, FindOwnedSnapshot, RowCount, Clean, KeysNew, Stageable, Seal;
    var r := RunKey(run);
    forall t | 0 <= t < TABLE_COUNT
      ensures var (after, progress) := StageTable(t, catalog.tables[t], r, run.counts[t], frames[t], Applied);
              progress == Done && RowCount(after, r) == run.counts[t] && FindOwnedSnapshot(after, r, run.counts[t]).Ok?
    {
      FreshTableStaged(t, catalog.tables[t], r, run.counts[t], frames[t]);
    }
    StagesAll(catalog.tables, run, frames, 0);
    var tables := StageFrom(catalog.tables, run, frames, UNINTERRUPTED, 0).0;
    StageFromLength(catalog.tables, run, frames, UNINTERRUPTED, 0);
    forall t | 0 <= t < TABLE_COUNT
      ensures RowCount(tables[t], r) == run.counts[t] && FindOwnedSnapshot(tables[t], r, run.counts[t]).Ok?
    {
      StageFromAt(catalog.tables, run, frames, UNINTERRUPTED, 0, t);
      assert UNINTERRUPTED.tables(t) == Applied;
    }
    SealSucceeds(catalog.(runs := EnsureManifest(catalog.runs, run, Applied).0).(tables := tables), run, at);
  }

  lemma OldKeyRefused(catalog: Catalog, run: Run, frames: seq<Option<Frame>>, at: nat, t: nat)
    requires Fresh(catalog, run, frames) && t < TABLE_COUNT && !KeysNew(t, catalog.tables[t], frames[t])
    ensures !WriteRun(catalog, run, frames, at, UNINTERRUPTED).1.Published?
  {
    hide StageTable, StageFrom, Clean, KeysNew, Stageable, Seal;
    CollidingTableRefused(t, catalog.tables[t], RunKey(run), run.counts[t], frames[t]);
    StageFromAt(catalog.tables, run, frames, UNINTERRUPTED, 0, t);
    assert UNINTERRUPTED.tables(t) == Applied;
  }

  /** A run with no row yet is published by an undisturbed call if and only if no incoming key
      is already stored; on a single old key the call fails and leaves no marker. */
  lemma PublishesIffKeysNew(catalog: Catalog, run: Run, frames: seq<Option<Frame>>, at: nat)
    requires Fresh(catalog, run, frames)
    ensures WriteRun(catalog, run, frames, at, UNINTERRUPTED).1.Published?
            <==> forall t :: 0 <= t < TABLE_COUNT ==> KeysNew(t, catalog.tables[t], frames[t])
  {
    if forall t :: 0 <= t < TABLE_COUNT ==> KeysNew(t, catalog.tables[t], frames[t]) {
      NewKeysPublish(catalog, run, frames, at);
    } else {
      var t: nat :| t < TABLE_COUNT && !KeysNew(t, catalog.tables[t], frames[t]);
      OldKeyRefused(catalog, run, frames, at, t);
    }
  }
}
