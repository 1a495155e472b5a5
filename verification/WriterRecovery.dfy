/** Recovery beside other runs: after any interleaving of other runs' writers with interrupted attempts of one run that
    do not overlap, an undisturbed retry publishes exactly when no other run took one of the run's keys. */
module WriterRecovery {
  import opened Prelude
  import opened SilverStore
  import opened SilverWriter
  import opened WriterProtocol
  import opened WriterRefinement
  import opened WriterProgress
  import opened WriterResume
  import opened WriterOverlap

  // ---------------------------------------------------------------- a run writes a table at most once

  function RowsBefore(log: TableLog, p: nat): RowMap
    requires p <= |log|
  {
    if p == 0 then map[] else log[p - 1].rows
  }

  /** Snapshot `p` is the only one of the run, and added the planned keys that nobody had. */
  ghost predicate OnceAt(plan: KeyPlan, t: nat, log: TableLog, run: RunId, p: nat) {
    && p < |log| && IsOwnedSnapshot(log[p], run)
    && (forall q :: 0 <= q < p ==> OwnedKeys(log[q].rows, run) == {})
    && (forall q :: p < q < |log| ==> log[q].tag != run)
    && OwnedKeys(log[p].rows, run) == plan(run, t) - RowsBefore(log, p).Keys
    && log[p].rows.Keys == RowsBefore(log, p).Keys + plan(run, t)
  }

  ghost predicate WrittenOnce(plan: KeyPlan, t: nat, log: TableLog, run: RunId) {
    Clean(log, run) || exists p: nat :: OnceAt(plan, t, log, run, p)
  }

  lemma CleanCurrent(log: TableLog, run: RunId)
    requires Clean(log, run)
    ensures OwnedKeys(CurrentRows(log), run) == {}
  {
  }

  /** A MERGE of another run changes nothing about it. */
  lemma OtherMergeKeepsOnce(plan: KeyPlan, t: nat, log: TableLog, frame: Frame, tag: RunId, run: RunId)
    requires WrittenOnce(plan, t, log, run) && tag != run && forall row :: row in frame ==> row.owner == tag
    ensures WrittenOnce(plan, t, MergeInsertOnly(t, log, frame, tag), run)
  {
    var later := MergeInsertOnly(t, log, frame, tag);
    MergeRowsInserts(t, CurrentRows(log), frame);
    if Clean(log, run) {
      CleanCurrent(log, run);
      assert OwnedKeys(MergeRows(t, CurrentRows(log), frame), run) == {};
      assert Clean(later, run);
    } else {
      var p: nat :| OnceAt(plan, t, log, run, p);
      assert later[..|log|] == log;
      assert RowsBefore(later, p) == RowsBefore(log, p);
      assert OnceAt(plan, t, later, run, p);
    }
  }

  /** The run's own MERGE into a clean table adds its planned keys at once, or, if all are taken, nothing. */
  lemma OwnMergeWritesOnce(plan: KeyPlan, t: nat, log: TableLog, frame: Frame, run: RunId)
    requires Clean(log, run) && FrameKeys(t, frame) == plan(run, t) && forall row :: row in frame ==> row.owner == run
    ensures WrittenOnce(plan, t, MergeInsertOnly(t, log, frame, run), run)
  {
    if frame != [] {
      var later := MergeInsertOnly(t, log, frame, run);
      CleanCurrent(log, run);
      MergeRowsInserts(t, CurrentRows(log), frame);
      MergedOwnership(t, CurrentRows(log), run, frame);
      assert later[..|log|] == log && RowsBefore(later, |log|) == CurrentRows(log);
      if OwnedKeys(later[|log|].rows, run) == {} {
        assert Clean(later, run);
      } else {
        assert OnceAt(plan, t, later, run, |log|);
      }
    }
  }

  lemma OnceIsOwned(plan: KeyPlan, t: nat, log: TableLog, run: RunId, p: nat)
    requires OnceAt(plan, t, log, run, p)
    ensures OwnedSnapshots(log, run) == [p]
  {
    var owned := OwnedSnapshots(log, run);
    hide OwnedSnapshots;
    assert p in owned;
    forall i | 0 <= i < |owned|
      ensures owned[i] == p
    {
      assert IsOwnedSnapshot(log[owned[i]], run);
    }
    TwoOwnedAreDoubled(log, run);
    assert !Doubled(log, run);
  }

  lemma TraceKeepsInvariant(plan: KeyPlan, worlds: seq<World>, steps: seq<Step>, n: nat)
    requires PlanFitsCounts(plan) && Trace(plan, worlds, steps) && worlds[0] == EMPTY_WORLD && n <= |steps|
    ensures Invariant(plan, worlds[n])
  {
    hide Invariant, Enabled, Take, WellFormed;
    if n == 0 {
      EmptyWorldInvariant(plan);
    } else {
      TraceKeepsInvariant(plan, worlds, steps, n - 1);
      assert TakenAt(plan, worlds, steps, n - 1);
      StepKeepsInvariant(plan, worlds[n - 1], steps[n - 1]);
    }
  }

  lemma WriterFrames(plan: KeyPlan, w: World, id: nat)
    requires Invariant(plan, w) && id in w.writers
    ensures var writer := w.writers[id];
            forall t :: t in writer.frames ==>
              && t < TABLE_COUNT && FrameKeys(t, writer.frames[t]) == plan(RunKey(writer.run), t)
              && forall row :: row in writer.frames[t] ==> row.owner == RunKey(writer.run)
  {
    assert WriterConsistent(plan, w.catalog, w.writers[id]);
  }

  /** While writers of the run do not overlap, a writer past its checks finds the table still clean. */
  lemma SerialMergeFindsClean(plan: KeyPlan, worlds: seq<World>, steps: seq<Step>, n: nat, id: nat, t: nat)
    requires Trace(plan, worlds, steps) && worlds[0] == EMPTY_WORLD && n < |steps| && t < TABLE_COUNT
    requires id in worlds[n].writers && worlds[n].writers[id].phase == Checked(t, 2)
    requires OneWriterAtATime(worlds, RunKey(worlds[n].writers[id].run))
    requires |worlds[n].catalog.tables| == TABLE_COUNT
    requires WrittenOnce(plan, t, worlds[n].catalog.tables[t], RunKey(worlds[n].writers[id].run))
    ensures Clean(worlds[n].catalog.tables[t], RunKey(worlds[n].writers[id].run))
  {
    hide TakenAt, OwnedSnapshots, Clean, OnceAt, Merges;
    var run := RunKey(worlds[n].writers[id].run);
    var i := CheckedSince(plan, worlds, steps, n, id, t);
    MergesCounted(plan, worlds, steps, i, run, t);
    MergesCounted(plan, worlds, steps, n, run, t);
    if !Clean(worlds[n].catalog.tables[t], run) {
      var p: nat :| OnceAt(plan, t, worlds[n].catalog.tables[t], run, p);
      OnceIsOwned(plan, t, worlds[n].catalog.tables[t], run, p);
      var j :| 0 <= j < n && Merges(worlds, steps, j, run, t);
      assert !(j < i);
      MergerIsOfRun(worlds, steps, j, run, t);
    }
  }

  lemma MergerIsOfRun(worlds: seq<World>, steps: seq<Step>, j: nat, run: RunId, t: nat)
    requires j < |steps| && |worlds| == |steps| + 1 && Merges(worlds, steps, j, run, t)
    ensures steps[j].MergeTable? && steps[j].writer in worlds[j].writers
            && RunKey(worlds[j].writers[steps[j].writer].run) == run
  {
  }

  /** Whatever other runs do meanwhile, a run whose writers do not overlap writes each table at most once. */
  lemma {:induction false} SerialRunWritesOnce(plan: KeyPlan, worlds: seq<World>, steps: seq<Step>, n: nat, run: RunId,
                                               t: nat)
    requires PlanFitsCounts(plan) && Trace(plan, worlds, steps) && worlds[0] == EMPTY_WORLD && n <= |steps|
             && t < TABLE_COUNT
    requires OneWriterAtATime(worlds, run)
    ensures |worlds[n].catalog.tables| == TABLE_COUNT && WrittenOnce(plan, t, worlds[n].catalog.tables[t], run)
  {
    hide Take, Enabled, WellFormed, Invariant, WrittenOnce, OneWriterAtATime;
    if n == 0 {
      EmptyIsClean(plan, t, run);
    } else {
      var w, step := worlds[n - 1], steps[n - 1];
      SerialRunWritesOnce(plan, worlds, steps, n - 1, run, t);
      assert TakenAt(plan, worlds, steps, n - 1);
      TableCounts(plan, w, step);
      if step.MergeTable? && w.writers[step.writer].phase.next == t {
        var id := step.writer;
        TraceKeepsInvariant(plan, worlds, steps, n - 1);
        WriterFrames(plan, w, id);
        MergeStepAppends(plan, w, id);
        if RunKey(w.writers[id].run) == run {
          SerialMergeFindsClean(plan, worlds, steps, n - 1, id, t);
          OwnMergeWritesOnce(plan, t, w.catalog.tables[t], w.writers[id].frames[t], run);
        } else {
          OtherMergeKeepsOnce(plan, t, w.catalog.tables[t], w.writers[id].frames[t], RunKey(w.writers[id].run), run);
        }
      } else {
        OtherStepsKeepLogs(plan, w, step, t);
      }
    }
  }

  lemma EmptyIsClean(plan: KeyPlan, t: nat, run: RunId)
    ensures WrittenOnce(plan, t, [], run)
  {
  }

  // ---------------------------------------------------------------- one table of the retry

  /** No other run owns a planned key of the run. */
  ghost predicate Untaken(plan: KeyPlan, t: nat, log: TableLog, run: RunId) {
    forall k :: k in plan(run, t) && k in CurrentRows(log) ==> CurrentRows(log)[k].owner == run
  }

  /** Rows of a written table stay as the run's one snapshot left them. */
  lemma OnceStays(plan: KeyPlan, t: nat, log: TableLog, run: RunId, p: nat)
    requires GoodLog(plan, t, log) && OnceAt(plan, t, log, run, p)
    ensures SubMap(log[p].rows, CurrentRows(log)) && SubMap(RowsBefore(log, p), log[p].rows)
    ensures OwnedKeys(RowsBefore(log, p), run) == {} && OwnedKeys(log[p].rows, run) != {}
    ensures OwnedKeys(log[p].rows, run) <= OwnedKeys(CurrentRows(log), run) <= plan(run, t)
  {
    OwnedKeysGrow(log[p].rows, CurrentRows(log), run);
    OwnedWithinPlan(plan, t, CurrentRows(log), run);
  }

  /** The snapshot added all planned keys exactly if none of them is another run's. */
  lemma OnceAddsAll(plan: KeyPlan, t: nat, log: TableLog, run: RunId, p: nat)
    requires GoodLog(plan, t, log) && OnceAt(plan, t, log, run, p)
    ensures Untaken(plan, t, log, run) <==> OwnedKeys(log[p].rows, run) == plan(run, t)
    ensures Untaken(plan, t, log, run) <==> OwnedKeys(CurrentRows(log), run) == plan(run, t)
  {
    OnceStays(plan, t, log, run, p);
    var before, now := RowsBefore(log, p), CurrentRows(log);
    forall k | k in plan(run, t)
      ensures k in now && (now[k].owner == run <==> k in OwnedKeys(log[p].rows, run))
    {
      if k in before {
        assert k !in OwnedKeys(before, run);
      }
    }
  }

  lemma OnceAdditions(plan: KeyPlan, t: nat, log: TableLog, run: RunId, p: nat)
    requires GoodLog(plan, t, log) && OnceAt(plan, t, log, run, p) && OwnedKeys(log[p].rows, run) == plan(run, t)
    ensures var rows := log[p].rows;
            (set k | k in rows && (p == 0 || (rows[k].primary, rows[k].owner) !in RowIdentities(log[p - 1].rows)))
                == plan(run, t)
  {
    OnceStays(plan, t, log, run, p);
    var rows := log[p].rows;
    forall k | k in rows
      ensures (p == 0 || (rows[k].primary, rows[k].owner) !in RowIdentities(log[p - 1].rows)) <==> k in plan(run, t)
    {
      if k in plan(run, t) {
        assert k in OwnedKeys(rows, run);
        if p > 0 {
          NoIdentityOfCleanRun(log[p - 1].rows, run, rows[k].primary);
        }
      } else {
        assert k in RowsBefore(log, p) && rows[k] == RowsBefore(log, p)[k];
      }
    }
  }

  /** What the checks say of a table that the run has written. */
  lemma OnceVerifies(plan: KeyPlan, t: nat, log: TableLog, run: RunId, expected: nat)
    requires GoodLog(plan, t, log) && WrittenOnce(plan, t, log, run) && !Clean(log, run) && |plan(run, t)| == expected
    ensures if Untaken(plan, t, log, run)
            then VerifyCompleted(log, run, expected) == Ok(true) && RowCount(log, run) == expected
                && FindOwnedSnapshot(log, run, expected).Ok?
            else VerifyCompleted(log, run, expected) == Err(PartialRows)
  {
    hide OwnedSnapshots, RowIdentities, FindOwnedSnapshot, GoodLog, OnceAt, Untaken;
    var p: nat :| OnceAt(plan, t, log, run, p);
    OnceBefore(plan, t, log, run, p);
    OnceStays(plan, t, log, run, p);
    OnceAddsAll(plan, t, log, run, p);
    SubsetCardinality(OwnedKeys(CurrentRows(log), run), plan(run, t));
    NonEmptyCount(OwnedKeys(log[p].rows, run), OwnedKeys(CurrentRows(log), run));
    if Untaken(plan, t, log, run) {
      OnceIsOwned(plan, t, log, run, p);
      OnceAdditions(plan, t, log, run, p);
      FoundWhenAdded(log, run, plan(run, t), p);
    }
  }

  lemma NonEmptyCount(part: set<MergeKey>, whole: set<MergeKey>)
    requires part <= whole && part != {}
    ensures |whole| > 0
  {
    assert whole != {};
  }

  lemma OnceBefore(plan: KeyPlan, t: nat, log: TableLog, run: RunId, p: nat)
    requires OnceAt(plan, t, log, run, p)
    ensures p < |log| && (p > 0 ==> OwnedKeys(log[p - 1].rows, run) == {})
  {
  }

  /** The frames of a submission: for each counted table a valid frame of the planned keys, given or from the
      factory. */
  ghost predicate Supplies(plan: KeyPlan, sub: Submission) {
    && Admissible(None, sub) && CarriesPlan(plan, sub) && WritesNoIdentityRows(sub.run)
    && forall t :: 0 <= t < TABLE_COUNT ==>
                     && |plan(RunKey(sub.run), t)| == sub.run.counts[t]
                     && (t in sub.frames ==> ValidFrame(t, RunKey(sub.run), sub.run.counts[t], sub.frames[t]))
                     && (t !in sub.frames && sub.run.counts[t] > 0 ==>
                           t in sub.factory && ValidFrame(t, RunKey(sub.run), sub.run.counts[t], sub.factory[t]))
  }

  /** What preparing one table of the retry yields. */
  lemma RetryTablePrepared(plan: KeyPlan, sub: Submission, log: TableLog, t: nat)
    requires Supplies(plan, sub) && t < TABLE_COUNT
    requires GoodLog(plan, t, log) && WrittenOnce(plan, t, log, RunKey(sub.run))
    ensures var prepared := PrepareTable(log, sub, t, true);
            && (Clean(log, RunKey(sub.run)) || Untaken(plan, t, log, RunKey(sub.run)) ==> prepared.Ok?)
            && (prepared.Ok? && prepared.value.Some? ==>
                  && ValidFrame(t, RunKey(sub.run), sub.run.counts[t], prepared.value.value)
                  && FrameKeys(t, prepared.value.value) == plan(RunKey(sub.run), t))
            && (prepared.Ok? && prepared.value.None? ==> sub.run.counts[t] == 0 || !Clean(log, RunKey(sub.run)))
  {
    hide GoodLog, WrittenOnce, Untaken, FindOwnedSnapshot, ValidFrame, FrameKeys;
    if Clean(log, RunKey(sub.run)) {
      CleanHasNoOwned(log, RunKey(sub.run));
    } else {
      OnceVerifies(plan, t, log, RunKey(sub.run), sub.run.counts[t]);
      if sub.run.counts[t] == 0 {
        NothingPlannedIsUntaken(plan, t, log, RunKey(sub.run));
      }
    }
  }

  lemma NothingPlannedIsUntaken(plan: KeyPlan, t: nat, log: TableLog, run: RunId)
    requires |plan(run, t)| == 0
    ensures Untaken(plan, t, log, run)
  {
  }

  /** A clean table is untaken exactly if all planned keys are new. */
  lemma CleanUntaken(plan: KeyPlan, t: nat, log: TableLog, run: RunId)
    requires Clean(log, run)
    ensures Untaken(plan, t, log, run) <==> plan(run, t) !! CurrentRows(log).Keys
  {
    CleanCurrent(log, run);
    forall k | k in plan(run, t) && k in CurrentRows(log)
      ensures CurrentRows(log)[k].owner != run
    {
      assert k !in OwnedKeys(CurrentRows(log), run);
    }
  }

  /** One table of the retry is staged, counted and pinned if and only if it is untaken. */
  lemma RetryTableStaged(plan: KeyPlan, sub: Submission, log: TableLog, t: nat, frame: Option<Frame>)
    requires Supplies(plan, sub) && t < TABLE_COUNT
    requires GoodLog(plan, t, log) && WrittenOnce(plan, t, log, RunKey(sub.run))
    requires PrepareTable(log, sub, t, true) == Ok(frame)
    ensures var (after, progress) := StageTable(t, log, RunKey(sub.run), sub.run.counts[t], frame, Applied);
            && (progress == Done <==> Untaken(plan, t, log, RunKey(sub.run)))
            && (progress == Done ==> RowCount(after, RunKey(sub.run)) == sub.run.counts[t]
                                     && FindOwnedSnapshot(after, RunKey(sub.run), sub.run.counts[t]).Ok?)
  {
    hide GoodLog, WrittenOnce, Untaken, FindOwnedSnapshot, ValidFrame, FrameKeys, Clean, PrepareTable, StageTable;
    var r, expected := RunKey(sub.run), sub.run.counts[t];
    RetryTablePrepared(plan, sub, log, t);
    if Clean(log, r) {
      CleanUntaken(plan, t, log, r);
      if frame.None? && expected > 0 {
        CleanIsNotReused(plan, sub, log, t);
      }
      if Untaken(plan, t, log, r) {
        FreshTableStaged(t, log, r, expected, frame);
      } else {
        if frame.None? {
          NothingPlannedIsUntaken(plan, t, log, r);
        }
        CollidingTableRefused(t, log, r, expected, frame);
      }
    } else {
      OnceVerifies(plan, t, log, r, expected);
      VerifiedTableStaged(t, log, r, expected, frame);
    }
  }

  /** A clean table with rows expected is never taken for complete. */
  lemma CleanIsNotReused(plan: KeyPlan, sub: Submission, log: TableLog, t: nat)
    requires Supplies(plan, sub) && t < TABLE_COUNT && Clean(log, RunKey(sub.run)) && sub.run.counts[t] > 0
    ensures PrepareTable(log, sub, t, true) != Ok(None)
  {
    hide Clean, FindOwnedSnapshot, ValidFrame, FrameKeys;
    CleanHasNoOwned(log, RunKey(sub.run));
  }

  lemma VerifiedTableStaged(t: nat, log: TableLog, run: RunId, expected: nat, frame: Option<Frame>)
    requires VerifyCompleted(log, run, expected) == Ok(true) || VerifyCompleted(log, run, expected).Err?
    ensures var (after, progress) := StageTable(t, log, run, expected, frame, Applied);
            after == log && (progress == Done <==> VerifyCompleted(log, run, expected) == Ok(true))
  {
    hide VerifyCompleted, VerifyNoSnapshot;
  }

  // ---------------------------------------------------------------- the whole retry

  /** A stored catalog in which each table was written by the run at most once. */
  ghost predicate SerialState(plan: KeyPlan, now: Catalog, run: RunId) {
    && CatalogInvariant(plan, now)
    && |now.tables| == TABLE_COUNT
    && forall t :: 0 <= t < TABLE_COUNT ==> GoodLog(plan, t, now.tables[t]) && WrittenOnce(plan, t, now.tables[t], run)
  }

  ghost predicate AllUntaken(plan: KeyPlan, now: Catalog, run: RunId)
    requires |now.tables| == TABLE_COUNT
  {
    forall t :: 0 <= t < TABLE_COUNT ==> Untaken(plan, t, now.tables[t], run)
  }

  lemma CommittedIsUntaken(plan: KeyPlan, now: Catalog, run: RunId)
    requires CatalogInvariant(plan, now) && run in now.commits && |now.tables| == TABLE_COUNT
    ensures AllUntaken(plan, now, run)
    ensures now.commits[run].run == run && now.commits[run].counts == run.run.counts && run in now.runs
            && now.runs[run] == run.run
  {
    assert Fenced(plan, now, run);
    forall t, k | 0 <= t < TABLE_COUNT && k in plan(run, t)
      ensures k in OwnedKeys(CurrentRows(now.tables[t]), run)
    {
      assert OwnedKeys(CurrentRows(now.tables[t]), run) == plan(run, t);
    }
  }

  lemma UncommittedCheck(plan: KeyPlan, now: Catalog, run: Run)
    requires CatalogInvariant(plan, now) && RunKey(run) !in now.commits
    ensures CheckRun(None, now, run) == None
    ensures RunKey(run) in now.runs ==> now.runs[RunKey(run)] == run
  {
  }

  /** What an uncommitted retry resolves to: the prepared frames, or the reason why one table cannot be prepared. */
  lemma RetryGoesOn(plan: KeyPlan, now: Catalog, sub: Submission)
    requires SerialState(plan, now, RunKey(sub.run)) && Supplies(plan, sub) && RunKey(sub.run) !in now.commits
    requires sub.heads.Some? ==> HeadsCurrent(now.tables, sub.heads.value)
    ensures var prepared := PrepareFrom(now.tables, sub, 0, true);
            if prepared.Ok?
                then |prepared.value| == TABLE_COUNT && Resolve(None, now, sub) == Go(sub.run, prepared.value)
            else Resolve(None, now, sub) == Resolution.Stop(Failed(prepared.error))
  {
    hide PrepareFrom, CatalogInvariant, GoodLog, WrittenOnce, CheckRun, HeadsCurrent;
    UncommittedCheck(plan, now, sub.run);
    assert sub.mode == None;
    if PrepareFrom(now.tables, sub, 0, true).Ok? {
      PreparedLength(now.tables, sub, 0, true);
      PreflightSkips(now.tables, sub.run, PrepareFrom(now.tables, sub, 0, true).value, 0);
    }
  }

  lemma TakenTableUnprepared(plan: KeyPlan, now: Catalog, sub: Submission)
    requires SerialState(plan, now, RunKey(sub.run)) && Supplies(plan, sub)
    requires PrepareFrom(now.tables, sub, 0, true).Err?
    ensures !AllUntaken(plan, now, RunKey(sub.run))
  {
    hide CatalogInvariant, GoodLog, WrittenOnce, Untaken, PrepareTable, Supplies;
    if AllUntaken(plan, now, RunKey(sub.run)) {
      SuppliesCounts(plan, sub);
      forall t | 0 <= t < TABLE_COUNT
        ensures PrepareTable(now.tables[t], sub, t, true).Ok?
      {
        RetryTablePrepared(plan, sub, now.tables[t], t);
      }
      PrepareSucceeds(now.tables, sub, 0, true);
    }
  }

  lemma SuppliesCounts(plan: KeyPlan, sub: Submission)
    requires Supplies(plan, sub)
    ensures |sub.run.counts| == TABLE_COUNT
  {
  }

  /** The retry's writes publish if and only if every table is untaken. */
  lemma RetryWritesIff(plan: KeyPlan, now: Catalog, sub: Submission, frames: seq<Option<Frame>>)
    requires SerialState(plan, now, RunKey(sub.run)) && Supplies(plan, sub) && RunKey(sub.run) !in now.commits
    requires |frames| == |sub.run.counts| == TABLE_COUNT && PrepareFrom(now.tables, sub, 0, true) == Ok(frames)
    ensures WriteRun(now, sub.run, frames, sub.at, UNINTERRUPTED).1.Published? <==>
              AllUntaken(plan, now, RunKey(sub.run))
  {
    hide CatalogInvariant, GoodLog, WrittenOnce, Untaken, PrepareTable, StageTable, Supplies, FindOwnedSnapshot,
      RowCount, Seal;
    var r := RunKey(sub.run);
    UncommittedCheck(plan, now, sub.run);
    PreparedTables(now.tables, sub, frames);
    forall t | 0 <= t < TABLE_COUNT
      ensures var (after, progress) := StageTable(t, now.tables[t], r, sub.run.counts[t], frames[t], Applied);
              && (progress == Done <==> Untaken(plan, t, now.tables[t], r))
              && (progress == Done ==>
                  RowCount(after, r) == sub.run.counts[t] && FindOwnedSnapshot(after, r, sub.run.counts[t]).Ok?)
    {
      RetryTableStaged(plan, sub, now.tables[t], t, frames[t]);
    }
    StageFromLength(now.tables, sub.run, frames, UNINTERRUPTED, 0);
    if AllUntaken(plan, now, r) {
      StagesAll(now.tables, sub.run, frames, 0);
      var tables := StageFrom(now.tables, sub.run, frames, UNINTERRUPTED, 0).0;
      forall t | 0 <= t < TABLE_COUNT
        ensures RowCount(tables[t], r) == sub.run.counts[t] && FindOwnedSnapshot(tables[t], r, sub.run.counts[t]).Ok?
      {
        StageFromAt(now.tables, sub.run, frames, UNINTERRUPTED, 0, t);
        assert UNINTERRUPTED.tables(t) == Applied;
      }
      SealSucceeds(now.(runs := EnsureManifest(now.runs, sub.run, Applied).0).(tables := tables), sub.run, sub.at);
    } else {
      var t :| 0 <= t < TABLE_COUNT && !Untaken(plan, t, now.tables[t], r);
      StageFromAt(now.tables, sub.run, frames, UNINTERRUPTED, 0, t);
      assert UNINTERRUPTED.tables(t) == Applied;
    }
  }

  lemma ReusedCommit(now: Catalog, run: Run)
    requires RunKey(run) in now.commits && RunKey(run) in now.runs && now.runs[RunKey(run)] == run
    requires now.commits[RunKey(run)].run == RunKey(run) && now.commits[RunKey(run)].counts == run.counts
    ensures CheckRun(None, now, run) == Some(Published(now.commits[RunKey(run)]))
  {
  }

  lemma RetryPublishesIffUntaken(plan: KeyPlan, now: Catalog, sub: Submission)
    requires SerialState(plan, now, RunKey(sub.run)) && Supplies(plan, sub)
    requires sub.heads.Some? ==> HeadsCurrent(now.tables, sub.heads.value)
    ensures Undisturbed(now, sub).1.Published? <==> AllUntaken(plan, now, RunKey(sub.run))
  {
    hide CatalogInvariant, GoodLog, WrittenOnce, Untaken, PrepareFrom, CheckRun, WriteRun, HeadsCurrent;
    if RunKey(sub.run) in now.commits {
      CommittedIsUntaken(plan, now, RunKey(sub.run));
      ReusedCommit(now, sub.run);
    } else {
      RetryGoesOn(plan, now, sub);
      var prepared := PrepareFrom(now.tables, sub, 0, true);
      if prepared.Ok? {
        RetryWritesIff(plan, now, sub, prepared.value);
      } else {
        TakenTableUnprepared(plan, now, sub);
      }
    }
  }

  lemma RetryObeys(plan: KeyPlan, now: Catalog, sub: Submission)
    requires SerialState(plan, now, RunKey(sub.run)) && Supplies(plan, sub)
    requires sub.heads.Some? ==> HeadsCurrent(now.tables, sub.heads.value)
    ensures Obeys(plan, None, now, sub)
  {
    hide CatalogInvariant, GoodLog, WrittenOnce, PrepareFrom, CheckRun, HeadsCurrent, FrameKeys, ValidFrame;
    var resolution := Resolve(None, now, sub);
    if resolution.Go? {
      CheckRunFacts(None, now, sub.run);
      var frames := ResolvedAsPrepared(now, sub);
      PreparedTables(now.tables, sub, frames);
      forall t | 0 <= t < TABLE_COUNT && frames[t].Some?
        ensures FrameKeys(t, frames[t].value) == plan(RunKey(sub.run), t)
      {
        RetryTablePrepared(plan, sub, now.tables[t], t);
      }
    }
  }

  /** Take any interleaving of any runs' writers, killed anywhere, in which writers of this run do not overlap.  An
      undisturbed retry then publishes if and only if no other run owns a planned key of the run; and then the run owns
      exactly its planned keys in every table. */
  lemma {:induction false} RetryPublishesBesideOthers(plan: KeyPlan, worlds: seq<World>, steps: seq<Step>,
                                                      sub: Submission)
    requires PlanFitsCounts(plan) && Trace(plan, worlds, steps) && worlds[0] == EMPTY_WORLD
    requires OneWriterAtATime(worlds, RunKey(sub.run)) && Supplies(plan, sub)
    requires sub.heads.Some? ==> HeadsCurrent(worlds[|steps|].catalog.tables, sub.heads.value)
    ensures var now := worlds[|steps|].catalog;
            && |now.tables| == TABLE_COUNT
            && (Undisturbed(now, sub).1.Published? <==> AllUntaken(plan, now, RunKey(sub.run)))
    ensures var (after, outcome) := Undisturbed(worlds[|steps|].catalog, sub);
            outcome.Published? ==>
              && |after.tables| == TABLE_COUNT
              && forall t :: 0 <= t < TABLE_COUNT ==>
                  OwnedKeys(CurrentRows(after.tables[t]), RunKey(sub.run)) == plan(RunKey(sub.run), t)
  {
    hide WrittenOnce, Untaken, Attempt, Resolve, Supplies, HeadsCurrent, OneWriterAtATime, Invariant, Fenced, Obeys,
      AllUntaken;
    var now := worlds[|steps|].catalog;
    SerialTraceState(plan, worlds, steps, RunKey(sub.run));
    RetryPublishesIffUntaken(plan, now, sub);
    if Undisturbed(now, sub).1.Published? {
      RetryObeys(plan, now, sub);
      ReturnedCommitIsFenced(plan, None, now, sub, UNINTERRUPTED);
      AttemptKeepsInvariant(plan, None, now, sub, UNINTERRUPTED);
      RetryReturnsOwn(plan, now, sub);
      FencedOwnsPlan(plan, Undisturbed(now, sub).0, RunKey(sub.run));
    }
  }

  lemma FencedOwnsPlan(plan: KeyPlan, catalog: Catalog, run: RunId)
    requires run in catalog.commits && Fenced(plan, catalog, run)
    ensures |catalog.tables| == TABLE_COUNT
    ensures forall t :: 0 <= t < TABLE_COUNT ==> OwnedKeys(CurrentRows(catalog.tables[t]), run) == plan(run, t)
  {
  }

  lemma SerialTraceState(plan: KeyPlan, worlds: seq<World>, steps: seq<Step>, run: RunId)
    requires PlanFitsCounts(plan) && Trace(plan, worlds, steps) && worlds[0] == EMPTY_WORLD
             && OneWriterAtATime(worlds, run)
    ensures SerialState(plan, worlds[|steps|].catalog, run)
  {
    hide WrittenOnce, GoodLog, OneWriterAtATime, TakenAt, CommitFence, ManifestsMatch;
    var now := worlds[|steps|].catalog;
    TraceKeepsInvariant(plan, worlds, steps, |steps|);
    assert WellFormed(World(now, map[]));
    forall t | 0 <= t < TABLE_COUNT
      ensures WrittenOnce(plan, t, now.tables[t], run)
    {
      SerialRunWritesOnce(plan, worlds, steps, |steps|, run, t);
    }
  }

  /** A retry without a generation returns a commit of its own run. */
  lemma RetryReturnsOwn(plan: KeyPlan, now: Catalog, sub: Submission)
    requires SerialState(plan, now, RunKey(sub.run)) && Supplies(plan, sub) && Undisturbed(now, sub).1.Published?
    requires sub.heads.Some? ==> HeadsCurrent(now.tables, sub.heads.value)
    ensures Undisturbed(now, sub).1.commit.run == RunKey(sub.run)
  {
    hide CatalogInvariant, GoodLog, WrittenOnce, PrepareFrom, CheckRun, WriteRun, HeadsCurrent;
    if RunKey(sub.run) in now.commits {
      CommittedIsUntaken(plan, now, RunKey(sub.run));
      ReusedCommit(now, sub.run);
    } else {
      RetryGoesOn(plan, now, sub);
      var prepared := PrepareFrom(now.tables, sub, 0, true);
      WriteRecords(now, sub.run, prepared.value, sub.at, UNINTERRUPTED);
    }
  }
}
