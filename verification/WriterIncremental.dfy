/** Incremental Identity writes: the strip loses no key, and a published run that was
    rebuilt by the strip is recognised by every later submission of the original. */
module WriterIncremental {
  import opened Prelude
  import opened SilverStore
  import opened SilverWriter
  import opened WriterProtocol
  import opened WriterRefinement
  import opened WriterProgress

  // ---------------------------------------------------------------- key ownership

  /** What `_prepare_dataframes` hands to the strip: every counted table has a validated frame. */
  ghost predicate FullFrames(run: Run, frames: seq<Option<Frame>>) {
    FramesValid(run, frames) && forall t :: 0 <= t < TABLE_COUNT && run.counts[t] > 0 ==> frames[t].Some?
  }

  /** The strip keeps, of each frame, exactly the keys that no pinned run owns. */
  lemma StripKeeps(tables: seq<TableLog>, run: Run, frames: seq<Option<Frame>>, pinned: set<RunId>, t: nat)
    requires |tables| == TABLE_COUNT && FullFrames(run, frames)
    requires IsIdentityTable(t) && run.counts[t] > 0
    ensures var s := StripIdentityKeys(tables, run, frames, pinned);
            var unowned := FrameKeys(t, frames[t].value) - ReusableKeys(CurrentRows(tables[t]), t, frames[t].value,
                                                                        pinned);
            && s.frames[t].Some?
            && FrameKeys(t, s.frames[t].value) == unowned
            && s.run.counts[t] == |unowned|
  {
    var frame := frames[t].value;
    var reusable := ReusableKeys(CurrentRows(tables[t]), t, frame, pinned);
    var kept := DropKeys(t, frame, reusable);
    var s := StripIdentityKeys(tables, run, frames, pinned);
    DropKeysKeys(t, frame, reusable);
    DropKeysDistinct(t, frame, reusable);
    assert StrippedFrame(tables[t], run, t, frames[t], pinned) == Some(kept);
    if s.run == run {
      assert s.run.counts[t] == |kept|;
      DropKeysCount(t, frame, reusable);
      assert kept == frame && s.frames[t] == frames[t];
    } else {
      ReownedKeys(t, kept, RunKey(s.run));
      assert s.frames[t] == Some(Reowned(kept, RunKey(s.run)));
    }
  }

  lemma UnstrippedCount(tables: seq<TableLog>, run: Run, frames: seq<Option<Frame>>, pinned: set<RunId>, t: nat)
    requires |tables| == |frames| == |run.counts| == TABLE_COUNT && t < TABLE_COUNT
    requires !IsIdentityTable(t) || run.counts[t] == 0
    ensures StripIdentityKeys(tables, run, frames, pinned).run.counts[t] == run.counts[t]
  {
  }

  /** Stripping loses nothing: the old keys with the stripped keys are the old keys with the incoming keys. */
  lemma StripLosesNoKey(tables: seq<TableLog>, run: Run, frames: seq<Option<Frame>>, pinned: set<RunId>, t: nat)
    requires |tables| == TABLE_COUNT && FullFrames(run, frames)
    requires IsIdentityTable(t) && run.counts[t] > 0
    ensures var s := StripIdentityKeys(tables, run, frames, pinned);
            && s.frames[t].Some?
            && var before := CurrentRows(tables[t]).Keys;
               before + FrameKeys(t, s.frames[t].value) == before + FrameKeys(t, frames[t].value)
  {
    StripKeeps(tables, run, frames, pinned, t);
  }

  /** A merge of the stripped frame inserts one new row per key: its own rows beside every old row. */
  lemma StrippedMergeIsExact(tables: seq<TableLog>, run: Run, frames: seq<Option<Frame>>, pinned: set<RunId>, t: nat)
    requires |tables| == TABLE_COUNT && FullFrames(run, frames)
    requires IsIdentityTable(t) && run.counts[t] > 0
    requires !StripIdentityKeys(tables, run, frames, pinned).foreign
    ensures var s := StripIdentityKeys(tables, run, frames, pinned);
            && s.frames[t].Some?
            && FrameKeys(t, s.frames[t].value) * CurrentRows(tables[t]).Keys == {}
            && |MergeRows(t, CurrentRows(tables[t]), s.frames[t].value).Keys|
                == |CurrentRows(tables[t]).Keys| + s.run.counts[t]
  {
    var s := StripIdentityKeys(tables, run, frames, pinned);
    StripKeeps(tables, run, frames, pinned, t);
    assert !HasForeignOwner(CurrentRows(tables[t]), t, frames[t].value, pinned);
    MergeRowsInserts(t, CurrentRows(tables[t]), s.frames[t].value);
  }

  lemma {:induction false} DisjointFramesPass(tables: seq<TableLog>, run: Run, frames: seq<Option<Frame>>, t: nat)
    requires |tables| == |frames| == |run.counts| == TABLE_COUNT && t <= TABLE_COUNT
    requires forall u :: t <= u < TABLE_COUNT && IsIdentityTable(u) && run.counts[u] > 0 ==>
               frames[u].Some? && FrameKeys(u, frames[u].value) * CurrentRows(tables[u]).Keys == {}
    ensures PreflightFrom(tables, run, frames, t) == None
    decreases |tables| - t
  {
    if t < TABLE_COUNT {
      DisjointFramesPass(tables, run, frames, t + 1);
    }
  }

  /** When the strip reports no foreign owner, the key preflight that follows cannot fail. */
  lemma NoForeignOwnerNoCollision(tables: seq<TableLog>, run: Run, frames: seq<Option<Frame>>, pinned: set<RunId>)
    requires |tables| == TABLE_COUNT && FullFrames(run, frames)
    ensures var s := StripIdentityKeys(tables, run, frames, pinned);
            !s.foreign ==> PreflightFrom(tables, s.run, s.frames, 0) == None
  {
    var s := StripIdentityKeys(tables, run, frames, pinned);
    if !s.foreign {
      forall u | 0 <= u < TABLE_COUNT && IsIdentityTable(u) && s.run.counts[u] > 0
        ensures s.frames[u].Some? && FrameKeys(u, s.frames[u].value) * CurrentRows(tables[u]).Keys == {}
      {
        if run.counts[u] == 0 {
          UnstrippedCount(tables, run, frames, pinned, u);
        } else {
          StrippedMergeIsExact(tables, run, frames, pinned, u);
        }
      }
      DisjointFramesPass(tables, s.run, s.frames, 0);
    }
  }

  // ---------------------------------------------------------------- what the rebuilt run depends on

  function PinnedKeys(rows: RowMap, keys: set<MergeKey>, pinned: set<RunId>): set<MergeKey> {
    set k | k in keys && k in rows && rows[k].owner in pinned
  }

  /** The count of table `t` after the strip, from the planned keys alone. */
  function RebuiltCount(plan: KeyPlan, log: TableLog, run: Run, t: nat, pinned: set<RunId>): nat
    requires t < |run.counts|
  {
    if IsIdentityTable(t) && run.counts[t] > 0
    then |plan(RunKey(run), t) - PinnedKeys(CurrentRows(log), plan(RunKey(run), t), pinned)|
    else run.counts[t]
  }

  function RebuiltRun(plan: KeyPlan, tables: seq<TableLog>, run: Run, pinned: set<RunId>): Run
    requires |tables| == |run.counts| == TABLE_COUNT
  {
    run.(counts := seq(TABLE_COUNT, t requires 0 <= t < TABLE_COUNT => RebuiltCount(plan, tables[t], run, t, pinned)))
  }

  ghost predicate Planned(plan: KeyPlan, run: Run, frames: seq<Option<Frame>>) {
    |frames| == TABLE_COUNT
    && forall t :: 0 <= t < TABLE_COUNT && frames[t].Some? ==> FrameKeys(t, frames[t].value) == plan(RunKey(run), t)
  }

  /** The rebuilt run depends on the run, its keys and the pinned owners, not on row order or payloads. */
  lemma StripRebuilds(plan: KeyPlan, tables: seq<TableLog>, run: Run, frames: seq<Option<Frame>>, pinned: set<RunId>)
    requires |tables| == TABLE_COUNT && FullFrames(run, frames) && Planned(plan, run, frames)
    ensures StripIdentityKeys(tables, run, frames, pinned).run == RebuiltRun(plan, tables, run, pinned)
  {
    var s := StripIdentityKeys(tables, run, frames, pinned);
    forall t | 0 <= t < TABLE_COUNT
      ensures s.run.counts[t] == RebuiltCount(plan, tables[t], run, t, pinned)
    {
      if IsIdentityTable(t) && run.counts[t] > 0 {
        StripKeeps(tables, run, frames, pinned, t);
        assert ReusableKeys(CurrentRows(tables[t]), t, frames[t].value, pinned)
            == PinnedKeys(CurrentRows(tables[t]), plan(RunKey(run), t), pinned);
      } else {
        UnstrippedCount(tables, run, frames, pinned, t);
      }
    }
    assert s.run.counts == RebuiltRun(plan, tables, run, pinned).counts;
  }

  /** Every later version of the tables that adds only this run's keys to it rebuilds the same run. */
  lemma RebuildIsStable(plan: KeyPlan, before: seq<TableLog>, later: seq<TableLog>, run: Run, pinned: set<RunId>)
    requires |before| == |later| == |run.counts| == TABLE_COUNT
    requires forall t :: 0 <= t < TABLE_COUNT && IsIdentityTable(t) && run.counts[t] > 0 ==>
               PinnedKeys(CurrentRows(later[t]), plan(RunKey(run), t), pinned)
                   == PinnedKeys(CurrentRows(before[t]), plan(RunKey(run), t), pinned)
    ensures RebuiltRun(plan, later, run, pinned) == RebuiltRun(plan, before, run, pinned)
  {
    assert RebuiltRun(plan, later, run, pinned).counts == RebuiltRun(plan, before, run, pinned).counts;
  }

  lemma PinnedKeysStable(before: RowMap, later: RowMap, keys: set<MergeKey>, pinned: set<RunId>, run: RunId)
    requires SubMap(before, later) && run !in pinned
    requires forall k :: k in keys && k !in before ==> k in later && later[k].owner == run
    ensures PinnedKeys(later, keys, pinned) == PinnedKeys(before, keys, pinned)
  {
  }

  // ---------------------------------------------------------------- resolving an incremental submission

  lemma PreparedFull(plan: KeyPlan, tables: seq<TableLog>, sub: Submission)
    requires |tables| == |sub.run.counts| == TABLE_COUNT && CarriesPlan(plan, sub)
    requires PrepareFrom(tables, sub, 0, false).Ok?
    ensures var frames := PrepareFrom(tables, sub, 0, false).value;
            FullFrames(sub.run, frames) && Planned(plan, sub.run, frames)
  {
    PreparedFramesValid(tables, sub, false);
    PreparedLength(tables, sub, 0, false);
    var frames := PrepareFrom(tables, sub, 0, false).value;
    forall t | 0 <= t < TABLE_COUNT
      ensures sub.run.counts[t] > 0 ==> frames[t].Some?
      ensures frames[t].Some? ==> FrameKeys(t, frames[t].value) == plan(RunKey(sub.run), t)
    {
      assert PrepareTable(tables[t], sub, t, false) == Ok(frames[t - 0]);
    }
  }

  lemma {:induction false} PrepareIgnoresTables(before: seq<TableLog>, tables: seq<TableLog>, sub: Submission, t: nat)
    requires t <= TABLE_COUNT == |tables| == |before| == |sub.run.counts|
    ensures PrepareFrom(tables, sub, t, false) == PrepareFrom(before, sub, t, false)
    decreases |tables| - t
  {
    if t < TABLE_COUNT {
      PrepareIgnoresTables(before, tables, sub, t + 1);
    }
  }

  /** An incremental submission whose own run ID is unused, with validated frames. */
  ghost predicate Submittable(plan: KeyPlan, generation: Option<nat>, catalog: Catalog, sub: Submission) {
    && |catalog.tables| == TABLE_COUNT
    && Admissible(generation, sub) && sub.mode == Some(Incremental)
    && CarriesPlan(plan, sub)
    && CheckRun(generation, catalog, sub.run) == None
    && PrepareFrom(catalog.tables, sub, 0, false).Ok?
  }

  /** Such a submission goes on under the rebuilt run ID, or stops there. */
  lemma ResolvesToRebuilt(plan: KeyPlan, generation: Option<nat>, catalog: Catalog, sub: Submission)
    requires Submittable(plan, generation, catalog, sub)
    ensures var rebuilt := RebuiltRun(plan, catalog.tables, sub.run, sub.pinned.value);
            var resolution := Resolve(generation, catalog, sub);
            && (resolution.Go? ==> resolution.run == rebuilt)
            && (rebuilt != sub.run && CheckRun(generation, catalog, rebuilt).Some? ==>
                  resolution == Resolution.Stop(CheckRun(generation, catalog, rebuilt).value))
            && (resolution.Stop? && resolution.outcome.Published? ==>
                CheckRun(generation, catalog, rebuilt) == Some(resolution.outcome))
  {
    hide PrepareFrom, CheckRun, StripIdentityKeys, RebuiltRun, HeadsCurrent, PreflightFrom;
    PreparedFull(plan, catalog.tables, sub);
    var frames := PrepareFrom(catalog.tables, sub, 0, false).value;
    StripRebuilds(plan, catalog.tables, sub.run, frames, sub.pinned.value);
  }

  /** Where the stripped frames' keys come from. */
  lemma ResolvedKeys(plan: KeyPlan, generation: Option<nat>, catalog: Catalog, sub: Submission, t: nat)
    requires Submittable(plan, generation, catalog, sub)
    requires Resolve(generation, catalog, sub).Go?
    requires IsIdentityTable(t) && sub.run.counts[t] > 0
    ensures var go := Resolve(generation, catalog, sub);
            var keys := plan(RunKey(sub.run), t);
            && go.frames[t].Some?
            && FrameKeys(t, go.frames[t].value)
                == keys - PinnedKeys(CurrentRows(catalog.tables[t]), keys, sub.pinned.value)
  {
    hide PrepareFrom, CheckRun, StripIdentityKeys, HeadsCurrent, PreflightFrom;
    PreparedFull(plan, catalog.tables, sub);
    var frames := PrepareFrom(catalog.tables, sub, 0, false).value;
    StripKeeps(catalog.tables, sub.run, frames, sub.pinned.value, t);
    assert ReusableKeys(CurrentRows(catalog.tables[t]), t, frames[t].value, sub.pinned.value)
        == PinnedKeys(CurrentRows(catalog.tables[t]), plan(RunKey(sub.run), t), sub.pinned.value);
  }

  // ---------------------------------------------------------------- the first publication

  /** The call that published an incremental run under an ID other than the submitted one. */
  ghost predicate PublishedRebuilt(plan: KeyPlan, generation: Option<nat>, before: Catalog, sub: Submission,
                                   script: Script, after: Catalog, commit: Commit) {
    && CatalogInvariant(plan, before) && Obeys(plan, generation, before, sub)
    && generation.Some? && sub.mode == Some(Incremental)
    && sub.pinned.Some? && sub.pinned.value <= before.commits.Keys
    && commit.run != RunKey(sub.run) && commit.run !in before.commits
    && Attempt(generation, before, sub, script) == (after, Published(commit))
  }

  lemma GoIsSubmittable(plan: KeyPlan, generation: Option<nat>, catalog: Catalog, sub: Submission)
    requires |catalog.tables| == TABLE_COUNT && generation.Some? && sub.mode == Some(Incremental)
             && CarriesPlan(plan, sub)
    requires Resolve(generation, catalog, sub).Go?
    ensures Submittable(plan, generation, catalog, sub)
    ensures var run := Resolve(generation, catalog, sub).run;
            CheckRun(generation, catalog, run) == None && RunKey(run) !in catalog.commits
  {
    hide PrepareFrom, CheckRun, HeadsCurrent, PreflightFrom;
    PreparedLength(catalog.tables, sub, 0, false);
    var stripped :=
        StripIdentityKeys(catalog.tables, sub.run, PrepareFrom(catalog.tables, sub, 0, false).value, sub.pinned.value);
    CheckRunFacts(generation, catalog, sub.run);
    CheckRunFacts(generation, catalog, stripped.run);
  }

  lemma StopIsSubmittableOrOwn(plan: KeyPlan, generation: Option<nat>, catalog: Catalog, sub: Submission)
    requires |catalog.tables| == TABLE_COUNT && generation.Some? && sub.mode == Some(Incremental)
             && CarriesPlan(plan, sub)
    requires Resolve(generation, catalog, sub).Stop? && Resolve(generation, catalog, sub).outcome.Published?
    ensures Submittable(plan, generation, catalog, sub)
            || CheckRun(generation, catalog, sub.run) == Some(Resolve(generation, catalog, sub).outcome)
  {
    hide CheckRun, PrepareFrom, HeadsCurrent, PreflightFrom, StripIdentityKeys;
  }

  /** A publication under a rebuilt ID wrote that run; it did not just find a commit. */
  lemma PublishedRebuiltWrote(plan: KeyPlan, generation: Option<nat>, before: Catalog, sub: Submission, script: Script,
                              after: Catalog, commit: Commit)
    requires PublishedRebuilt(plan, generation, before, sub, script, after, commit)
    ensures Submittable(plan, generation, before, sub) && Resolve(generation, before, sub).Go?
    ensures Resolve(generation, before, sub).run == RebuiltRun(plan, before.tables, sub.run, sub.pinned.value)
    ensures commit.run == RunKey(RebuiltRun(plan, before.tables, sub.run, sub.pinned.value))
    ensures commit.run in after.commits && after.commits[commit.run] == commit
  {
    hide Resolve, WriteRun, CheckRun, RebuiltRun, PrepareFrom;
    var resolution := Resolve(generation, before, sub);
    if resolution.Stop? {
      StopIsSubmittableOrOwn(plan, generation, before, sub);
      CheckRunFacts(generation, before, sub.run);
      if Submittable(plan, generation, before, sub) {
        ResolvesToRebuilt(plan, generation, before, sub);
        CheckRunFacts(generation, before, RebuiltRun(plan, before.tables, sub.run, sub.pinned.value));
      }
    } else {
      GoIsSubmittable(plan, generation, before, sub);
      ResolvesToRebuilt(plan, generation, before, sub);
      WriteRecords(before, resolution.run, resolution.frames, sub.at, script);
    }
  }

  /** After the publication every planned key is in its table, and the new ones belong to the rebuilt run. */
  lemma PublishedOwnsNewKeys(plan: KeyPlan, generation: Option<nat>, before: Catalog, sub: Submission, script: Script,
                             after: Catalog, commit: Commit, t: nat)
    requires PlanFitsCounts(plan) && PublishedRebuilt(plan, generation, before, sub, script, after, commit)
    requires |sub.run.counts| == TABLE_COUNT && IsIdentityTable(t) && sub.run.counts[t] > 0
    ensures |before.tables| == |after.tables| == TABLE_COUNT && Grows(before, after) && CatalogInvariant(plan, after)
    ensures forall k :: k in plan(RunKey(sub.run), t) && k !in CurrentRows(before.tables[t]) ==>
              k in CurrentRows(after.tables[t]) && CurrentRows(after.tables[t])[k].owner == commit.run
  {
    hide Resolve, Attempt, RebuiltRun, PrepareFrom, CheckRun, Invariant;
    PublishedRebuiltWrote(plan, generation, before, sub, script, after, commit);
    AttemptKeepsInvariant(plan, generation, before, sub, script);
    ResolvedKeys(plan, generation, before, sub, t);
    CommittedOwnsPlan(plan, after, commit.run, t);
  }

  lemma CommittedOwnsPlan(plan: KeyPlan, catalog: Catalog, run: RunId, t: nat)
    requires CatalogInvariant(plan, catalog) && run in catalog.commits && t < |catalog.tables| == TABLE_COUNT
    ensures forall k :: k in plan(run, t) ==>
              k in CurrentRows(catalog.tables[t]) && CurrentRows(catalog.tables[t])[k].owner == run
  {
    assert Fenced(plan, catalog, run);
    assert OwnedKeys(CurrentRows(catalog.tables[t]), run) == plan(run, t);
  }

  lemma GrownRows(plan: KeyPlan, before: Catalog, later: Catalog, t: nat)
    requires CatalogInvariant(plan, later) && Grows(before, later)
             && t < |before.tables| == |later.tables| == TABLE_COUNT
    ensures SubMap(CurrentRows(before.tables[t]), CurrentRows(later.tables[t]))
  {
    ExtendsGrows(plan, t, before.tables[t], later.tables[t]);
  }

  /** The submission strips the same keys again, whatever has been committed since. */
  lemma RetryRebuildsSameRun(plan: KeyPlan, generation: Option<nat>, before: Catalog, sub: Submission, script: Script,
                             after: Catalog, commit: Commit, later: Catalog)
    requires PlanFitsCounts(plan) && PublishedRebuilt(plan, generation, before, sub, script, after, commit)
    requires CatalogInvariant(plan, later) && Grows(after, later)
    ensures |before.tables| == |later.tables| == |sub.run.counts| == TABLE_COUNT
    ensures RebuiltRun(plan, later.tables, sub.run, sub.pinned.value)
            == RebuiltRun(plan, before.tables, sub.run, sub.pinned.value)
  {
    hide Resolve, Attempt, RebuiltRun, PrepareFrom, CheckRun;
    PublishedRebuiltWrote(plan, generation, before, sub, script, after, commit);
    var pinned := sub.pinned.value;
    forall t | 0 <= t < TABLE_COUNT && IsIdentityTable(t) && sub.run.counts[t] > 0
      ensures PinnedKeys(CurrentRows(later.tables[t]), plan(RunKey(sub.run), t), pinned)
           == PinnedKeys(CurrentRows(before.tables[t]), plan(RunKey(sub.run), t), pinned)
    {
      PublishedOwnsNewKeys(plan, generation, before, sub, script, after, commit, t);
      GrownRows(plan, before, after, t);
      GrownRows(plan, after, later, t);
      PinnedKeysStable(CurrentRows(before.tables[t]), CurrentRows(later.tables[t]), plan(RunKey(sub.run), t), pinned,
                       commit.run);
    }
    RebuildIsStable(plan, before.tables, later.tables, sub.run, pinned);
  }

  /** Incremental retry recognises itself: the original submission, sent again at any later time and with
      its own rows now owned outside the pinned lineage, returns the published commit and writes nothing. */
  lemma RetryRecognisesItself(
      plan: KeyPlan, generation: Option<nat>, before: Catalog, sub: Submission, script: Script, after: Catalog,
      commit: Commit,
      later: Catalog, again: Submission, interruption: Script)
    requires PlanFitsCounts(plan) && PublishedRebuilt(plan, generation, before, sub, script, after, commit)
    requires CatalogInvariant(plan, later) && Grows(after, later)
    requires Submittable(plan, generation, later, again) && again.run == sub.run && again.pinned == sub.pinned
    ensures Attempt(generation, later, again, interruption) == (later, Published(commit))
  {
    hide PrepareFrom, RebuiltRun, Obeys;
    var rebuilt := RebuiltRun(plan, before.tables, sub.run, sub.pinned.value);
    PublishedRebuiltWrote(plan, generation, before, sub, script, after, commit);
    RetryRebuildsSameRun(plan, generation, before, sub, script, after, commit, later);
    CommitIsReused(plan, generation, later, rebuilt);
    ResolvesToRebuilt(plan, generation, later, again);
    AttemptStops(generation, later, again, interruption, Published(commit));
  }

  lemma CommitIsReused(plan: KeyPlan, generation: Option<nat>, catalog: Catalog, run: Run)
    requires CatalogInvariant(plan, catalog) && RunKey(run) in catalog.commits
    ensures CheckRun(generation, catalog, run) == Some(Published(catalog.commits[RunKey(run)]))
  {
    assert Fenced(plan, catalog, RunKey(run));
  }

  lemma AttemptStops(generation: Option<nat>, catalog: Catalog, sub: Submission, script: Script, outcome: Outcome)
    requires |catalog.tables| == TABLE_COUNT
    requires Resolve(generation, catalog, sub) == Resolution.Stop(outcome)
    ensures Attempt(generation, catalog, sub, script) == (catalog, outcome)
  {
  }

  // ---------------------------------------------------------------- after any history of calls

  datatype Call = Call(generation: Option<nat>, sub: Submission, script: Script)

  ghost function Calls(catalog: Catalog, calls: seq<Call>): (later: Catalog)
    requires |catalog.tables| == TABLE_COUNT
    ensures |later.tables| == TABLE_COUNT
    decreases |calls|
  {
    if calls == [] then catalog
    else
      var next := Attempt(calls[0].generation, catalog, calls[0].sub, calls[0].script).0;
      AttemptKeepsTableCount(calls[0].generation, catalog, calls[0].sub, calls[0].script);
      Calls(next, calls[1..])
  }

  /** Any other call, or the same run with the same pinned lineage; no other submission strips down to this run. */
  ghost predicate Harmless(plan: KeyPlan, catalog: Catalog, run: Run, pinned: Option<set<RunId>>, call: Call)
    requires |catalog.tables| == TABLE_COUNT
  {
    && Obeys(plan, call.generation, catalog, call.sub)
    && (call.sub.run == run ==> call.sub.pinned == pinned)
    && var resolution := Resolve(call.generation, catalog, call.sub);
       resolution.Go? && resolution.run == run ==> call.sub.run == run
  }

  ghost predicate HarmlessHistory(plan: KeyPlan, catalog: Catalog, run: Run, pinned: Option<set<RunId>>,
                                  calls: seq<Call>)
    requires |catalog.tables| == TABLE_COUNT
    decreases |calls|
  {
    calls == [] ||
    (AttemptKeepsTableCount(calls[0].generation, catalog, calls[0].sub, calls[0].script);
     && Harmless(plan, catalog, run, pinned, calls[0])
     && HarmlessHistory(plan, Attempt(calls[0].generation, catalog, calls[0].sub, calls[0].script).0, run, pinned,
                        calls[1..]))
  }

  /** Nothing was written under this run ID, as far as a generation write checks. */
  ghost predicate Unused(catalog: Catalog, run: Run) {
    RunKey(run) !in catalog.commits && NoPartialState(catalog.tables, RunKey(run))
  }

  lemma MergeLeavesOthers(t: nat, log: TableLog, frame: Frame, tag: RunId, run: RunId)
    requires tag != run && forall row :: row in frame ==> row.owner == tag
    requires RowCount(log, run) == 0 && !HeadIsTagged(log, run)
    ensures var after := MergeInsertOnly(t, log, frame, tag); RowCount(after, run) == 0 && !HeadIsTagged(after, run)
  {
    if frame != [] {
      var merged := MergeRows(t, CurrentRows(log), frame);
      MergeRowsInserts(t, CurrentRows(log), frame);
      assert OwnedKeys(CurrentRows(log), run) == {};
      assert OwnedKeys(merged, run) == {};
    }
  }

  lemma StageLeavesOthers(tables: seq<TableLog>, run: Run, frames: seq<Option<Frame>>, script: Script, other: RunId)
    requires |tables| == TABLE_COUNT && FramesValid(run, frames) && RunKey(run) != other
    requires NoPartialState(tables, other)
    ensures NoPartialState(StageFrom(tables, run, frames, script, 0).0, other)
  {
    hide StageFrom, StageTable, RowCount, MergeInsertOnly;
    StageFromLength(tables, run, frames, script, 0);
    var after := StageFrom(tables, run, frames, script, 0).0;
    forall t | 0 <= t < |after|
      ensures RowCount(after[t], other) == 0 && !HeadIsTagged(after[t], other)
    {
      StageFromAt(tables, run, frames, script, 0, t);
      StageTableMerges(t, tables[t], RunKey(run), run.counts[t], frames[t], script.tables(t));
      if frames[t].Some? {
        MergeLeavesOthers(t, tables[t], frames[t].value, RunKey(run), other);
      }
    }
  }

  lemma SealLeavesOthers(catalog: Catalog, run: Run, at: nat, fate: Fate, other: RunId)
    requires |catalog.tables| == |run.counts| == TABLE_COUNT && RunKey(run) != other && other !in catalog.commits
    ensures Seal(catalog, run, at, fate).0.tables == catalog.tables
    ensures other !in Seal(catalog, run, at, fate).0.commits
  {
    hide PinsFrom, RowCounts;
  }

  lemma WriteLeavesOthers(catalog: Catalog, run: Run, frames: seq<Option<Frame>>, at: nat, script: Script, other: Run)
    requires |catalog.tables| == TABLE_COUNT && FramesValid(run, frames) && run != other && Unused(catalog, other)
    ensures Unused(WriteRun(catalog, run, frames, at, script).0, other)
  {
    hide StageFrom, Seal, NoPartialState;
    StageFromLength(catalog.tables, run, frames, script, 0);
    StageLeavesOthers(catalog.tables, run, frames, script, RunKey(other));
    var (runs, declared) := EnsureManifest(catalog.runs, run, script.manifest);
    var staged := catalog.(runs := runs).(tables := StageFrom(catalog.tables, run, frames, script, 0).0);
    SealLeavesOthers(staged, run, at, script.commit, RunKey(other));
  }

  /** A call that writes under another run ID, or does not write, leaves the original ID unused. */
  lemma OtherCallKeepsUnused(call: Call, catalog: Catalog, run: Run)
    requires |catalog.tables| == TABLE_COUNT && Unused(catalog, run)
    requires var resolution := Resolve(call.generation, catalog, call.sub); resolution.Go? ==> resolution.run != run
    ensures Unused(Attempt(call.generation, catalog, call.sub, call.script).0, run)
  {
    hide Resolve, WriteRun, NoPartialState;
    var resolution := Resolve(call.generation, catalog, call.sub);
    if resolution.Go? {
      ResolvedFramesValid(call.generation, catalog, call.sub);
      WriteLeavesOthers(catalog, resolution.run, resolution.frames, call.sub.at, call.script, run);
    }
  }

  lemma SameRunSameMode(generation: Option<nat>, sub: Submission, callGeneration: Option<nat>, again: Submission)
    requires Admissible(generation, sub) && generation.Some? && sub.mode == Some(Incremental)
    requires Admissible(callGeneration, again) && again.run == sub.run
    ensures callGeneration == generation && again.mode == Some(Incremental)
  {
  }

  lemma HarmlessCallKeepsUnused(
      plan: KeyPlan, generation: Option<nat>, before: Catalog, sub: Submission, script: Script, after: Catalog,
      commit: Commit,
      now: Catalog, call: Call)
    requires PlanFitsCounts(plan) && PublishedRebuilt(plan, generation, before, sub, script, after, commit)
    requires CatalogInvariant(plan, now) && Grows(after, now) && Unused(now, sub.run)
    requires |now.tables| == TABLE_COUNT && Harmless(plan, now, sub.run, sub.pinned, call)
    ensures Unused(Attempt(call.generation, now, call.sub, call.script).0, sub.run)
  {
    hide Resolve, Attempt, Admissible, CheckRun, PrepareFrom, Invariant;
    var resolution := Resolve(call.generation, now, call.sub);
    if resolution.Go? && resolution.run == sub.run {
      GoIsAdmissible(call.generation, now, call.sub);
      PublishedRebuiltWrote(plan, generation, before, sub, script, after, commit);
      SameRunSameMode(generation, sub, call.generation, call.sub);
      GoIsSubmittable(plan, generation, now, call.sub);
      RetryRecognisesItself(plan, generation, before, sub, script, after, commit, now, call.sub, call.script);
    } else {
      OtherCallKeepsUnused(call, now, sub.run);
    }
  }

  lemma GoIsAdmissible(generation: Option<nat>, catalog: Catalog, sub: Submission)
    requires |catalog.tables| == TABLE_COUNT && Resolve(generation, catalog, sub).Go?
    ensures Admissible(generation, sub)
  {
    hide Admissible, CheckRun, PrepareFrom, StripIdentityKeys, CheckKeys;
  }

  lemma {:induction false} HistoryKeepsUnused(
      plan: KeyPlan, generation: Option<nat>, before: Catalog, sub: Submission, script: Script, after: Catalog,
      commit: Commit,
      now: Catalog, calls: seq<Call>)
    requires PlanFitsCounts(plan) && PublishedRebuilt(plan, generation, before, sub, script, after, commit)
    requires CatalogInvariant(plan, now) && Grows(after, now) && Unused(now, sub.run)
    requires |now.tables| == TABLE_COUNT && HarmlessHistory(plan, now, sub.run, sub.pinned, calls)
    ensures var later := Calls(now, calls);
            CatalogInvariant(plan, later) && Grows(after, later) && Unused(later, sub.run)
    decreases |calls|
  {
    hide Attempt, Unused, PublishedRebuilt, Invariant, Harmless, Grows, Obeys;
    if calls != [] {
      var call := calls[0];
      var next := Attempt(call.generation, now, call.sub, call.script).0;
      HarmlessCallKeepsUnused(plan, generation, before, sub, script, after, commit, now, call);
      HarmlessObeys(plan, now, sub.run, sub.pinned, call);
      AttemptKeepsInvariant(plan, call.generation, now, call.sub, call.script);
      AttemptKeepsTableCount(call.generation, now, call.sub, call.script);
      GrowsTransitive(after, now, next);
      HistoryKeepsUnused(plan, generation, before, sub, script, after, commit, next, calls[1..]);
    }
  }

  lemma HarmlessObeys(plan: KeyPlan, catalog: Catalog, run: Run, pinned: Option<set<RunId>>, call: Call)
    requires |catalog.tables| == TABLE_COUNT && Harmless(plan, catalog, run, pinned, call)
    ensures Obeys(plan, call.generation, catalog, call.sub)
  {
    hide Obeys;
  }

  /** The same run, lineage and keys as `sub`, in frames that still validate. */
  ghost predicate Resubmits(plan: KeyPlan, generation: Option<nat>, sub: Submission, again: Submission) {
    && again.run == sub.run && again.pinned == sub.pinned
    && Admissible(generation, again) && CarriesPlan(plan, again)
    && PrepareFrom(EMPTY_CATALOG.tables, again, 0, false).Ok?
  }

  lemma ResubmissionSubmittable(plan: KeyPlan, generation: Option<nat>, sub: Submission, again: Submission,
                                catalog: Catalog)
    requires generation.Some? && Admissible(generation, sub) && sub.mode == Some(Incremental)
    requires Resubmits(plan, generation, sub, again)
    requires CatalogInvariant(plan, catalog) && Unused(catalog, sub.run)
    ensures Submittable(plan, generation, catalog, again)
  {
    SameRunSameMode(generation, sub, generation, again);
    PrepareIgnoresTables(EMPTY_CATALOG.tables, catalog.tables, again, 0);
  }

  /** Resubmitting an incremental run, whatever calls of other runs or of itself came in between and
      however they were interrupted, returns the commit first published and leaves the catalog as it is. */
  lemma RetryAfterAnyHistory(
      plan: KeyPlan, generation: Option<nat>, before: Catalog, sub: Submission, script: Script, after: Catalog,
      commit: Commit,
      calls: seq<Call>, again: Submission, interruption: Script)
    requires PlanFitsCounts(plan) && PublishedRebuilt(plan, generation, before, sub, script, after, commit)
    requires |after.tables| == TABLE_COUNT && HarmlessHistory(plan, after, sub.run, sub.pinned, calls)
    requires Resubmits(plan, generation, sub, again)
    ensures Attempt(generation, Calls(after, calls), again, interruption) == (Calls(after, calls), Published(commit))
  {
    hide Attempt, Resolve, Invariant, Unused, HarmlessHistory, CheckRun, Admissible, Obeys, RebuiltRun, Grows;
    var later := Calls(after, calls);
    PublishedRebuiltWrote(plan, generation, before, sub, script, after, commit);
    SubmittableIsUnused(plan, generation, before, sub);
    OtherCallKeepsUnused(Call(generation, sub, script), before, sub.run);
    AttemptKeepsInvariant(plan, generation, before, sub, script);
    GrowsReflexive(after);
    HistoryKeepsUnused(plan, generation, before, sub, script, after, commit, after, calls);
    ResubmissionSubmittable(plan, generation, sub, again, later);
    RetryRecognisesItself(plan, generation, before, sub, script, after, commit, later, again, interruption);
  }

  lemma SubmittableIsUnused(plan: KeyPlan, generation: Option<nat>, catalog: Catalog, sub: Submission)
    requires generation.Some? && Submittable(plan, generation, catalog, sub)
    ensures Unused(catalog, sub.run)
  {
  }

  lemma GrowsReflexive(catalog: Catalog)
    ensures Grows(catalog, catalog)
  {
    forall t | 0 <= t < |catalog.tables|
      ensures Extends(catalog.tables[t], catalog.tables[t])
    {
    }
  }

  // ---------------------------------------------------------------- a first submission goes through

  lemma StrippedKeysNew(tables: seq<TableLog>, run: Run, frames: seq<Option<Frame>>, pinned: set<RunId>, t: nat)
    requires |tables| == TABLE_COUNT && FullFrames(run, frames) && t < TABLE_COUNT
    requires forall u :: 0 <= u < SOURCE_TABLE_COUNT ==> run.counts[u] == 0
    requires !StripIdentityKeys(tables, run, frames, pinned).foreign
    ensures var s := StripIdentityKeys(tables, run, frames, pinned);
            KeysNew(t, tables[t], s.frames[t]) && Stageable(t, RunKey(s.run), s.run.counts[t], s.frames[t])
  {
    var s := StripIdentityKeys(tables, run, frames, pinned);
    StrippedFramesValid(tables, run, frames, pinned);
    if IsIdentityTable(t) && run.counts[t] > 0 {
      StrippedMergeIsExact(tables, run, frames, pinned, t);
      var keys, stored := FrameKeys(t, s.frames[t].value), CurrentRows(tables[t]).Keys;
      assert forall k :: k in keys && k in stored ==> k in keys * stored;
    } else {
      UnstrippedCount(tables, run, frames, pinned, t);
    }
  }

  lemma CleanSubmissionResolves(plan: KeyPlan, generation: Option<nat>, catalog: Catalog, sub: Submission)
    returns (s: Stripped)
    requires generation.Some? && Submittable(plan, generation, catalog, sub)
    requires sub.heads.Some? ==> HeadsCurrent(catalog.tables, sub.heads.value)
    requires CheckRun(generation, catalog, RebuiltRun(plan, catalog.tables, sub.run, sub.pinned.value)) == None
    ensures |PrepareFrom(catalog.tables, sub, 0, false).value| == TABLE_COUNT
    ensures s == StripIdentityKeys(catalog.tables, sub.run, PrepareFrom(catalog.tables, sub, 0, false).value,
                                   sub.pinned.value)
    ensures s.run == RebuiltRun(plan, catalog.tables, sub.run, sub.pinned.value)
    ensures !s.foreign ==> Resolve(generation, catalog, sub) == Go(s.run, s.frames)
  {
    hide PrepareFrom, CheckRun, HeadsCurrent, RebuiltRun, PreflightFrom, StripIdentityKeys;
    PreparedFull(plan, catalog.tables, sub);
    var frames := PrepareFrom(catalog.tables, sub, 0, false).value;
    s := StripIdentityKeys(catalog.tables, sub.run, frames, sub.pinned.value);
    StripRebuilds(plan, catalog.tables, sub.run, frames, sub.pinned.value);
    NoForeignOwnerNoCollision(catalog.tables, sub.run, frames, sub.pinned.value);
  }

  /** Whatever the pinned runs already own, an undisturbed incremental call with current heads, no foreign owner and an
      unused rebuilt run ID publishes that rebuilt run. */
  lemma CleanIncrementalPublishes(plan: KeyPlan, generation: Option<nat>, catalog: Catalog, sub: Submission)
    requires generation.Some? && Submittable(plan, generation, catalog, sub) && ManifestsMatch(catalog)
    requires sub.heads.Some? ==> HeadsCurrent(catalog.tables, sub.heads.value)
    requires var rebuilt := RebuiltRun(plan, catalog.tables, sub.run, sub.pinned.value);
             && CheckRun(generation, catalog, rebuilt) == None
             && forall t :: 0 <= t < TABLE_COUNT ==> Clean(catalog.tables[t], RunKey(rebuilt))
    requires |PrepareFrom(catalog.tables, sub, 0, false).value| == TABLE_COUNT
    requires !StripIdentityKeys(catalog.tables, sub.run, PrepareFrom(catalog.tables, sub, 0, false).value,
                                sub.pinned.value).foreign
    ensures var outcome := Attempt(generation, catalog, sub, UNINTERRUPTED).1;
            && outcome.Published?
            && outcome.commit.run == RunKey(RebuiltRun(plan, catalog.tables, sub.run, sub.pinned.value))
  {
    hide PrepareFrom, RebuiltRun, StripIdentityKeys, WriteRun, Clean, KeysNew, Stageable, FullFrames;
    PreparedFull(plan, catalog.tables, sub);
    var frames := PrepareFrom(catalog.tables, sub, 0, false).value;
    var s := CleanSubmissionResolves(plan, generation, catalog, sub);
    forall t | 0 <= t < TABLE_COUNT
      ensures KeysNew(t, catalog.tables[t], s.frames[t]) && Stageable(t, RunKey(s.run), s.run.counts[t], s.frames[t])
    {
      StrippedKeysNew(catalog.tables, sub.run, frames, sub.pinned.value, t);
    }
    CheckRunFacts(generation, catalog, s.run);
    PublishesIffKeysNew(catalog, s.run, s.frames, sub.at);
    WriteRecords(catalog, s.run, s.frames, sub.at, UNINTERRUPTED);
  }
}
