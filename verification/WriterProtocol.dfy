/** `stage_and_commit` as an interleaved protocol.  Any number of writers take
    one database access at a time, in any order, and may stop for good after any
    of them.  What a writer read before its first MERGE is abstracted: every
    submission with validated frames may proceed, so each schedule of the code is
    a schedule here.  A table is merged only after two rounds of checks found it
    unwritten by the run.  One round counts as one access, at its last read: that
    read excludes snapshots of the run, and no row of the run comes without one. */
module WriterProtocol {
  import opened Prelude
  import opened SilverStore

  datatype Phase =
    | Preparing
    | Staging(next: nat)
    | Checked(next: nat, rounds: nat)
    | Counting(counts: seq<nat>)
    | Pinning(counts: seq<nat>, snapshots: seq<Option<nat>>)

  datatype Writer = Writer(run: Run, frames: map<nat, Frame>, phase: Phase)

  datatype World = World(catalog: Catalog, writers: map<nat, Writer>)

  datatype Step =
    | Submit(writer: nat, run: Run, frames: map<nat, Frame>)
    | PutManifest(writer: nat)
    | SkipTable(writer: nat)
    | CheckTable(writer: nat)
    | MergeTable(writer: nat)
    | CountTable(writer: nat)
    | CompareCounts(writer: nat)
    | PinTable(writer: nat)
    | Publish(writer: nat, at: nat)
    | Stop(writer: nat)

  const EMPTY_WORLD := World(EMPTY_CATALOG, map[])

  /** Frames pass `_validate_run_frame`, and carry the keys every submission of this run carries. */
  ghost predicate ValidSubmission(plan: KeyPlan, run: Run, frames: map<nat, Frame>) {
    && |run.counts| == TABLE_COUNT
    && forall t :: t in frames ==>
                     && t < TABLE_COUNT
                     && ValidFrame(t, RunKey(run), run.counts[t], frames[t])
                     && FrameKeys(t, frames[t]) == plan(RunKey(run), t)
  }

  /** The writer is at some table: before its checks, between them or past them. */
  predicate AtTable(phase: Phase) { (phase.Staging? || phase.Checked?) && phase.next < TABLE_COUNT }

  function RoundsPassed(phase: Phase): nat { if phase.Checked? then phase.rounds else 0 }

  /** One round of `_verify_completed_table` and `_verify_no_snapshot_or_concurrent_winner` finds nothing of the run. */
  predicate Unwritten(log: TableLog, run: RunId) {
    RowCount(log, run) == 0 && FindOwnedSnapshot(log, run, 0).Ok?
  }

  ghost predicate Enabled(plan: KeyPlan, w: World, step: Step) {
    match step
    case Submit(id, run, frames) => id !in w.writers && ValidSubmission(plan, run, frames)
    case PutManifest(id) => id in w.writers && w.writers[id].phase.Preparing?
    case SkipTable(id) => id in w.writers && AtTable(w.writers[id].phase)
    case CheckTable(id) =>
      id in w.writers && AtTable(w.writers[id].phase) && RoundsPassed(w.writers[id].phase) < 2
      && w.writers[id].phase.next < |w.catalog.tables|
      && Unwritten(w.catalog.tables[w.writers[id].phase.next], RunKey(w.writers[id].run))
    case MergeTable(id) =>
      id in w.writers && AtTable(w.writers[id].phase) && RoundsPassed(w.writers[id].phase) == 2
      && w.writers[id].phase.next in w.writers[id].frames
    case CountTable(id) =>
      id in w.writers && (
        || w.writers[id].phase == Staging(TABLE_COUNT)
        || (w.writers[id].phase.Counting? && |w.writers[id].phase.counts| < TABLE_COUNT))
    case CompareCounts(id) =>
      id in w.writers && w.writers[id].phase.Counting? && w.writers[id].phase.counts == w.writers[id].run.counts
    case PinTable(id) =>
      id in w.writers && w.writers[id].phase.Pinning? && |w.writers[id].phase.snapshots| < TABLE_COUNT
      && PinOf(w, id).Ok?
    case Publish(id, _) =>
      id in w.writers && w.writers[id].phase.Pinning? && |w.writers[id].phase.snapshots| == TABLE_COUNT
    case Stop(id) => id in w.writers
  }

  ghost predicate WellFormed(w: World) {
    && |w.catalog.tables| == TABLE_COUNT
    && forall id :: id in w.writers ==>
                      && |w.writers[id].run.counts| == TABLE_COUNT
                      && (w.writers[id].phase.Counting? ==> |w.writers[id].phase.counts| <= TABLE_COUNT)
                      && (w.writers[id].phase.Pinning? ==> |w.writers[id].phase.counts| == TABLE_COUNT)
  }

  /** The `_run_snapshot_id` call for the next unpinned table. */
  function PinOf(w: World, id: nat): Result<Option<nat>, SnapshotError>
    requires id in w.writers && w.writers[id].phase.Pinning?
  {
    var writer := w.writers[id];
    var t := |writer.phase.snapshots|;
    if t < |w.catalog.tables| && t < |writer.phase.counts|
    then FindOwnedSnapshot(w.catalog.tables[t], RunKey(writer.run), writer.phase.counts[t])
    else Err(NotExactlyOneSnapshot)
  }

  function WithPhase(w: World, id: nat, phase: Phase): World
    requires id in w.writers
  {
    w.(writers := w.writers[id := w.writers[id].(phase := phase)])
  }

  ghost function Take(plan: KeyPlan, w: World, step: Step): World
    requires WellFormed(w) && Enabled(plan, w, step)
  {
    match step
    case Submit(id, run, frames) => w.(writers := w.writers[id := Writer(run, frames, Preparing)])
    case PutManifest(id) =>
      var run := w.writers[id].run;
      var runs := if RunKey(run) in w.catalog.runs then w.catalog.runs else w.catalog.runs[RunKey(run) := run];
      WithPhase(w, id, Staging(0)).(catalog := w.catalog.(runs := runs))
    case SkipTable(id) => WithPhase(w, id, Staging(w.writers[id].phase.next + 1))
    case CheckTable(id) =>
      WithPhase(w, id, Checked(w.writers[id].phase.next, RoundsPassed(w.writers[id].phase) + 1))
    case MergeTable(id) =>
      var writer := w.writers[id];
      var t := writer.phase.next;
      var log := MergeInsertOnly(t, w.catalog.tables[t], writer.frames[t], RunKey(writer.run));
      WithPhase(w, id, Staging(t + 1)).(catalog := w.catalog.(tables := w.catalog.tables[t := log]))
    case CountTable(id) =>
      var writer := w.writers[id];
      var counts := if writer.phase.Staging? then [] else writer.phase.counts;
      WithPhase(w, id, Counting(counts + [RowCount(w.catalog.tables[|counts|], RunKey(writer.run))]))
    case CompareCounts(id) => WithPhase(w, id, Pinning(w.writers[id].phase.counts, []))
    case PinTable(id) =>
      var phase := w.writers[id].phase;
      WithPhase(w, id, Pinning(phase.counts, phase.snapshots + [PinOf(w, id).value]))
    case Publish(id, at) =>
      var writer := w.writers[id];
      var r := RunKey(writer.run);
      var commit := Commit(r, at, writer.phase.counts, writer.phase.snapshots);
      var commits := if r in w.catalog.commits then w.catalog.commits else w.catalog.commits[r := commit];
      World(w.catalog.(commits := commits), w.writers - {id})
    case Stop(id) => w.(writers := w.writers - {id})
  }

  // ---------------------------------------------------------------- the commit fence

  /** A stored snapshot ID still names a snapshot tagged by the run that holds all its rows. */
  ghost predicate PinHolds(log: TableLog, run: RunId, expected: nat, pin: Option<nat>) {
    match pin
    case None => expected == 0
    case Some(id) =>
      && 0 < id <= |log|
      && log[id - 1].tag == run
      && |OwnedKeys(log[id - 1].rows, run)| == expected
  }

  /** What a commit marker for `run` promises about the stored catalog. */
  ghost predicate Fenced(plan: KeyPlan, catalog: Catalog, run: RunId)
    requires run in catalog.commits
  {
    var commit := catalog.commits[run];
    && |catalog.tables| == |run.run.counts| == |commit.snapshots| == TABLE_COUNT
    && commit.run == run
    && commit.counts == run.run.counts
    && run in catalog.runs && catalog.runs[run] == run.run
    && forall t :: 0 <= t < TABLE_COUNT ==>
                     && RowCount(catalog.tables[t], run) == run.run.counts[t]
                     && OwnedKeys(CurrentRows(catalog.tables[t]), run) == plan(run, t)
                     && PinHolds(catalog.tables[t], run, run.run.counts[t], commit.snapshots[t])
  }

  ghost predicate CommitFence(plan: KeyPlan, catalog: Catalog) {
    forall run :: run in catalog.commits ==> Fenced(plan, catalog, run)
  }

  /** A writer's private reads are still lower bounds, and its pins still hold. */
  ghost predicate WriterConsistent(plan: KeyPlan, catalog: Catalog, writer: Writer) {
    var r := RunKey(writer.run);
    && |catalog.tables| == TABLE_COUNT
    && ValidSubmission(plan, writer.run, writer.frames)
    && (!writer.phase.Preparing? ==> r in catalog.runs && catalog.runs[r] == writer.run)
    && match writer.phase
       case Preparing => true
       case Staging(next) => next <= TABLE_COUNT
       case Checked(next, _) => next < TABLE_COUNT
       case Counting(counts) =>
         && |counts| <= TABLE_COUNT
         && forall t :: 0 <= t < |counts| ==> counts[t] <= RowCount(catalog.tables[t], r)
       case Pinning(counts, snapshots) =>
         && counts == writer.run.counts
         && |snapshots| <= TABLE_COUNT
         && (forall t :: 0 <= t < TABLE_COUNT ==> counts[t] <= RowCount(catalog.tables[t], r))
         && (forall t :: 0 <= t < |snapshots| ==> PinHolds(catalog.tables[t], r, counts[t], snapshots[t]))
  }

  /** A stored manifest is the run its key names, so the conflict errors cannot fire. */
  ghost predicate ManifestsMatch(catalog: Catalog) {
    forall r :: r in catalog.runs ==> catalog.runs[r] == r.run
  }

  ghost predicate Invariant(plan: KeyPlan, w: World) {
    && WellFormed(w)
    && ManifestsMatch(w.catalog)
    && (forall t :: 0 <= t < TABLE_COUNT ==> GoodLog(plan, t, w.catalog.tables[t]))
    && (forall id :: id in w.writers ==> WriterConsistent(plan, w.catalog, w.writers[id]))
    && CommitFence(plan, w.catalog)
  }

  /** The stored state only ever grows: logs extend, manifests and commits stay. */
  ghost predicate Grows(catalog: Catalog, later: Catalog) {
    && |catalog.tables| == |later.tables|
    && (forall t :: 0 <= t < |catalog.tables| ==> Extends(catalog.tables[t], later.tables[t]))
    && (forall r :: r in catalog.runs ==> r in later.runs && later.runs[r] == catalog.runs[r])
    && (forall r :: r in catalog.commits ==> r in later.commits && later.commits[r] == catalog.commits[r])
  }

  lemma CountStable(plan: KeyPlan, t: nat, log: TableLog, later: TableLog, run: RunId)
    requires GoodLog(plan, t, later) && Extends(log, later)
    ensures RowCount(log, run) <= RowCount(later, run) <= |plan(run, t)|
    ensures RowCount(log, run) == |plan(run, t)| ==>
              RowCount(later, run) == |plan(run, t)| && OwnedKeys(CurrentRows(later), run) == plan(run, t)
  {
    ExtendsGrows(plan, t, log, later);
    OwnedKeysGrow(CurrentRows(log), CurrentRows(later), run);
    OwnedWithinPlan(plan, t, CurrentRows(later), run);
  }

  lemma PinStable(log: TableLog, later: TableLog, run: RunId, expected: nat, pin: Option<nat>)
    requires PinHolds(log, run, expected, pin) && Extends(log, later)
    ensures PinHolds(later, run, expected, pin)
  {
    if pin.Some? {
      assert log[pin.value - 1] == later[..|log|][pin.value - 1];
    }
  }

  /** The fence and every writer's private reads survive any growth of the catalog. */
  lemma FenceSurvivesGrowth(plan: KeyPlan, catalog: Catalog, later: Catalog, run: RunId)
    requires PlanFitsCounts(plan)
    requires Grows(catalog, later) && run in catalog.commits && Fenced(plan, catalog, run)
    requires forall t :: 0 <= t < |later.tables| ==> GoodLog(plan, t, later.tables[t])
    ensures run in later.commits && Fenced(plan, later, run)
  {
    forall t | 0 <= t < TABLE_COUNT
      ensures RowCount(later.tables[t], run) == run.run.counts[t]
      ensures OwnedKeys(CurrentRows(later.tables[t]), run) == plan(run, t)
      ensures PinHolds(later.tables[t], run, run.run.counts[t], later.commits[run].snapshots[t])
    {
      CountStable(plan, t, catalog.tables[t], later.tables[t], run);
      PinStable(catalog.tables[t], later.tables[t], run, run.run.counts[t], catalog.commits[run].snapshots[t]);
    }
  }

  lemma WriterSurvivesGrowth(plan: KeyPlan, catalog: Catalog, later: Catalog, writer: Writer)
    requires Grows(catalog, later) && WriterConsistent(plan, catalog, writer)
    requires forall t :: 0 <= t < |later.tables| ==> GoodLog(plan, t, later.tables[t])
    ensures WriterConsistent(plan, later, writer)
  {
    var r := RunKey(writer.run);
    forall t | 0 <= t < TABLE_COUNT
      ensures RowCount(catalog.tables[t], r) <= RowCount(later.tables[t], r)
    {
      CountStable(plan, t, catalog.tables[t], later.tables[t], r);
    }
    if writer.phase.Pinning? {
      forall t | 0 <= t < |writer.phase.snapshots|
        ensures PinHolds(later.tables[t], r, writer.phase.counts[t], writer.phase.snapshots[t])
      {
        PinStable(catalog.tables[t], later.tables[t], r, writer.phase.counts[t], writer.phase.snapshots[t]);
      }
    }
  }

  lemma FoundSnapshotHolds(log: TableLog, run: RunId, expected: nat)
    requires FindOwnedSnapshot(log, run, expected).Ok?
    ensures PinHolds(log, run, expected, FindOwnedSnapshot(log, run, expected).value)
  {
  }

  /** Every step only grows the catalog and keeps each table's rows well formed. */
  lemma StepGrows(plan: KeyPlan, w: World, step: Step)
    requires Invariant(plan, w) && Enabled(plan, w, step)
    ensures Grows(w.catalog, Take(plan, w, step).catalog)
    ensures forall t :: 0 <= t < TABLE_COUNT ==> GoodLog(plan, t, Take(plan, w, step).catalog.tables[t])
  {
    if step.MergeTable? {
      var writer := w.writers[step.writer];
      var t := writer.phase.next;
      MergeKeepsGoodLog(plan, t, w.catalog.tables[t], writer.frames[t], RunKey(writer.run));
    }
  }

  lemma CountedIsConsistent(plan: KeyPlan, catalog: Catalog, writer: Writer)
    requires WriterConsistent(plan, catalog, writer)
    requires writer.phase == Staging(TABLE_COUNT) || (writer.phase.Counting? && |writer.phase.counts| < TABLE_COUNT)
    ensures var counts := if writer.phase.Staging? then [] else writer.phase.counts;
            WriterConsistent(plan, catalog,
              writer.(phase := Counting(counts + [RowCount(catalog.tables[|counts|], RunKey(writer.run))])))
  {
  }

  lemma PinnedIsConsistent(plan: KeyPlan, catalog: Catalog, writer: Writer)
    requires WriterConsistent(plan, catalog, writer)
    requires writer.phase.Pinning? && |writer.phase.snapshots| < TABLE_COUNT
    requires FindOwnedSnapshot(catalog.tables[|writer.phase.snapshots|], RunKey(writer.run),
                               writer.phase.counts[|writer.phase.snapshots|]).Ok?
    ensures var t := |writer.phase.snapshots|;
            var pin := FindOwnedSnapshot(catalog.tables[t], RunKey(writer.run), writer.phase.counts[t]).value;
            WriterConsistent(plan, catalog,
              writer.(phase := Pinning(writer.phase.counts, writer.phase.snapshots + [pin])))
  {
    var t := |writer.phase.snapshots|;
    FoundSnapshotHolds(catalog.tables[t], RunKey(writer.run), writer.phase.counts[t]);
  }

  lemma SubmittedIsConsistent(plan: KeyPlan, w: World, step: Step)
    requires Invariant(plan, w) && Enabled(plan, w, step)
    requires step.Submit? || step.PutManifest? || step.SkipTable? || step.CheckTable?
    ensures WriterConsistent(plan, Take(plan, w, step).catalog, Take(plan, w, step).writers[step.writer])
  {
    if !step.Submit? {
      assert WriterConsistent(plan, w.catalog, w.writers[step.writer]);
    }
  }

  /** The acting writer's own bookkeeping after its step. */
  lemma ActorConsistent(plan: KeyPlan, w: World, step: Step)
    requires Invariant(plan, w) && Enabled(plan, w, step)
    ensures var w' := Take(plan, w, step);
            step.writer in w'.writers ==> WriterConsistent(plan, w'.catalog, w'.writers[step.writer])
  {
    match step
    case Submit(_, _, _) => SubmittedIsConsistent(plan, w, step);
    case PutManifest(_) => SubmittedIsConsistent(plan, w, step);
    case SkipTable(_) => SubmittedIsConsistent(plan, w, step);
    case CheckTable(_) => SubmittedIsConsistent(plan, w, step);
    case MergeTable(id) =>
      StepGrows(plan, w, step);
      WriterSurvivesGrowth(plan, w.catalog, Take(plan, w, step).catalog, w.writers[id]);
    case CountTable(id) => CountedIsConsistent(plan, w.catalog, w.writers[id]);
    case CompareCounts(id) => assert WriterConsistent(plan, w.catalog, w.writers[id]);
    case PinTable(id) => PinnedIsConsistent(plan, w.catalog, w.writers[id]);
    case Publish(_, _) =>
    case Stop(_) =>
  }

  /** A marker is published only over complete tables. */
  lemma PublishIsFenced(plan: KeyPlan, w: World, step: Step)
    requires PlanFitsCounts(plan)
    requires Invariant(plan, w) && step.Publish? && Enabled(plan, w, step)
    ensures var r := RunKey(w.writers[step.writer].run);
            var catalog := Take(plan, w, step).catalog;
            r in catalog.commits && Fenced(plan, catalog, r)
  {
    var writer := w.writers[step.writer];
    var r := RunKey(writer.run);
    if r !in w.catalog.commits {
      forall t | 0 <= t < TABLE_COUNT
        ensures RowCount(w.catalog.tables[t], r) == r.run.counts[t]
        ensures OwnedKeys(CurrentRows(w.catalog.tables[t]), r) == plan(r, t)
      {
        if w.catalog.tables[t] == [] {
          assert OwnedKeys(CurrentRows(w.catalog.tables[t]), r) == {};
        }
        OwnedWithinPlan(plan, t, CurrentRows(w.catalog.tables[t]), r);
      }
    } else {
      assert Fenced(plan, w.catalog, r);
    }
  }

  lemma BystandersConsistent(plan: KeyPlan, w: World, step: Step)
    requires Invariant(plan, w) && Enabled(plan, w, step)
    ensures var w' := Take(plan, w, step);
            forall id :: id in w'.writers && id != step.writer ==> WriterConsistent(plan, w'.catalog, w'.writers[id])
  {
    hide WriterConsistent, GoodLog, Grows, CommitFence;
    StepGrows(plan, w, step);
    var w' := Take(plan, w, step);
    forall id | id in w'.writers && id != step.writer
      ensures WriterConsistent(plan, w'.catalog, w'.writers[id])
    {
      WriterSurvivesGrowth(plan, w.catalog, w'.catalog, w.writers[id]);
    }
  }

  lemma StepKeepsFence(plan: KeyPlan, w: World, step: Step)
    requires PlanFitsCounts(plan)
    requires Invariant(plan, w) && Enabled(plan, w, step)
    ensures CommitFence(plan, Take(plan, w, step).catalog)
  {
    hide WriterConsistent, GoodLog, Grows, Fenced;
    StepGrows(plan, w, step);
    var w' := Take(plan, w, step);
    forall run | run in w'.catalog.commits
      ensures Fenced(plan, w'.catalog, run)
    {
      if run in w.catalog.commits {
        FenceSurvivesGrowth(plan, w.catalog, w'.catalog, run);
      } else {
        PublishIsFenced(plan, w, step);
      }
    }
  }

  lemma StepKeepsManifests(plan: KeyPlan, w: World, step: Step)
    requires Invariant(plan, w) && Enabled(plan, w, step)
    ensures WellFormed(Take(plan, w, step)) && ManifestsMatch(Take(plan, w, step).catalog)
  {
    hide GoodLog, CommitFence, FindOwnedSnapshot, MergeInsertOnly, RowCount, ValidFrame;
  }

  lemma StepKeepsInvariant(plan: KeyPlan, w: World, step: Step)
    requires PlanFitsCounts(plan)
    requires Invariant(plan, w) && Enabled(plan, w, step)
    ensures Invariant(plan, Take(plan, w, step))
  {
    hide GoodLog, Grows, CommitFence, WriterConsistent, ValidSubmission, FindOwnedSnapshot, MergeInsertOnly, RowCount;
    StepGrows(plan, w, step);
    StepKeepsManifests(plan, w, step);
    ActorConsistent(plan, w, step);
    BystandersConsistent(plan, w, step);
    StepKeepsFence(plan, w, step);
  }

  // ---------------------------------------------------------------- whole schedules

  /** `steps` is a schedule that leads from `w` to `w'`. */
  ghost predicate Schedule(plan: KeyPlan, w: World, steps: seq<Step>, w': World)
    decreases |steps|
  {
    if steps == [] then w' == w
    else WellFormed(w) && Enabled(plan, w, steps[0]) && Schedule(plan, Take(plan, w, steps[0]), steps[1..], w')
  }

  lemma {:induction false} ScheduleThen(plan: KeyPlan, w: World, steps: seq<Step>, w': World, step: Step)
    requires Schedule(plan, w, steps, w') && WellFormed(w') && Enabled(plan, w', step)
    ensures Schedule(plan, w, steps + [step], Take(plan, w', step))
    decreases |steps|
  {
    if steps == [] {
      assert Schedule(plan, Take(plan, w', step), [], Take(plan, w', step));
    } else {
      assert (steps + [step])[1..] == steps[1..] + [step];
      ScheduleThen(plan, Take(plan, w, steps[0]), steps[1..], w', step);
    }
  }

  lemma GrowsTransitive(a: Catalog, b: Catalog, c: Catalog)
    requires Grows(a, b) && Grows(b, c)
    ensures Grows(a, c)
  {
    forall t | 0 <= t < |a.tables|
      ensures Extends(a.tables[t], c.tables[t])
    {
      assert c.tables[t][..|a.tables[t]|] == c.tables[t][..|b.tables[t]|][..|a.tables[t]|];
    }
  }

  lemma {:induction false} ScheduleKeepsInvariant(plan: KeyPlan, w: World, steps: seq<Step>, w': World)
    requires PlanFitsCounts(plan)
    requires Invariant(plan, w) && Schedule(plan, w, steps, w')
    ensures Invariant(plan, w') && Grows(w.catalog, w'.catalog)
    decreases |steps|
  {
    if steps == [] {
      forall t | 0 <= t < |w.catalog.tables|
        ensures Extends(w.catalog.tables[t], w'.catalog.tables[t])
      {
      }
    } else {
      var next := Take(plan, w, steps[0]);
      StepKeepsInvariant(plan, w, steps[0]);
      StepGrows(plan, w, steps[0]);
      ScheduleKeepsInvariant(plan, next, steps[1..], w');
      GrowsTransitive(w.catalog, next.catalog, w'.catalog);
    }
  }

  lemma EmptyWorldInvariant(plan: KeyPlan)
    ensures Invariant(plan, EMPTY_WORLD)
  {
  }

  /** Under every interleaving and every crash point, a marker implies its manifest
      and exactly its rows in every table; and it still does after any continuation. */
  lemma CommitFenceHoldsForever(plan: KeyPlan, steps: seq<Step>, w: World, more: seq<Step>, later: World, run: RunId)
    requires PlanFitsCounts(plan)
    requires Schedule(plan, EMPTY_WORLD, steps, w) && Schedule(plan, w, more, later)
    requires run in w.catalog.commits
    ensures Fenced(plan, w.catalog, run)
    ensures run in later.catalog.commits && later.catalog.commits[run] == w.catalog.commits[run]
    ensures Fenced(plan, later.catalog, run)
  {
    EmptyWorldInvariant(plan);
    ScheduleKeepsInvariant(plan, EMPTY_WORLD, steps, w);
    ScheduleKeepsInvariant(plan, w, more, later);
  }

  // ---------------------------------------------------------------- overlapping exact submitters

  /** Two tagged snapshots hold rows of one run: the second MERGE started before the first was visible. */
  ghost predicate Doubled(log: TableLog, run: RunId) {
    exists i, j :: 0 <= i < j < |log| && IsOwnedSnapshot(log[i], run) && IsOwnedSnapshot(log[j], run)
  }

  lemma DoubledIsRejected(log: TableLog, run: RunId)
    requires Doubled(log, run)
    ensures forall expected :: FindOwnedSnapshot(log, run, expected).Err?
  {
    var i, j :| 0 <= i < j < |log| && IsOwnedSnapshot(log[i], run) && IsOwnedSnapshot(log[j], run);
    var owned := OwnedSnapshots(log, run);
    hide IsOwnedSnapshot, OwnedSnapshots;
    assert i in owned && j in owned;
    assert |owned| > 1;
  }

  lemma DoubledStays(log: TableLog, later: TableLog, run: RunId)
    requires Doubled(log, run) && Extends(log, later)
    ensures Doubled(later, run)
  {
    var i, j :| 0 <= i < j < |log| && IsOwnedSnapshot(log[i], run) && IsOwnedSnapshot(log[j], run);
    assert later[i] == later[..|log|][i] && later[j] == later[..|log|][j];
  }

  /** The run is not committed and no writer of it has got past pinning table `t`. */
  ghost predicate Wedged(w: World, run: RunId, t: nat) {
    && t < TABLE_COUNT == |w.catalog.tables|
    && Doubled(w.catalog.tables[t], run)
    && run !in w.catalog.commits
    && forall id :: id in w.writers && RunKey(w.writers[id].run) == run && w.writers[id].phase.Pinning? ==>
                      |w.writers[id].phase.snapshots| <= t
  }

  lemma PinStopsBeforeDoubled(plan: KeyPlan, w: World, id: nat, run: RunId, t: nat)
    requires Wedged(w, run, t) && Enabled(plan, w, PinTable(id)) && RunKey(w.writers[id].run) == run
    ensures |w.writers[id].phase.snapshots| < t
  {
    DoubledIsRejected(w.catalog.tables[t], run);
  }

  lemma StepKeepsWedged(plan: KeyPlan, w: World, step: Step, run: RunId, t: nat)
    requires WellFormed(w) && Wedged(w, run, t) && Enabled(plan, w, step)
    requires Extends(w.catalog.tables[t], Take(plan, w, step).catalog.tables[t])
    ensures Wedged(Take(plan, w, step), run, t)
  {
    hide FindOwnedSnapshot, Doubled;
    DoubledStays(w.catalog.tables[t], Take(plan, w, step).catalog.tables[t], run);
    match step
    case PinTable(id) =>
      if RunKey(w.writers[id].run) == run {
        PinStopsBeforeDoubled(plan, w, id, run, t);
      }
    case Publish(id, _) => assert RunKey(w.writers[id].run) != run;
    case Submit(_, _, _) =>
    case PutManifest(_) =>
    case SkipTable(_) =>
    case CheckTable(_) =>
    case MergeTable(_) =>
    case CountTable(_) =>
    case CompareCounts(_) =>
    case Stop(_) =>
  }

  /** Once doubled, a run can never be committed, whatever is submitted and retried. */
  lemma {:induction false} WedgedRunNeverCommits(plan: KeyPlan, w: World, steps: seq<Step>, w': World, run: RunId,
                                                 t: nat)
    requires PlanFitsCounts(plan)
    requires Invariant(plan, w) && Wedged(w, run, t) && Schedule(plan, w, steps, w')
    ensures Wedged(w', run, t)
    decreases |steps|
  {
    if steps != [] {
      StepKeepsInvariant(plan, w, steps[0]);
      StepGrows(plan, w, steps[0]);
      StepKeepsWedged(plan, w, steps[0], run, t);
      WedgedRunNeverCommits(plan, Take(plan, w, steps[0]), steps[1..], w', run, t);
    }
  }
}
