/** Overlapping exact submitters: a run is wedged exactly by two of its MERGEs into one table, which takes two
    writers at that table at once; and two writers suffice. */
module WriterOverlap {
  import opened Prelude
  import opened SilverStore
  import opened SilverWriter
  import opened WriterProtocol
  import opened WriterRefinement

  // ---------------------------------------------------------------- traces

  /** The worlds that a schedule passes through. */
  ghost predicate Trace(plan: KeyPlan, worlds: seq<World>, steps: seq<Step>) {
    && |worlds| == |steps| + 1
    && forall n :: 0 <= n < |steps| ==> TakenAt(plan, worlds, steps, n)
  }

  ghost predicate TakenAt(plan: KeyPlan, worlds: seq<World>, steps: seq<Step>, n: nat)
    requires n < |steps| && |worlds| == |steps| + 1
  {
    WellFormed(worlds[n]) && Enabled(plan, worlds[n], steps[n]) && worlds[n + 1] == Take(plan, worlds[n], steps[n])
  }

  lemma {:induction false} ScheduleHasTrace(plan: KeyPlan, w: World, steps: seq<Step>, last: World)
    returns (worlds: seq<World>)
    requires Schedule(plan, w, steps, last)
    ensures Trace(plan, worlds, steps) && worlds[0] == w && worlds[|steps|] == last
    decreases |steps|
  {
    hide Enabled, Take, WellFormed;
    if steps == [] {
      worlds := [w];
    } else {
      var rest := ScheduleHasTrace(plan, Take(plan, w, steps[0]), steps[1..], last);
      worlds := [w] + rest;
      forall n | 0 <= n < |steps|
        ensures TakenAt(plan, worlds, steps, n)
      {
        assert n > 0 ==> TakenAt(plan, rest, steps[1..], n - 1);
      }
    }
  }

  // ---------------------------------------------------------------- when one MERGE wedges

  lemma TwoOwnedAreDoubled(log: TableLog, run: RunId)
    ensures Doubled(log, run) <==> |OwnedSnapshots(log, run)| >= 2
  {
    hide IsOwnedSnapshot, OwnedSnapshots;
    var owned := OwnedSnapshots(log, run);
    if Doubled(log, run) {
      var i, j :| 0 <= i < j < |log| && IsOwnedSnapshot(log[i], run) && IsOwnedSnapshot(log[j], run);
      assert i in owned && j in owned;
    }
    if |owned| >= 2 {
      assert owned[0] != owned[1];
      assert IsOwnedSnapshot(log[owned[0]], run) && IsOwnedSnapshot(log[owned[1]], run);
    }
  }

  lemma OwnedSnoc(log: TableLog, snapshot: Snapshot, run: RunId)
    ensures OwnedSnapshots(log + [snapshot], run)
         == OwnedSnapshots(log, run) + (if IsOwnedSnapshot(snapshot, run) then [|log|] else [])
  {
    hide IsOwnedSnapshot;
    assert (log + [snapshot])[..|log|] == log;
  }

  /** A MERGE of own rows doubles a table exactly if a snapshot of the run is there already. */
  lemma {:induction false} MergeDoublesIff(plan: KeyPlan, t: nat, log: TableLog, frame: Frame, run: RunId)
    requires GoodLog(plan, t, log) && frame != [] && forall row :: row in frame ==> row.owner == run
    ensures Doubled(MergeInsertOnly(t, log, frame, run), run) <==> OwnedSnapshots(log, run) != []
  {
    hide OwnedSnapshots;
    var merged := Snapshot(run, MergeRows(t, CurrentRows(log), frame));
    MergeRowsInserts(t, CurrentRows(log), frame);
    OwnedSnoc(log, merged, run);
    TwoOwnedAreDoubled(log + [merged], run);
    if OwnedSnapshots(log, run) != [] {
      var p := OwnedSnapshots(log, run)[0];
      assert SubMap(log[p].rows, log[|log| - 1].rows);
      var k :| k in OwnedKeys(log[p].rows, run);
      assert k in OwnedKeys(merged.rows, run);
    }
  }

  // ---------------------------------------------------------------- when a schedule wedges

  /** Step `n` is a MERGE of the run into table `t` that took effect: it left rows of the run under the run's tag. */
  ghost predicate Merges(worlds: seq<World>, steps: seq<Step>, n: nat, run: RunId, t: nat)
    requires n < |steps| && |worlds| == |steps| + 1
  {
    && steps[n].MergeTable? && steps[n].writer in worlds[n].writers
    && RunKey(worlds[n].writers[steps[n].writer].run) == run
    && worlds[n].writers[steps[n].writer].phase == Checked(t, 2)
    && t < |worlds[n].catalog.tables| <= |worlds[n + 1].catalog.tables|
    && |worlds[n + 1].catalog.tables[t]| > |worlds[n].catalog.tables[t]|
    && IsOwnedSnapshot(Last(worlds[n + 1].catalog.tables[t]), run)
  }

  ghost predicate LogKept(w: World, later: World, t: nat) {
    t < |w.catalog.tables| == |later.catalog.tables| && w.catalog.tables[t] == later.catalog.tables[t]
  }

  lemma OtherStepsKeepLogs(plan: KeyPlan, w: World, step: Step, t: nat)
    requires WellFormed(w) && Enabled(plan, w, step) && t < TABLE_COUNT
    requires step.MergeTable? ==> w.writers[step.writer].phase.next != t
    ensures LogKept(w, Take(plan, w, step), t)
  {
  }

  lemma MergeStepAppends(plan: KeyPlan, w: World, id: nat)
    requires WellFormed(w) && Enabled(plan, w, MergeTable(id))
    ensures var writer := w.writers[id];
            var t := writer.phase.next;
            var later := Take(plan, w, MergeTable(id));
            && |later.catalog.tables| == TABLE_COUNT
            && later.catalog.tables[t] == MergeInsertOnly(t, w.catalog.tables[t], writer.frames[t], RunKey(writer.run))
  {
  }

  /** Each step adds one owned snapshot to the table, or none, as it is a MERGE of the run that took effect or not. */
  lemma StepCountsMerge(plan: KeyPlan, worlds: seq<World>, steps: seq<Step>, n: nat, run: RunId, t: nat)
    requires Trace(plan, worlds, steps) && n < |steps| && t < TABLE_COUNT
    ensures |worlds[n].catalog.tables| == |worlds[n + 1].catalog.tables| == TABLE_COUNT
    ensures |OwnedSnapshots(worlds[n + 1].catalog.tables[t], run)|
         == |OwnedSnapshots(worlds[n].catalog.tables[t], run)| + (if Merges(worlds, steps, n, run, t) then 1 else 0)
  {
    hide OwnedSnapshots, IsOwnedSnapshot, Take, Enabled, WellFormed;
    assert TakenAt(plan, worlds, steps, n);
    var w, step := worlds[n], steps[n];
    TableCounts(plan, w, step);
    var log := w.catalog.tables[t];
    if step.MergeTable? && MergesAt(plan, w, step.writer, t) {
      MergeStepAppends(plan, w, step.writer);
      var writer := w.writers[step.writer];
      if writer.frames[t] != [] {
        var added := Snapshot(RunKey(writer.run), MergeRows(t, CurrentRows(log), writer.frames[t]));
        OwnedSnoc(log, added, run);
        TaggedOnly(added, run);
      }
    } else {
      OtherStepsKeepLogs(plan, w, step, t);
    }
  }

  lemma TaggedOnly(snapshot: Snapshot, run: RunId)
    ensures IsOwnedSnapshot(snapshot, run) ==> snapshot.tag == run
  {
  }

  ghost predicate MergesAt(plan: KeyPlan, w: World, id: nat, t: nat) {
    id in w.writers && w.writers[id].phase.Checked? && w.writers[id].phase.next == t
  }

  lemma TableCounts(plan: KeyPlan, w: World, step: Step)
    requires WellFormed(w) && Enabled(plan, w, step)
    ensures |w.catalog.tables| == |Take(plan, w, step).catalog.tables| == TABLE_COUNT
    ensures step.MergeTable? ==>
              && step.writer in w.writers && w.writers[step.writer].phase.Checked?
              && w.writers[step.writer].phase.rounds == 2
              && w.writers[step.writer].phase.next in w.writers[step.writer].frames
  {
  }

  /** Up to step `n` the table has as many owned snapshots as there were such MERGEs. */
  lemma {:induction false} MergesCounted(plan: KeyPlan, worlds: seq<World>, steps: seq<Step>, n: nat, run: RunId,
                                         t: nat)
    requires Trace(plan, worlds, steps) && n <= |steps| && t < TABLE_COUNT && worlds[0] == EMPTY_WORLD
    ensures |worlds[n].catalog.tables| == TABLE_COUNT
    ensures |OwnedSnapshots(worlds[n].catalog.tables[t], run)| >= 1 <==>
              exists j :: 0 <= j < n && Merges(worlds, steps, j, run, t)
    ensures |OwnedSnapshots(worlds[n].catalog.tables[t], run)| >= 2 <==>
              exists j, k :: 0 <= j < k < n && Merges(worlds, steps, j, run, t) && Merges(worlds, steps, k, run, t)
  {
    hide OwnedSnapshots, Merges, TakenAt;
    if n == 0 {
      NothingOwned(run);
    } else {
      MergesCounted(plan, worlds, steps, n - 1, run, t);
      StepCountsMerge(plan, worlds, steps, n - 1, run, t);
      if Merges(worlds, steps, n - 1, run, t) {
        if j :| 0 <= j < n - 1 && Merges(worlds, steps, j, run, t) {
          assert 0 <= j < n - 1 < n;
        }
      }
    }
  }

  lemma NothingOwned(run: RunId)
    ensures |OwnedSnapshots([], run)| == 0
  {
  }

  /** Over every schedule from an empty catalog: a run is wedged at a table if and only if two of its MERGEs into that
      table took effect. */
  lemma {:induction false} WedgedIffTwoMerges(plan: KeyPlan, steps: seq<Step>, w: World, run: RunId, t: nat)
    returns (worlds: seq<World>)
    requires Schedule(plan, EMPTY_WORLD, steps, w) && t < TABLE_COUNT
    ensures Trace(plan, worlds, steps) && worlds[0] == EMPTY_WORLD && worlds[|steps|] == w
            && |w.catalog.tables| == TABLE_COUNT
    ensures Doubled(w.catalog.tables[t], run) <==>
              exists j, k :: 0 <= j < k < |steps| && Merges(worlds, steps, j, run, t)
                  && Merges(worlds, steps, k, run, t)
  {
    hide Trace, Merges, Schedule;
    worlds := ScheduleHasTrace(plan, EMPTY_WORLD, steps, w);
    MergesCounted(plan, worlds, steps, |steps|, run, t);
    TwoOwnedAreDoubled(w.catalog.tables[t], run);
  }

  // ---------------------------------------------------------------- it takes an overlap

  /** The writer passed its last round of checks at step `i` and has not moved since. */
  ghost predicate WaitsSince(worlds: seq<World>, steps: seq<Step>, i: nat, n: nat, id: nat)
    requires i < n <= |steps| && |worlds| == |steps| + 1
  {
    && steps[i] == CheckTable(id) && id in worlds[n].writers
    && forall m :: i < m <= n ==> id in worlds[m].writers && worlds[m].writers[id] == worlds[n].writers[id]
                                  && (m < n ==> steps[m].writer != id)
  }

  lemma StepMovesActor(plan: KeyPlan, w: World, step: Step, id: nat, t: nat)
    requires WellFormed(w) && Enabled(plan, w, step)
    requires var later := Take(plan, w, step); id in later.writers && later.writers[id].phase == Checked(t, 2)
    ensures step.writer != id ==> id in w.writers && w.writers[id] == Take(plan, w, step).writers[id]
    ensures step.writer == id ==>
              && step == CheckTable(id) && t < |w.catalog.tables|
              && Unwritten(w.catalog.tables[t], RunKey(Take(plan, w, step).writers[id].run))
  {
    hide Unwritten, ValidSubmission;
  }

  /** A writer past its checks passed the last of them at some step, over a table without snapshots of its run. */
  lemma {:induction false} CheckedSince(plan: KeyPlan, worlds: seq<World>, steps: seq<Step>, n: nat, id: nat, t: nat)
    returns (i: nat)
    requires Trace(plan, worlds, steps) && worlds[0] == EMPTY_WORLD && n <= |steps|
    requires id in worlds[n].writers && worlds[n].writers[id].phase == Checked(t, 2)
    ensures i < n && WaitsSince(worlds, steps, i, n, id)
    ensures t < |worlds[i].catalog.tables|
            && OwnedSnapshots(worlds[i].catalog.tables[t], RunKey(worlds[n].writers[id].run)) == []
  {
    hide Take, Enabled, WellFormed, OwnedSnapshots;
    assert n > 0;
    assert TakenAt(plan, worlds, steps, n - 1);
    StepMovesActor(plan, worlds[n - 1], steps[n - 1], id, t);
    if steps[n - 1].writer == id {
      i := n - 1;
      UnwrittenHasNone(worlds[i].catalog.tables[t], RunKey(worlds[n].writers[id].run));
    } else {
      i := CheckedSince(plan, worlds, steps, n - 1, id, t);
    }
  }

  lemma UnwrittenHasNone(log: TableLog, run: RunId)
    requires Unwritten(log, run)
    ensures OwnedSnapshots(log, run) == []
  {
    hide OwnedSnapshots;
  }

  /** Of two MERGEs of a run into one table that took effect, the later writer passed its checks before the earlier
      MERGE and was another writer, waiting at that table. */
  lemma {:induction false} SecondMergeOverlaps(plan: KeyPlan, worlds: seq<World>, steps: seq<Step>, j: nat, k: nat,
                                               run: RunId, t: nat)
    returns (i: nat)
    requires Trace(plan, worlds, steps) && worlds[0] == EMPTY_WORLD && j < k < |steps| && t < TABLE_COUNT
    requires Merges(worlds, steps, j, run, t) && Merges(worlds, steps, k, run, t)
    ensures i < j && WaitsSince(worlds, steps, i, k, steps[k].writer)
    ensures steps[j].writer != steps[k].writer
    ensures steps[k].writer in worlds[j].writers && RunKey(worlds[j].writers[steps[k].writer].run) == run
  {
    hide Trace, OwnedSnapshots;
    i := CheckedSince(plan, worlds, steps, k, steps[k].writer, t);
    MergesCounted(plan, worlds, steps, i, run, t);
    assert !(j < i);
    assert i != j;
  }

  /** At no time do two writers of the run exist. */
  ghost predicate OneWriterAtATime(worlds: seq<World>, run: RunId) {
    forall n, a, b :: 0 <= n < |worlds| && a in worlds[n].writers && b in worlds[n].writers
                      && RunKey(worlds[n].writers[a].run) == run && RunKey(worlds[n].writers[b].run) == run
                      ==> a == b
  }

  /** Writers of a run that do not overlap never wedge it. */
  lemma {:induction false} SerialWritersNeverWedge(plan: KeyPlan, worlds: seq<World>, steps: seq<Step>, run: RunId,
                                                   t: nat)
    requires Trace(plan, worlds, steps) && worlds[0] == EMPTY_WORLD && t < TABLE_COUNT && OneWriterAtATime(worlds, run)
    ensures |worlds[|steps|].catalog.tables| == TABLE_COUNT && !Doubled(worlds[|steps|].catalog.tables[t], run)
  {
    hide TakenAt, OwnedSnapshots, WaitsSince;
    MergesCounted(plan, worlds, steps, |steps|, run, t);
    TwoOwnedAreDoubled(worlds[|steps|].catalog.tables[t], run);
    if Doubled(worlds[|steps|].catalog.tables[t], run) {
      var j, k :| 0 <= j < k < |steps| && Merges(worlds, steps, j, run, t) && Merges(worlds, steps, k, run, t);
      var i := SecondMergeOverlaps(plan, worlds, steps, j, k, run, t);
    }
  }

  // ---------------------------------------------------------------- two overlapping writers

  /** Two writers of one run pass both rounds of checks before either MERGE. */
  function OverlapSchedule(run: Run, frames: map<nat, Frame>): seq<Step> {
    [Submit(1, run, frames), Submit(2, run, frames), PutManifest(1), PutManifest(2)]
    + [CheckTable(1), CheckTable(1), CheckTable(2), CheckTable(2)] + [MergeTable(1), MergeTable(2)]
  }

  function Both(catalog: Catalog, run: Run, frames: map<nat, Frame>, first: Phase, second: Phase): World {
    World(catalog, map[1 := Writer(run, frames, first), 2 := Writer(run, frames, second)])
  }

  lemma BothSubmit(plan: KeyPlan, run: Run, frames: map<nat, Frame>)
    requires ValidSubmission(plan, run, frames)
    ensures Schedule(plan, EMPTY_WORLD, [Submit(1, run, frames), Submit(2, run, frames)],
                     Both(EMPTY_CATALOG, run, frames, Preparing, Preparing))
  {
    hide ValidSubmission, Schedule;
    var writer := Writer(run, frames, Preparing);
    var one := World(EMPTY_CATALOG, map[1 := writer]);
    ScheduleEmpty(plan, EMPTY_WORLD);
    assert EMPTY_WORLD.writers[1 := writer] == one.writers;
    ScheduleThen(plan, EMPTY_WORLD, [], EMPTY_WORLD, Submit(1, run, frames));
    HasCounts(plan, run, frames);
    WellFormedOne(run, frames);
    assert one.writers[2 := writer] == Both(EMPTY_CATALOG, run, frames, Preparing, Preparing).writers;
    ScheduleThen(plan, EMPTY_WORLD, [] + [Submit(1, run, frames)], one, Submit(2, run, frames));
    assert [] + [Submit(1, run, frames)] + [Submit(2, run, frames)] == [Submit(1, run, frames), Submit(2, run, frames)];
  }

  lemma WellFormedOne(run: Run, frames: map<nat, Frame>)
    requires |run.counts| == TABLE_COUNT
    ensures WellFormed(World(EMPTY_CATALOG, map[1 := Writer(run, frames, Preparing)]))
  {
  }

  lemma PutStep(plan: KeyPlan, catalog: Catalog, run: Run, frames: map<nat, Frame>, second: bool)
    requires |catalog.tables| == |run.counts| == TABLE_COUNT
    ensures var declared :=
        catalog.(runs := if RunKey(run) in catalog.runs then catalog.runs else catalog.runs[RunKey(run) := run]);
            var w := Both(catalog, run, frames, if second then Staging(0) else Preparing, Preparing);
            var step := PutManifest(if second then 2 else 1);
            && WellFormed(w) && Enabled(plan, w, step)
            && Take(plan, w, step) == Both(declared, run, frames, Staging(0), if second then Staging(0) else Preparing)
  {
    if second {
      assert map[1 := Writer(run, frames, Staging(0)),
                 2 := Writer(run, frames, Preparing)][2 := Writer(run, frames, Staging(0))]
          == map[1 := Writer(run, frames, Staging(0)), 2 := Writer(run, frames, Staging(0))];
    } else {
      assert map[1 := Writer(run, frames, Preparing),
                 2 := Writer(run, frames, Preparing)][1 := Writer(run, frames, Staging(0))]
          == map[1 := Writer(run, frames, Staging(0)), 2 := Writer(run, frames, Preparing)];
    }
  }

  function Round(rounds: nat): Phase { if rounds == 0 then Staging(SOURCE_RECORD) else Checked(SOURCE_RECORD, rounds) }

  lemma CheckStep(plan: KeyPlan, catalog: Catalog, run: Run, frames: map<nat, Frame>, a: nat, b: nat, id: nat)
    requires |catalog.tables| == |run.counts| == TABLE_COUNT && catalog.tables[SOURCE_RECORD] == []
    requires (id == 1 && a < 2) || (id == 2 && b < 2)
    ensures var w := Both(catalog, run, frames, Round(a), Round(b));
            && WellFormed(w) && Enabled(plan, w, CheckTable(id))
            && Take(plan, w, CheckTable(id))
               == (if id == 1 then Both(catalog, run, frames, Round(a + 1), Round(b))
                   else Both(catalog, run, frames, Round(a), Round(b + 1)))
  {
    var w := Both(catalog, run, frames, Round(a), Round(b));
    NothingOwned(RunKey(run));
    assert OwnedKeys(map[], RunKey(run)) == {};
    assert Unwritten([], RunKey(run));
    assert w.writers[id := w.writers[id].(phase := Round((if id == 1 then a else b) + 1))]
        == (if id == 1 then Both(catalog, run, frames, Round(a + 1), Round(b))
            else Both(catalog, run, frames, Round(a), Round(b + 1))).writers;
  }

  lemma MergeStep(plan: KeyPlan, catalog: Catalog, run: Run, frames: map<nat, Frame>, id: nat)
    requires |catalog.tables| == |run.counts| == TABLE_COUNT && SOURCE_RECORD in frames && (id == 1 || id == 2)
    ensures var log :=
        MergeInsertOnly(SOURCE_RECORD, catalog.tables[SOURCE_RECORD], frames[SOURCE_RECORD], RunKey(run));
            var after := catalog.(tables := catalog.tables[SOURCE_RECORD := log]);
            var w := Both(catalog, run, frames, if id == 1 then Round(2) else Staging(1), Round(2));
            && WellFormed(w) && Enabled(plan, w, MergeTable(id))
            && Take(plan, w, MergeTable(id))
                == Both(after, run, frames, Staging(1), if id == 1 then Round(2) else Staging(1))
  {
    var w := Both(catalog, run, frames, if id == 1 then Round(2) else Staging(1), Round(2));
    assert w.writers[id := w.writers[id].(phase := Staging(1))]
        == Both(catalog, run, frames, Staging(1), if id == 1 then Round(2) else Staging(1)).writers;
  }

  lemma BothReachTable(plan: KeyPlan, run: Run, frames: map<nat, Frame>)
    requires ValidSubmission(plan, run, frames)
    ensures var declared := EMPTY_CATALOG.(runs := map[RunKey(run) := run]);
            Schedule(plan, EMPTY_WORLD, OverlapSchedule(run, frames)[..4],
                     Both(declared, run, frames, Staging(0), Staging(0)))
  {
    hide ValidSubmission, Schedule, Take, Enabled, WellFormed;
    var steps := OverlapSchedule(run, frames);
    var declared := EMPTY_CATALOG.(runs := map[RunKey(run) := run]);
    assert EMPTY_CATALOG.runs[RunKey(run) := run] == declared.runs;
    HasCounts(plan, run, frames);
    BothSubmit(plan, run, frames);
    PutStep(plan, EMPTY_CATALOG, run, frames, false);
    PutStep(plan, declared, run, frames, true);
    var first := [Submit(1, run, frames), Submit(2, run, frames)];
    ScheduleThen(plan, EMPTY_WORLD, first, Both(EMPTY_CATALOG, run, frames, Preparing, Preparing), PutManifest(1));
    ScheduleThen(plan, EMPTY_WORLD, first + [PutManifest(1)], Both(declared, run, frames, Staging(0), Preparing),
                 PutManifest(2));
    assert steps[..4] == first + [PutManifest(1)] + [PutManifest(2)];
  }

  lemma HasCounts(plan: KeyPlan, run: Run, frames: map<nat, Frame>)
    requires ValidSubmission(plan, run, frames)
    ensures |run.counts| == TABLE_COUNT
    ensures forall t :: t in frames ==> |frames[t]| == run.counts[t] && forall row :: row in frames[t] ==>
              row.owner == RunKey(run)
  {
  }

  lemma BothPassChecks(plan: KeyPlan, run: Run, frames: map<nat, Frame>)
    requires ValidSubmission(plan, run, frames)
    ensures var declared := EMPTY_CATALOG.(runs := map[RunKey(run) := run]);
            Schedule(plan, EMPTY_WORLD, OverlapSchedule(run, frames)[..8],
                     Both(declared, run, frames, Round(2), Round(2)))
  {
    hide ValidSubmission, Schedule, Take, Enabled, WellFormed;
    var steps := OverlapSchedule(run, frames);
    var declared := EMPTY_CATALOG.(runs := map[RunKey(run) := run]);
    HasCounts(plan, run, frames);
    BothReachTable(plan, run, frames);
    CheckStep(plan, declared, run, frames, 0, 0, 1);
    CheckStep(plan, declared, run, frames, 1, 0, 1);
    CheckStep(plan, declared, run, frames, 2, 0, 2);
    CheckStep(plan, declared, run, frames, 2, 1, 2);
    var put := steps[..4];
    ScheduleThen(plan, EMPTY_WORLD, put, Both(declared, run, frames, Round(0), Round(0)), CheckTable(1));
    ScheduleThen(plan, EMPTY_WORLD, put + [CheckTable(1)], Both(declared, run, frames, Round(1), Round(0)),
                 CheckTable(1));
    var half := put + [CheckTable(1)] + [CheckTable(1)];
    ScheduleThen(plan, EMPTY_WORLD, half, Both(declared, run, frames, Round(2), Round(0)), CheckTable(2));
    ScheduleThen(plan, EMPTY_WORLD, half + [CheckTable(2)], Both(declared, run, frames, Round(2), Round(1)),
                 CheckTable(2));
    assert steps[..8] == half + [CheckTable(2)] + [CheckTable(2)];
  }

  lemma TwoMergesDouble(t: nat, frame: Frame, run: RunId)
    requires frame != [] && forall row :: row in frame ==> row.owner == run
    ensures Doubled(MergeInsertOnly(t, MergeInsertOnly(t, [], frame, run), frame, run), run)
  {
    var once := MergeRows(t, map[], frame);
    var twice := MergeRows(t, once, frame);
    MergeRowsInserts(t, map[], frame);
    MergeRowsInserts(t, once, frame);
    var key := KeyOf(t, frame[0]);
    assert key in FrameKeys(t, frame);
    assert key in OwnedKeys(once, run) && key in OwnedKeys(twice, run);
    var log := MergeInsertOnly(t, MergeInsertOnly(t, [], frame, run), frame, run);
    assert log == [Snapshot(run, once), Snapshot(run, twice)];
    assert IsOwnedSnapshot(log[0], run) && IsOwnedSnapshot(log[1], run);
  }

  lemma EmptyIsIncomplete(run: RunId, expected: nat)
    ensures VerifyCompleted([], run, expected) == Ok(false)
  {
    assert OwnedKeys(map[], run) == {};
  }

  /** A submission with source records that the code lets through on an empty catalog brings its frame for them. */
  lemma SourceFramePresent(plan: KeyPlan, generation: Option<nat>, sub: Submission)
    requires Resolve(generation, EMPTY_CATALOG, sub).Go? && Obeys(plan, generation, EMPTY_CATALOG, sub)
    requires sub.run.counts != [] && sub.run.counts[SOURCE_RECORD] > 0
    ensures var go := Resolve(generation, EMPTY_CATALOG, sub);
            && go.run == sub.run && go.frames[SOURCE_RECORD].Some? && ValidSubmission(plan, go.run, FrameMap(go.frames))
  {
    hide CheckRun, CheckKeys, ValidFrame, FrameKeys, StripIdentityKeys, FindOwnedSnapshot, PrepareFrom, VerifyCompleted;
    var go := Resolve(generation, EMPTY_CATALOG, sub);
    ResolvedFramesValid(generation, EMPTY_CATALOG, sub);
    PreparedLength(EMPTY_CATALOG.tables, sub, 0, true);
    EmptyIsIncomplete(RunKey(sub.run), sub.run.counts[SOURCE_RECORD]);
    assert PrepareTable(EMPTY_CATALOG.tables[SOURCE_RECORD], sub, SOURCE_RECORD, true)
           == Ok(go.frames[SOURCE_RECORD - 0]);
  }

  /** Any submission with source records that the code lets through can wedge its run on an empty catalog: two exact
      submitters, each past its checks before the other's MERGE. */
  lemma {:induction false} OverlapCanWedge(plan: KeyPlan, generation: Option<nat>, sub: Submission) returns (w: World)
    requires Resolve(generation, EMPTY_CATALOG, sub).Go? && Obeys(plan, generation, EMPTY_CATALOG, sub)
    requires sub.run.counts != [] && sub.run.counts[SOURCE_RECORD] > 0
    ensures Schedule(plan, EMPTY_WORLD,
                     OverlapSchedule(sub.run, FrameMap(Resolve(generation, EMPTY_CATALOG, sub).frames)), w)
    ensures Wedged(w, RunKey(sub.run), SOURCE_RECORD)
  {
    hide Resolve, ValidSubmission, Schedule, Take, Enabled, WellFormed, MergeInsertOnly, Doubled, Obeys;
    SourceFramePresent(plan, generation, sub);
    var run, frames := sub.run, FrameMap(Resolve(generation, EMPTY_CATALOG, sub).frames);
    var steps := OverlapSchedule(run, frames);
    var declared := EMPTY_CATALOG.(runs := map[RunKey(run) := run]);
    var r, frame := RunKey(run), frames[SOURCE_RECORD];
    HasCounts(plan, run, frames);
    BothPassChecks(plan, run, frames);
    MergeStep(plan, declared, run, frames, 1);
    var once := declared.(tables := declared.tables[SOURCE_RECORD := MergeInsertOnly(SOURCE_RECORD, [], frame, r)]);
    MergeStep(plan, once, run, frames, 2);
    var twice := once.(tables := once.tables[SOURCE_RECORD := MergeInsertOnly(SOURCE_RECORD, once.tables[SOURCE_RECORD],
                                                                              frame, r)]);
    w := Both(twice, run, frames, Staging(1), Staging(1));
    ScheduleThen(plan, EMPTY_WORLD, steps[..8], Both(declared, run, frames, Round(2), Round(2)), MergeTable(1));
    ScheduleThen(plan, EMPTY_WORLD, steps[..8] + [MergeTable(1)], Both(once, run, frames, Staging(1), Round(2)),
                 MergeTable(2));
    assert steps == steps[..8] + [MergeTable(1)] + [MergeTable(2)];
    TwoMergesDouble(SOURCE_RECORD, frame, r);
  }
}
