/** Each call of `stage_and_commit` is a schedule of the interleaved protocol, so
    whatever holds over all schedules holds over all calls. */
module WriterRefinement {
  import opened Prelude
  import opened SilverStore
  import opened SilverWriter
  import opened WriterProtocol

  /** The run's rows carry the keys its plan assigns, before and after an incremental strip. */
  ghost predicate Obeys(plan: KeyPlan, generation: Option<nat>, catalog: Catalog, sub: Submission)
    requires |catalog.tables| == TABLE_COUNT
  {
    && CarriesPlan(plan, sub)
    && var resolution := Resolve(generation, catalog, sub);
       resolution.Go? ==>
         forall t :: 0 <= t < TABLE_COUNT && resolution.frames[t].Some? ==>
                       FrameKeys(t, resolution.frames[t].value) == plan(RunKey(resolution.run), t)
  }

  ghost predicate CatalogInvariant(plan: KeyPlan, catalog: Catalog) {
    Invariant(plan, World(catalog, map[]))
  }

  // ---------------------------------------------------------------- resolved frames are valid

  ghost predicate FramesValid(run: Run, frames: seq<Option<Frame>>) {
    && |run.counts| == |frames| == TABLE_COUNT
    && forall t :: 0 <= t < TABLE_COUNT && frames[t].Some? ==>
                     ValidFrame(t, RunKey(run), run.counts[t], frames[t].value)
  }

  /** A frame without duplicate keys has none in its tail either. */
  lemma TailKeys(t: nat, frame: Frame)
    requires frame != [] && |FrameKeys(t, frame)| == |frame|
    ensures KeyOf(t, frame[0]) !in FrameKeys(t, frame[1..])
    ensures |FrameKeys(t, frame[1..])| == |frame[1..]|
  {
    FewerKeysThanRows(t, frame[1..]);
    assert FrameKeys(t, frame) == {KeyOf(t, frame[0])} + FrameKeys(t, frame[1..]);
  }

  lemma {:induction false} FewerKeysThanRows(t: nat, frame: Frame)
    ensures |FrameKeys(t, frame)| <= |frame|
    decreases |frame|
  {
    if frame != [] {
      FewerKeysThanRows(t, frame[1..]);
      assert FrameKeys(t, frame) == {KeyOf(t, frame[0])} + FrameKeys(t, frame[1..]);
    }
  }

  /** The strip keeps exactly the rows whose keys are not reusable. */
  lemma {:induction false} DropKeysKeys(t: nat, frame: Frame, keys: set<MergeKey>)
    ensures FrameKeys(t, DropKeys(t, frame, keys)) == FrameKeys(t, frame) - keys
    ensures forall row :: row in DropKeys(t, frame, keys) ==> row in frame
    ensures |DropKeys(t, frame, keys)| <= |frame|
    decreases |frame|
  {
    if frame != [] {
      var rest := DropKeys(t, frame[1..], keys);
      DropKeysKeys(t, frame[1..], keys);
      assert FrameKeys(t, frame) == {KeyOf(t, frame[0])} + FrameKeys(t, frame[1..]);
      if KeyOf(t, frame[0]) !in keys {
        assert FrameKeys(t, [frame[0]] + rest) == {KeyOf(t, frame[0])} + FrameKeys(t, rest);
      } else {
        assert [] + rest == rest;
      }
    }
  }

  lemma {:induction false} DropKeysDistinct(t: nat, frame: Frame, keys: set<MergeKey>)
    requires |FrameKeys(t, frame)| == |frame|
    ensures |FrameKeys(t, DropKeys(t, frame, keys))| == |DropKeys(t, frame, keys)|
    decreases |frame|
  {
    if frame != [] {
      TailKeys(t, frame);
      DropKeysDistinct(t, frame[1..], keys);
      var rest := DropKeys(t, frame[1..], keys);
      DropKeysKeys(t, frame[1..], keys);
      if KeyOf(t, frame[0]) !in keys {
        assert FrameKeys(t, [frame[0]] + rest) == {KeyOf(t, frame[0])} + FrameKeys(t, rest);
      } else {
        assert [] + rest == rest;
      }
    }
  }

  /** The count changes exactly when some incoming key is reusable. */
  lemma {:induction false} DropKeysCount(t: nat, frame: Frame, keys: set<MergeKey>)
    ensures keys * FrameKeys(t, frame) == {} ==> DropKeys(t, frame, keys) == frame
    ensures keys * FrameKeys(t, frame) != {} ==> |DropKeys(t, frame, keys)| < |frame|
    decreases |frame|
  {
    if frame != [] {
      DropKeysCount(t, frame[1..], keys);
      DropKeysKeys(t, frame[1..], keys);
      assert FrameKeys(t, frame) == {KeyOf(t, frame[0])} + FrameKeys(t, frame[1..]);
      if KeyOf(t, frame[0]) !in keys {
        assert keys * FrameKeys(t, frame) == keys * FrameKeys(t, frame[1..]);
        assert frame == [frame[0]] + frame[1..];
      } else {
        assert KeyOf(t, frame[0]) in keys * FrameKeys(t, frame);
      }
    }
  }

  /** Changing the owner does not touch the keys of an Identity table. */
  lemma ReownedKeys(t: nat, frame: Frame, owner: RunId)
    requires t != SOURCE_RECORD
    ensures FrameKeys(t, Reowned(frame, owner)) == FrameKeys(t, frame)
  {
    var reowned := Reowned(frame, owner);
    forall k
      ensures k in FrameKeys(t, reowned) <==> k in FrameKeys(t, frame)
    {
      if k in FrameKeys(t, frame) {
        var i :| 0 <= i < |frame| && k == KeyOf(t, frame[i]);
        assert reowned[i] in reowned && KeyOf(t, reowned[i]) == k;
      }
      if k in FrameKeys(t, reowned) {
        var i :| 0 <= i < |reowned| && k == KeyOf(t, reowned[i]);
        assert frame[i] in frame && KeyOf(t, frame[i]) == k;
      }
    }
  }

  lemma PreparedFramesValid(tables: seq<TableLog>, sub: Submission, allowReuse: bool)
    requires |tables| == |sub.run.counts| == TABLE_COUNT
    requires PrepareFrom(tables, sub, 0, allowReuse).Ok?
    ensures FramesValid(sub.run, PrepareFrom(tables, sub, 0, allowReuse).value)
  {
    PreparedLength(tables, sub, 0, allowReuse);
    var frames := PrepareFrom(tables, sub, 0, allowReuse).value;
    forall t | 0 <= t < TABLE_COUNT && frames[t].Some?
      ensures ValidFrame(t, RunKey(sub.run), sub.run.counts[t], frames[t].value)
    {
      assert PrepareTable(tables[t], sub, t, allowReuse) == Ok(frames[t - 0]);
    }
  }

  lemma StrippedFramesValid(tables: seq<TableLog>, run: Run, frames: seq<Option<Frame>>, pinned: set<RunId>)
    requires |tables| == TABLE_COUNT && FramesValid(run, frames)
    requires forall t :: 0 <= t < SOURCE_TABLE_COUNT ==> run.counts[t] == 0
    ensures var s := StripIdentityKeys(tables, run, frames, pinned); FramesValid(s.run, s.frames)
  {
    var s := StripIdentityKeys(tables, run, frames, pinned);
    if s.run != run {
      forall t | 0 <= t < TABLE_COUNT && s.frames[t].Some?
        ensures ValidFrame(t, RunKey(s.run), s.run.counts[t], s.frames[t].value)
      {
        var frame := frames[t].value;
        var kept := StrippedFrame(tables[t], run, t, frames[t], pinned).value;
        if IsIdentityTable(t) {
          DropKeysKeys(t, frame, ReusableKeys(CurrentRows(tables[t]), t, frame, pinned));
          DropKeysDistinct(t, frame, ReusableKeys(CurrentRows(tables[t]), t, frame, pinned));
          ReownedKeys(t, kept, RunKey(s.run));
          assert s.frames[t].value == Reowned(kept, RunKey(s.run));
          forall row | row in s.frames[t].value
            ensures row.owner == RunKey(s.run)
          {
            var i :| 0 <= i < |kept| && row == kept[i].(owner := RunKey(s.run));
          }
        } else {
          assert frame == [] && s.frames[t].value == [];
        }
      }
    }
  }

  lemma ResolvedFramesValid(generation: Option<nat>, catalog: Catalog, sub: Submission)
    requires |catalog.tables| == TABLE_COUNT && Resolve(generation, catalog, sub).Go?
    ensures var go := Resolve(generation, catalog, sub); FramesValid(go.run, go.frames)
  {
    PreparedFramesValid(catalog.tables, sub, generation.None?);
    if sub.mode == Some(Incremental) {
      StrippedFramesValid(catalog.tables, sub.run, PrepareFrom(catalog.tables, sub, 0, generation.None?).value,
                          sub.pinned.value);
    }
  }

  // ---------------------------------------------------------------- one writer alone

  function FrameMap(frames: seq<Option<Frame>>): map<nat, Frame> {
    map t: nat | t < |frames| && frames[t].Some? :: frames[t].value
  }

  function Alone(catalog: Catalog, run: Run, frames: seq<Option<Frame>>, phase: Phase): World {
    World(catalog, map[0 := Writer(run, FrameMap(frames), phase)])
  }

  ghost predicate Ready(plan: KeyPlan, catalog: Catalog, run: Run, frames: seq<Option<Frame>>) {
    && |catalog.tables| == |run.counts| == |frames| == TABLE_COUNT
    && ValidSubmission(plan, run, FrameMap(frames))
  }

  /** What `StageTable` does to a log is either nothing or, past its checks, the MERGE of the table's frame. */
  lemma StageTableMerges(t: nat, log: TableLog, run: RunId, expected: nat, frame: Option<Frame>, fate: Fate)
    ensures var after := StageTable(t, log, run, expected, frame, fate).0;
            after == log || (frame.Some? && after == MergeInsertOnly(t, log, frame.value, run) && Unwritten(log, run))
  {
    hide MergeInsertOnly, FindOwnedSnapshot, RowCount;
  }

  lemma SkipTaken(plan: KeyPlan, catalog: Catalog, run: Run, frames: seq<Option<Frame>>, t: nat)
    requires Ready(plan, catalog, run, frames) && t < TABLE_COUNT
    ensures var w := Alone(catalog, run, frames, Staging(t));
            && WellFormed(w) && Enabled(plan, w, SkipTable(0))
            && Take(plan, w, SkipTable(0)) == Alone(catalog, run, frames, Staging(t + 1))
  {
  }

  /** One round of checks that finds the table unwritten. */
  lemma CheckTaken(plan: KeyPlan, catalog: Catalog, run: Run, frames: seq<Option<Frame>>, t: nat, phase: Phase)
    requires Ready(plan, catalog, run, frames) && t < TABLE_COUNT && Unwritten(catalog.tables[t], RunKey(run))
    requires phase == Staging(t) || phase == Checked(t, 1)
    ensures var w := Alone(catalog, run, frames, phase);
            && WellFormed(w) && Enabled(plan, w, CheckTable(0))
            && Take(plan, w, CheckTable(0)) == Alone(catalog, run, frames, Checked(t, RoundsPassed(phase) + 1))
  {
    hide ValidSubmission, Unwritten;
  }

  lemma MergeTaken(plan: KeyPlan, catalog: Catalog, run: Run, frames: seq<Option<Frame>>, t: nat)
    requires Ready(plan, catalog, run, frames) && t < TABLE_COUNT && frames[t].Some?
    ensures var log := MergeInsertOnly(t, catalog.tables[t], frames[t].value, RunKey(run));
            var w := Alone(catalog, run, frames, Checked(t, 2));
            && WellFormed(w) && Enabled(plan, w, MergeTable(0))
            && Take(plan, w, MergeTable(0))
                == Alone(catalog.(tables := catalog.tables[t := log]), run, frames, Staging(t + 1))
  {
    hide ValidSubmission;
    assert FrameMap(frames)[t] == frames[t].value;
  }

  /** One table: skipped, or checked twice and merged. */
  lemma StageStepsTaken(plan: KeyPlan, catalog: Catalog, run: Run, frames: seq<Option<Frame>>, t: nat, log: TableLog)
    returns (steps: seq<Step>)
    requires Ready(plan, catalog, run, frames) && t < TABLE_COUNT
    requires log == catalog.tables[t]
             || (&& frames[t].Some? && log == MergeInsertOnly(t, catalog.tables[t], frames[t].value, RunKey(run))
                 && Unwritten(catalog.tables[t], RunKey(run)))
    ensures Schedule(plan, Alone(catalog, run, frames, Staging(t)), steps,
                     Alone(catalog.(tables := catalog.tables[t := log]), run, frames, Staging(t + 1)))
  {
    hide Enabled, Take, WellFormed, ValidSubmission, Schedule;
    var w := Alone(catalog, run, frames, Staging(t));
    ScheduleEmpty(plan, w);
    if log == catalog.tables[t] {
      assert catalog.tables[t := log] == catalog.tables;
      SkipTaken(plan, catalog, run, frames, t);
      ScheduleThen(plan, w, [], w, SkipTable(0));
      steps := [] + [SkipTable(0)];
    } else {
      CheckTaken(plan, catalog, run, frames, t, Staging(t));
      CheckTaken(plan, catalog, run, frames, t, Checked(t, 1));
      MergeTaken(plan, catalog, run, frames, t);
      ScheduleThen(plan, w, [], w, CheckTable(0));
      ScheduleThen(plan, w, [] + [CheckTable(0)], Alone(catalog, run, frames, Checked(t, 1)), CheckTable(0));
      ScheduleThen(plan, w, [] + [CheckTable(0)] + [CheckTable(0)], Alone(catalog, run, frames, Checked(t, 2)),
                   MergeTable(0));
      steps := [] + [CheckTable(0)] + [CheckTable(0)] + [MergeTable(0)];
    }
  }

  lemma ScheduleEmpty(plan: KeyPlan, w: World)
    ensures Schedule(plan, w, [], w)
  {
  }

  lemma {:induction false} ScheduleJoin(plan: KeyPlan, w: World, first: seq<Step>, mid: World, second: seq<Step>,
                                        last: World)
    requires Schedule(plan, w, first, mid) && Schedule(plan, mid, second, last)
    ensures Schedule(plan, w, first + second, last)
    decreases |first|
  {
    if first == [] {
      assert first + second == second;
    } else {
      assert (first + second)[1..] == first[1..] + second;
      ScheduleJoin(plan, Take(plan, w, first[0]), first[1..], mid, second, last);
    }
  }

  lemma ScheduleFirst(plan: KeyPlan, w: World, step: Step, rest: seq<Step>, last: World)
    requires WellFormed(w) && Enabled(plan, w, step) && Schedule(plan, Take(plan, w, step), rest, last)
    ensures Schedule(plan, w, [step] + rest, last)
  {
    assert ([step] + rest)[1..] == rest;
  }

  /** The staging loop, one Skip, or two checks and a Merge, per table. */
  lemma {:induction false} StagingIsSchedule(
      plan: KeyPlan, catalog: Catalog, run: Run, frames: seq<Option<Frame>>, script: Script, t: nat)
    returns (steps: seq<Step>, next: nat)
    requires Ready(plan, catalog, run, frames) && t <= TABLE_COUNT
    ensures var (tables, progress) := StageFrom(catalog.tables, run, frames, script, t);
            && |tables| == TABLE_COUNT && next <= TABLE_COUNT && (progress == Done ==> next == TABLE_COUNT)
            && Schedule(plan, Alone(catalog, run, frames, Staging(t)), steps,
                        Alone(catalog.(tables := tables), run, frames, Staging(next)))
    decreases TABLE_COUNT - t
  {
    StageFromLength(catalog.tables, run, frames, script, t);
    if t == TABLE_COUNT {
      steps, next := [], t;
    } else {
      var (log, progress) := StageTable(t, catalog.tables[t], RunKey(run), run.counts[t], frames[t], script.tables(t));
      StageTableMerges(t, catalog.tables[t], RunKey(run), run.counts[t], frames[t], script.tables(t));
      var here := StageStepsTaken(plan, catalog, run, frames, t, log);
      var after := catalog.(tables := catalog.tables[t := log]);
      var rest := [];
      next := t + 1;
      if progress == Done {
        rest, next := StagingIsSchedule(plan, after, run, frames, script, t + 1);
      } else {
        ScheduleEmpty(plan, Alone(after, run, frames, Staging(next)));
      }
      ScheduleJoin(plan, Alone(catalog, run, frames, Staging(t)), here, Alone(after, run, frames, Staging(t + 1)), rest,
                   Alone(catalog.(tables := StageFrom(catalog.tables, run, frames, script, t).0), run, frames,
                         Staging(next)));
      steps := here + rest;
    }
  }

  lemma CountStepTaken(plan: KeyPlan, catalog: Catalog, run: Run, frames: seq<Option<Frame>>, n: nat)
    requires Ready(plan, catalog, run, frames) && n < TABLE_COUNT
    ensures var all := RowCounts(catalog.tables, RunKey(run));
            var w := Alone(catalog, run, frames, if n == 0 then Staging(TABLE_COUNT) else Counting(all[..n]));
            && WellFormed(w) && Enabled(plan, w, CountTable(0))
            && Take(plan, w, CountTable(0)) == Alone(catalog, run, frames, Counting(all[..n + 1]))
  {
    hide RowCount, ValidSubmission;
    var all := RowCounts(catalog.tables, RunKey(run));
    assert all[..n] + [all[n]] == all[..n + 1];
  }

  /** Count every table, in order. */
  lemma {:induction false} CountingIsSchedule(plan: KeyPlan, catalog: Catalog, run: Run, frames: seq<Option<Frame>>,
                                              n: nat)
    returns (steps: seq<Step>)
    requires Ready(plan, catalog, run, frames) && 0 < n <= TABLE_COUNT
    ensures Schedule(plan, Alone(catalog, run, frames, Staging(TABLE_COUNT)), steps,
                     Alone(catalog, run, frames, Counting(RowCounts(catalog.tables, RunKey(run))[..n])))
  {
    hide RowCount, ValidSubmission, Take, Enabled, WellFormed, Schedule;
    var start := Alone(catalog, run, frames, Staging(TABLE_COUNT));
    var all := RowCounts(catalog.tables, RunKey(run));
    var before, w := [], start;
    if n > 1 {
      before := CountingIsSchedule(plan, catalog, run, frames, n - 1);
      w := Alone(catalog, run, frames, Counting(all[..n - 1]));
    }
    CountStepTaken(plan, catalog, run, frames, n - 1);
    ScheduleThen(plan, start, before, w, CountTable(0));
    steps := before + [CountTable(0)];
  }

  lemma PinStepTaken(plan: KeyPlan, catalog: Catalog, run: Run, frames: seq<Option<Frame>>, counts: seq<nat>,
                     pinned: seq<Option<nat>>)
    requires Ready(plan, catalog, run, frames)
    requires |counts| == TABLE_COUNT && |pinned| < TABLE_COUNT
    requires FindOwnedSnapshot(catalog.tables[|pinned|], RunKey(run), counts[|pinned|]).Ok?
    ensures var w := Alone(catalog, run, frames, Pinning(counts, pinned));
            var found := FindOwnedSnapshot(catalog.tables[|pinned|], RunKey(run), counts[|pinned|]).value;
            && WellFormed(w) && Enabled(plan, w, PinTable(0))
            && Take(plan, w, PinTable(0)) == Alone(catalog, run, frames, Pinning(counts, pinned + [found]))
  {
  }

  /** Pin every remaining table, in order. */
  lemma {:induction false} PinningIsSchedule(
      plan: KeyPlan, catalog: Catalog, run: Run, frames: seq<Option<Frame>>, counts: seq<nat>, pinned: seq<Option<nat>>)
    returns (steps: seq<Step>)
    requires Ready(plan, catalog, run, frames)
    requires |counts| == TABLE_COUNT && |pinned| <= TABLE_COUNT
    requires PinsFrom(catalog.tables, RunKey(run), counts, |pinned|).Ok?
    ensures Schedule(plan, Alone(catalog, run, frames, Pinning(counts, pinned)), steps,
                     Alone(catalog, run, frames,
                           Pinning(counts, pinned + PinsFrom(catalog.tables, RunKey(run), counts, |pinned|).value)))
    decreases TABLE_COUNT - |pinned|
  {
    var t := |pinned|;
    var rest := PinsFrom(catalog.tables, RunKey(run), counts, t).value;
    if t == TABLE_COUNT {
      assert pinned + rest == pinned;
      steps := [];
    } else {
      var found := FindOwnedSnapshot(catalog.tables[t], RunKey(run), counts[t]).value;
      var later := PinsFrom(catalog.tables, RunKey(run), counts, t + 1).value;
      var next := pinned + [found];
      assert rest == [found] + later;
      assert next + later == pinned + rest;
      PinStepTaken(plan, catalog, run, frames, counts, pinned);
      var more := PinningIsSchedule(plan, catalog, run, frames, counts, next);
      ScheduleFirst(plan, Alone(catalog, run, frames, Pinning(counts, pinned)), PinTable(0), more,
                    Alone(catalog, run, frames, Pinning(counts, pinned + rest)));
      steps := [PinTable(0)] + more;
    }
  }

  lemma PinsLength(tables: seq<TableLog>, run: RunId, counts: seq<nat>, t: nat)
    requires t <= |tables| == |counts| && PinsFrom(tables, run, counts, t).Ok?
    ensures |PinsFrom(tables, run, counts, t).value| == |tables| - t
    decreases |tables| - t
  {
    if t < |tables| {
      PinsLength(tables, run, counts, t + 1);
    }
  }

  lemma CompareStepTaken(plan: KeyPlan, catalog: Catalog, run: Run, frames: seq<Option<Frame>>)
    requires Ready(plan, catalog, run, frames)
    ensures var w := Alone(catalog, run, frames, Counting(run.counts));
            && WellFormed(w) && Enabled(plan, w, CompareCounts(0))
            && Take(plan, w, CompareCounts(0)) == Alone(catalog, run, frames, Pinning(run.counts, []))
  {
  }

  /** From staged tables to the point where only the commit MERGE is left. */
  lemma PinnedIsSchedule(plan: KeyPlan, catalog: Catalog, run: Run, frames: seq<Option<Frame>>)
    returns (steps: seq<Step>)
    requires Ready(plan, catalog, run, frames)
    requires RowCounts(catalog.tables, RunKey(run)) == run.counts
             && PinsFrom(catalog.tables, RunKey(run), run.counts, 0).Ok?
    ensures Schedule(plan, Alone(catalog, run, frames, Staging(TABLE_COUNT)), steps,
                     Alone(catalog, run, frames,
                           Pinning(run.counts, PinsFrom(catalog.tables, RunKey(run), run.counts, 0).value)))
  {
    var start := Alone(catalog, run, frames, Staging(TABLE_COUNT));
    var pins := PinsFrom(catalog.tables, RunKey(run), run.counts, 0).value;
    var counted := CountingIsSchedule(plan, catalog, run, frames, TABLE_COUNT);
    assert run.counts[..TABLE_COUNT] == run.counts;
    var w1 := Alone(catalog, run, frames, Counting(run.counts));
    var w2 := Alone(catalog, run, frames, Pinning(run.counts, []));
    CompareStepTaken(plan, catalog, run, frames);
    ScheduleThen(plan, start, counted, w1, CompareCounts(0));
    var pinning := PinningIsSchedule(plan, catalog, run, frames, run.counts, []);
    assert [] + pins == pins;
    ScheduleJoin(plan, start, counted + [CompareCounts(0)], w2, pinning,
                 Alone(catalog, run, frames, Pinning(run.counts, pins)));
    steps := counted + [CompareCounts(0)] + pinning;
  }

  lemma PublishStepTaken(plan: KeyPlan, catalog: Catalog, run: Run, frames: seq<Option<Frame>>, at: nat, fate: Fate)
    requires Ready(plan, catalog, run, frames) && fate.TakesEffect()
    requires RowCounts(catalog.tables, RunKey(run)) == run.counts
             && PinsFrom(catalog.tables, RunKey(run), run.counts, 0).Ok?
    ensures var w :=
        Alone(catalog, run, frames, Pinning(run.counts, PinsFrom(catalog.tables, RunKey(run), run.counts, 0).value));
            && WellFormed(w) && Enabled(plan, w, Publish(0, at))
            && Take(plan, w, Publish(0, at)) == World(Seal(catalog, run, at, fate).0, map[])
  {
    hide RowCounts, FindOwnedSnapshot, ValidSubmission;
    PinsLength(catalog.tables, RunKey(run), run.counts, 0);
  }

  /** From staged tables to the writer's end, whatever the commit MERGE does. */
  lemma SealIsSchedule(plan: KeyPlan, catalog: Catalog, run: Run, frames: seq<Option<Frame>>, at: nat, fate: Fate)
    returns (steps: seq<Step>)
    requires Ready(plan, catalog, run, frames)
    ensures Schedule(plan, Alone(catalog, run, frames, Staging(TABLE_COUNT)), steps,
                     World(Seal(catalog, run, at, fate).0, map[]))
  {
    var r := RunKey(run);
    var start := Alone(catalog, run, frames, Staging(TABLE_COUNT));
    var pins := PinsFrom(catalog.tables, r, run.counts, 0);
    if RowCounts(catalog.tables, r) != run.counts || pins.Err? || !fate.TakesEffect() {
      assert Seal(catalog, run, at, fate).0 == catalog;
      assert Schedule(plan, start, [], start);
      StopEndsSchedule(plan, start, [], catalog, run, frames, Staging(TABLE_COUNT));
      steps := [] + [Step.Stop(0)];
    } else {
      var pinning := PinnedIsSchedule(plan, catalog, run, frames);
      PublishStepTaken(plan, catalog, run, frames, at, fate);
      ScheduleThen(plan, start, pinning, Alone(catalog, run, frames, Pinning(run.counts, pins.value)), Publish(0, at));
      steps := pinning + [Publish(0, at)];
    }
  }

  lemma StopEndsSchedule(plan: KeyPlan, w: World, steps: seq<Step>, catalog: Catalog, run: Run,
                         frames: seq<Option<Frame>>, phase: Phase)
    requires WellFormed(Alone(catalog, run, frames, phase))
    requires Schedule(plan, w, steps, Alone(catalog, run, frames, phase))
    ensures Schedule(plan, w, steps + [Step.Stop(0)], World(catalog, map[]))
  {
    ScheduleThen(plan, w, steps, Alone(catalog, run, frames, phase), Step.Stop(0));
    assert Take(plan, Alone(catalog, run, frames, phase), Step.Stop(0)) == World(catalog, map[]);
  }

  lemma SubmitIsSchedule(plan: KeyPlan, catalog: Catalog, run: Run, frames: seq<Option<Frame>>)
    requires Ready(plan, catalog, run, frames)
    ensures Schedule(plan, World(catalog, map[]), [Submit(0, run, FrameMap(frames))],
                     Alone(catalog, run, frames, Preparing))
  {
    hide ValidSubmission;
    var start, submit := World(catalog, map[]), Submit(0, run, FrameMap(frames));
    assert Take(plan, start, submit) == Alone(catalog, run, frames, Preparing);
    assert Schedule(plan, start, [], start);
    ScheduleThen(plan, start, [], start, submit);
    assert [] + [submit] == [submit];
  }

  /** Submitting and storing the manifest. */
  lemma DeclareIsSchedule(plan: KeyPlan, catalog: Catalog, run: Run, frames: seq<Option<Frame>>, declared: Catalog)
    requires Ready(plan, catalog, run, frames)
    requires declared == catalog.(runs := if RunKey(run) in catalog.runs then catalog.runs
              else catalog.runs[RunKey(run) := run])
    ensures Schedule(plan, World(catalog, map[]), [Submit(0, run, FrameMap(frames)), PutManifest(0)],
                     Alone(declared, run, frames, Staging(0)))
  {
    hide ValidSubmission;
    var w1 := Alone(catalog, run, frames, Preparing);
    SubmitIsSchedule(plan, catalog, run, frames);
    assert Take(plan, w1, PutManifest(0)) == Alone(declared, run, frames, Staging(0));
    ScheduleThen(plan, World(catalog, map[]), [Submit(0, run, FrameMap(frames))], w1, PutManifest(0));
    assert [Submit(0, run, FrameMap(frames))] + [PutManifest(0)] == [Submit(0, run, FrameMap(frames)), PutManifest(0)];
  }

  /** Tables and marker, from a stored manifest on. */
  lemma StageAndSealIsSchedule(plan: KeyPlan, catalog: Catalog, run: Run, frames: seq<Option<Frame>>, at: nat,
                               script: Script)
    returns (steps: seq<Step>)
    requires Ready(plan, catalog, run, frames)
    ensures var (tables, staged) := StageFrom(catalog.tables, run, frames, script, 0);
            && |tables| == TABLE_COUNT
            && Schedule(plan, Alone(catalog, run, frames, Staging(0)), steps,
                        World(if staged != Done then catalog.(tables := tables)
                              else Seal(catalog.(tables := tables), run, at, script.commit).0, map[]))
  {
    hide StageFrom, Seal, ValidSubmission, Schedule, Take, Enabled;
    var (tables, staged) := StageFrom(catalog.tables, run, frames, script, 0);
    var w2 := Alone(catalog, run, frames, Staging(0));
    var staging, next := StagingIsSchedule(plan, catalog, run, frames, script, 0);
    var stagedCatalog := catalog.(tables := tables);
    if staged != Done {
      StopEndsSchedule(plan, w2, staging, stagedCatalog, run, frames, Staging(next));
      steps := staging + [Step.Stop(0)];
    } else {
      var sealing := SealIsSchedule(plan, stagedCatalog, run, frames, at, script.commit);
      ScheduleJoin(plan, w2, staging, Alone(stagedCatalog, run, frames, Staging(TABLE_COUNT)), sealing,
                   World(Seal(stagedCatalog, run, at, script.commit).0, map[]));
      steps := staging + sealing;
    }
  }

  lemma WellFormedAlone(plan: KeyPlan, catalog: Catalog, run: Run, frames: seq<Option<Frame>>)
    requires Ready(plan, catalog, run, frames)
    ensures WellFormed(Alone(catalog, run, frames, Preparing)) && WellFormed(Alone(catalog, run, frames, Staging(0)))
  {
  }

  /** Manifest, tables, marker: one writer's whole write as a schedule. */
  lemma WriteIsSchedule(plan: KeyPlan, catalog: Catalog, run: Run, frames: seq<Option<Frame>>, at: nat, script: Script)
    returns (steps: seq<Step>)
    requires Ready(plan, catalog, run, frames) && ManifestsMatch(catalog)
    ensures Schedule(plan, World(catalog, map[]), steps, World(WriteRun(catalog, run, frames, at, script).0, map[]))
  {
    hide StageFrom, Seal, ValidSubmission, Schedule, Take, Enabled, WellFormed;
    var start := World(catalog, map[]);
    var submit := Submit(0, run, FrameMap(frames));
    var (runs, declared) := EnsureManifest(catalog.runs, run, script.manifest);
    var declaredCatalog := catalog.(runs := runs);
    if declared != Done && runs == catalog.runs {
      SubmitIsSchedule(plan, catalog, run, frames);
      WellFormedAlone(plan, catalog, run, frames);
      StopEndsSchedule(plan, start, [submit], catalog, run, frames, Preparing);
      steps := [submit] + [Step.Stop(0)];
      assert declaredCatalog == catalog;
    } else {
      var first := [submit, PutManifest(0)];
      DeclareIsSchedule(plan, catalog, run, frames, declaredCatalog);
      WellFormedAlone(plan, declaredCatalog, run, frames);
      if declared != Done {
        StopEndsSchedule(plan, start, first, declaredCatalog, run, frames, Staging(0));
        steps := first + [Step.Stop(0)];
      } else {
        var rest := StageAndSealIsSchedule(plan, declaredCatalog, run, frames, at, script);
        ScheduleJoin(plan, start, first, Alone(declaredCatalog, run, frames, Staging(0)), rest,
                     World(WriteRun(catalog, run, frames, at, script).0, map[]));
        steps := first + rest;
      }
    }
  }

  /** One call of `stage_and_commit`, interrupted anywhere, is a schedule of the protocol. */
  lemma AttemptIsSchedule(plan: KeyPlan, generation: Option<nat>, catalog: Catalog, sub: Submission, script: Script)
    returns (steps: seq<Step>)
    requires |catalog.tables| == TABLE_COUNT && ManifestsMatch(catalog)
    requires Obeys(plan, generation, catalog, sub)
    ensures Schedule(plan, World(catalog, map[]), steps, World(Attempt(generation, catalog, sub, script).0, map[]))
  {
    var resolution := Resolve(generation, catalog, sub);
    if resolution.Stop? {
      steps := [];
    } else {
      ResolvedFramesValid(generation, catalog, sub);
      var frames := resolution.frames;
      assert ValidSubmission(plan, resolution.run, FrameMap(frames));
      steps := WriteIsSchedule(plan, catalog, resolution.run, frames, sub.at, script);
    }
  }

  /** Hence every call keeps the commit fence and only grows the catalog. */
  lemma AttemptKeepsInvariant(plan: KeyPlan, generation: Option<nat>, catalog: Catalog, sub: Submission, script: Script)
    requires PlanFitsCounts(plan)
    requires CatalogInvariant(plan, catalog) && Obeys(plan, generation, catalog, sub)
    ensures var later := Attempt(generation, catalog, sub, script).0;
            CatalogInvariant(plan, later) && Grows(catalog, later)
  {
    var steps := AttemptIsSchedule(plan, generation, catalog, sub, script);
    ScheduleKeepsInvariant(plan, World(catalog, map[]), steps,
                           World(Attempt(generation, catalog, sub, script).0, map[]));
  }

  // ---------------------------------------------------------------- what a caller is given

  lemma SealRecords(catalog: Catalog, run: Run, at: nat, fate: Fate)
    requires |catalog.tables| == |run.counts| == TABLE_COUNT && RunKey(run) !in catalog.commits
    requires Seal(catalog, run, at, fate).1.Published?
    ensures var (after, outcome) := Seal(catalog, run, at, fate);
            && outcome.commit.run == RunKey(run)
            && RunKey(run) in after.commits && after.commits[RunKey(run)] == outcome.commit
  {
    hide RowCounts, PinsFrom;
  }

  lemma WriteRecords(catalog: Catalog, run: Run, frames: seq<Option<Frame>>, at: nat, script: Script)
    requires |catalog.tables| == |frames| == |run.counts| == TABLE_COUNT && RunKey(run) !in catalog.commits
    requires WriteRun(catalog, run, frames, at, script).1.Published?
    ensures var (after, outcome) := WriteRun(catalog, run, frames, at, script);
            && outcome.commit.run == RunKey(run)
            && RunKey(run) in after.commits && after.commits[RunKey(run)] == outcome.commit
  {
    hide StageFrom, Seal, EnsureManifest;
    var (runs, declared) := EnsureManifest(catalog.runs, run, script.manifest);
    StageFromLength(catalog.tables, run, frames, script, 0);
    var tables := StageFrom(catalog.tables, run, frames, script, 0).0;
    SealRecords(catalog.(runs := runs).(tables := tables), run, at, script.commit);
  }

  lemma CheckRunFacts(generation: Option<nat>, catalog: Catalog, run: Run)
    ensures var stop := CheckRun(generation, catalog, run);
            && (stop == None ==> RunKey(run) !in catalog.commits)
            && (stop.Some? && stop.value.Published? ==>
                  RunKey(run) in catalog.commits && stop.value.commit == catalog.commits[RunKey(run)]
                      && stop.value.commit.run == RunKey(run))
  {
  }

  lemma StoppedOrUncommitted(generation: Option<nat>, catalog: Catalog, sub: Submission) returns (run: Run)
    requires |catalog.tables| == TABLE_COUNT
    ensures var resolution := Resolve(generation, catalog, sub);
            && (resolution.Go? ==> run == resolution.run && RunKey(run) !in catalog.commits)
            && (resolution.Stop? && resolution.outcome.Published? ==>
                CheckRun(generation, catalog, run) == Some(resolution.outcome))
  {
    hide PrepareFrom, CheckRun, HeadsCurrent, PreflightFrom, StripIdentityKeys;
    run := sub.run;
    CheckRunFacts(generation, catalog, sub.run);
    if Admissible(generation, sub) && sub.mode == Some(Incremental)
       && PrepareFrom(catalog.tables, sub, 0, generation.None?).Ok? {
      PreparedLength(catalog.tables, sub, 0, generation.None?);
      var stripped :=
          StripIdentityKeys(catalog.tables, sub.run, PrepareFrom(catalog.tables, sub, 0, generation.None?).value,
          sub.pinned.value);
      CheckRunFacts(generation, catalog, stripped.run);
      if CheckRun(generation, catalog, sub.run) == None {
        run := stripped.run;
      }
    }
  }

  /** Whatever path a call takes, a commit it returns is the stored marker of a run whose every table is complete. */
  lemma ReturnedCommitIsFenced(plan: KeyPlan, generation: Option<nat>, catalog: Catalog, sub: Submission,
                               script: Script)
    requires PlanFitsCounts(plan)
    requires CatalogInvariant(plan, catalog) && Obeys(plan, generation, catalog, sub)
    requires Attempt(generation, catalog, sub, script).1.Published?
    ensures var (after, outcome) := Attempt(generation, catalog, sub, script);
            && outcome.commit.run in after.commits && after.commits[outcome.commit.run] == outcome.commit
            && Fenced(plan, after, outcome.commit.run)
  {
    hide Resolve, WriteRun, CheckRun, Obeys, Grows, Fenced;
    AttemptKeepsInvariant(plan, generation, catalog, sub, script);
    var run := StoppedOrUncommitted(generation, catalog, sub);
    CheckRunFacts(generation, catalog, run);
    var resolution := Resolve(generation, catalog, sub);
    if resolution.Go? {
      WriteRecords(catalog, resolution.run, resolution.frames, sub.at, script);
    }
  }
}
