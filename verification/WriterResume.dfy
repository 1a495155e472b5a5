/** Crash and resume without a generation: which runs converge, and which cannot. */
module WriterResume {
  import opened Prelude
  import opened SilverStore
  import opened SilverWriter

  /** What one undisturbed call would do to the catalog, and how it would end. */
  function Undisturbed(catalog: Catalog, sub: Submission): (Catalog, Outcome)
    requires |catalog.tables| == TABLE_COUNT
  {
    Attempt(None, catalog, sub, UNINTERRUPTED)
  }

  ghost predicate WritesNoIdentityRows(run: Run) {
    |run.counts| == TABLE_COUNT && forall t :: 0 <= t < TABLE_COUNT && IsIdentityTable(t) ==> run.counts[t] == 0
  }

  // ---------------------------------------------------------------- one table

  /** A table that an undisturbed call stages: any other call does the same to it or, if its MERGE has no effect,
      nothing. */
  lemma {:induction false} StageTableIsAllOrNothing(t: nat, log: TableLog, target: TableLog, run: RunId, expected: nat,
                                                    frame: Option<Frame>, fate: Fate)
    requires StageTable(t, log, run, expected, frame, Applied) == (target, Done)
    ensures StageTable(t, log, run, expected, frame, fate).0 == if fate.TakesEffect() then target else log
    ensures StageTable(t, log, run, expected, frame, fate).1 == Done ==>
              StageTable(t, log, run, expected, frame, fate).0 == target
  {
    hide FindOwnedSnapshot, RowCount, MergeInsertOnly;
  }

  lemma StagedTableIsComplete(t: nat, log: TableLog, run: RunId, expected: nat, frame: Option<Frame>)
    requires StageTable(t, log, run, expected, frame, Applied).1 == Done
    ensures var target := StageTable(t, log, run, expected, frame, Applied).0;
            && (expected > 0 ==> VerifyCompleted(target, run, expected) == Ok(true))
            && (expected == 0 ==> target == log)
  {
  }

  /** Once staged, a table is recognised, with its frame or without it, and left alone. */
  lemma {:induction false} StagedTableIsRecognised(t: nat, log: TableLog, target: TableLog, run: RunId, expected: nat,
                                                   frame: Option<Frame>, again: Option<Frame>, fate: Fate)
    requires StageTable(t, log, run, expected, frame, Applied) == (target, Done)
    requires again == frame || (again.None? && VerifyCompleted(target, run, expected) == Ok(true))
    ensures StageTable(t, target, run, expected, again, fate) == (target, Done)
  {
    hide FindOwnedSnapshot, RowCount, MergeInsertOnly;
    StagedTableIsComplete(t, log, run, expected, frame);
  }

  // ---------------------------------------------------------------- the staging loop, table by table

  lemma {:induction false} StageFromSucceeds(tables: seq<TableLog>, run: Run, frames: seq<Option<Frame>>,
                                             script: Script, t: nat)
    requires |tables| == |frames| == |run.counts| == TABLE_COUNT && t <= TABLE_COUNT
    requires forall u :: t <= u < TABLE_COUNT ==>
               StageTable(u, tables[u], RunKey(run), run.counts[u], frames[u], script.tables(u)).1 == Done
    ensures StageFrom(tables, run, frames, script, t).1 == Done
    decreases |tables| - t
  {
    if t < TABLE_COUNT {
      var log := StageTable(t, tables[t], RunKey(run), run.counts[t], frames[t], script.tables(t)).0;
      StageFromSucceeds(tables[t := log], run, frames, script, t + 1);
    }
  }

  lemma {:induction false} PrepareSucceeds(tables: seq<TableLog>, sub: Submission, t: nat, allowReuse: bool)
    requires t <= TABLE_COUNT == |tables| == |sub.run.counts|
    requires forall u :: t <= u < TABLE_COUNT ==> PrepareTable(tables[u], sub, u, allowReuse).Ok?
    ensures PrepareFrom(tables, sub, t, allowReuse).Ok?
    decreases |tables| - t
  {
    if t < TABLE_COUNT {
      PrepareSucceeds(tables, sub, t + 1, allowReuse);
    }
  }

  lemma {:induction false} PreflightSkips(tables: seq<TableLog>, run: Run, frames: seq<Option<Frame>>, t: nat)
    requires |tables| == |frames| == |run.counts| == TABLE_COUNT && t <= TABLE_COUNT
    requires WritesNoIdentityRows(run)
    ensures PreflightFrom(tables, run, frames, t) == None
    decreases |tables| - t
  {
    if t < TABLE_COUNT {
      PreflightSkips(tables, run, frames, t + 1);
    }
  }

  // ---------------------------------------------------------------- the goal of a run

  /** What one undisturbed call would do: the frames it stages, the tables and snapshot IDs it ends with. */
  datatype Goal = Goal(start: Catalog, sub: Submission, frames: seq<Option<Frame>>, tables: seq<TableLog>,
                       pins: seq<Option<nat>>) {
    function Id(): RunId { RunKey(sub.run) }

    function Runs(): map<RunId, Run> { start.runs[Id() := sub.run] }

    function Commits(at: nat): map<RunId, Commit> {
      start.commits[Id() := Commit(Id(), at, sub.run.counts, pins)]
    }

    function Catalog(at: nat): Catalog { SilverStore.Catalog.Catalog(tables, Runs(), Commits(at)) }
  }

  ghost predicate Shape(g: Goal) {
    && |g.start.tables| == |g.sub.run.counts| == |g.frames| == |g.tables| == TABLE_COUNT
    && Admissible(None, g.sub)
    && g.Id() !in g.start.commits
    && (g.Id() in g.start.runs ==> g.start.runs[g.Id()] == g.sub.run)
    && (g.sub.heads.Some? ==> HeadsCurrent(g.start.tables, g.sub.heads.value))
  }

  ghost predicate Stages(g: Goal)
    requires Shape(g)
  {
    forall t :: 0 <= t < TABLE_COUNT ==>
                  && PrepareTable(g.start.tables[t], g.sub, t, true) == Ok(g.frames[t])
                  && StageTable(t, g.start.tables[t], g.Id(), g.sub.run.counts[t], g.frames[t], Applied)
                      == (g.tables[t], Done)
  }

  ghost predicate Seals(g: Goal)
    requires Shape(g)
  {
    RowCounts(g.tables, g.Id()) == g.sub.run.counts && PinsFrom(g.tables, g.Id(), g.sub.run.counts, 0) == Ok(g.pins)
  }

  /** An uncommitted run that an undisturbed call from `start` would publish. */
  ghost predicate WouldPublish(start: Catalog, sub: Submission) {
    && |start.tables| == TABLE_COUNT
    && RunKey(sub.run) !in start.commits
    && Undisturbed(start, sub).1.Published?
  }

  lemma ManifestStored(runs: map<RunId, Run>, run: Run)
    requires EnsureManifest(runs, run, Applied).1 == Done
    ensures EnsureManifest(runs, run, Applied).0 == runs[RunKey(run) := run]
    ensures RunKey(run) in runs ==> runs[RunKey(run)] == run
  {
  }

  /** A publishing write passed its manifest and its staging loop. */
  lemma WriteReachesSeal(start: Catalog, run: Run, frames: seq<Option<Frame>>, at: nat) returns (staged: Catalog)
    requires |start.tables| == |run.counts| == |frames| == TABLE_COUNT
    requires WriteRun(start, run, frames, at, UNINTERRUPTED).1.Published?
    ensures StageFrom(start.tables, run, frames, UNINTERRUPTED, 0) == (staged.tables, Done)
    ensures RunKey(run) in start.runs ==> start.runs[RunKey(run)] == run
    ensures staged.runs == start.runs[RunKey(run) := run] && staged.commits == start.commits
    ensures |staged.tables| == TABLE_COUNT
    ensures WriteRun(start, run, frames, at, UNINTERRUPTED) == Seal(staged, run, at, Applied)
  {
    StageFromLength(start.tables, run, frames, UNINTERRUPTED, 0);
    assert EnsureManifest(start.runs, run, UNINTERRUPTED.manifest).1 == Done;
    ManifestStored(start.runs, run);
    staged := Catalog.Catalog(StageFrom(start.tables, run, frames, UNINTERRUPTED, 0).0, start.runs[RunKey(run) := run],
                              start.commits);
  }

  lemma SealPublishes(staged: Catalog, run: Run, at: nat)
    requires |staged.tables| == |run.counts| == TABLE_COUNT && RunKey(run) !in staged.commits
    requires Seal(staged, run, at, Applied).1.Published?
    ensures RowCounts(staged.tables, RunKey(run)) == run.counts
    ensures PinsFrom(staged.tables, RunKey(run), run.counts, 0).Ok?
    ensures var commit :=
        Commit(RunKey(run), at, run.counts, PinsFrom(staged.tables, RunKey(run), run.counts, 0).value);
            Seal(staged, run, at, Applied)
                == (staged.(commits := staged.commits[RunKey(run) := commit]), Published(commit))
  {
  }

  lemma StagedPointwise(g: Goal)
    requires |g.start.tables| == |g.sub.run.counts| == |g.frames| == TABLE_COUNT
    requires StageFrom(g.start.tables, g.sub.run, g.frames, UNINTERRUPTED, 0) == (g.tables, Done)
    ensures |g.tables| == TABLE_COUNT
    ensures forall t :: 0 <= t < TABLE_COUNT ==>
      StageTable(t, g.start.tables[t], g.Id(), g.sub.run.counts[t], g.frames[t], Applied) == (g.tables[t], Done)
  {
    StageFromPointwise(g.start.tables, g.sub.run, g.frames, UNINTERRUPTED);
    forall t | 0 <= t < TABLE_COUNT
      ensures StageTable(t, g.start.tables[t], g.Id(), g.sub.run.counts[t], g.frames[t], Applied) == (g.tables[t], Done)
    {
      assert UNINTERRUPTED.tables(t) == Applied;
    }
  }

  lemma ResolvedAsPrepared(start: Catalog, sub: Submission) returns (frames: seq<Option<Frame>>)
    requires |start.tables| == TABLE_COUNT && RunKey(sub.run) !in start.commits
    requires Resolve(None, start, sub).Go?
    ensures Admissible(None, sub) && |sub.run.counts| == |frames| == TABLE_COUNT
    ensures Resolve(None, start, sub) == Go(sub.run, frames) && PrepareFrom(start.tables, sub, 0, true) == Ok(frames)
    ensures sub.heads.Some? ==> HeadsCurrent(start.tables, sub.heads.value)
  {
    frames := PrepareFrom(start.tables, sub, 0, true).value;
    PreparedLength(start.tables, sub, 0, true);
  }

  lemma PreparedTables(tables: seq<TableLog>, sub: Submission, frames: seq<Option<Frame>>)
    requires |tables| == |sub.run.counts| == |frames| == TABLE_COUNT
    requires PrepareFrom(tables, sub, 0, true) == Ok(frames)
    ensures forall t :: 0 <= t < TABLE_COUNT ==> PrepareTable(tables[t], sub, t, true) == Ok(frames[t])
  {
    PreparedLength(tables, sub, 0, true);
    forall t | 0 <= t < TABLE_COUNT
      ensures PrepareTable(tables[t], sub, t, true) == Ok(frames[t])
    {
      assert PrepareTable(tables[t], sub, t, true) == Ok(frames[t - 0]);
    }
  }

  lemma PublisherResolves(start: Catalog, sub: Submission)
    requires WouldPublish(start, sub)
    ensures Resolve(None, start, sub).Go?
    ensures sub.run == Resolve(None, start, sub).run
    ensures Undisturbed(start, sub) == WriteRun(start, sub.run, Resolve(None, start, sub).frames, sub.at, UNINTERRUPTED)
  {
    if Resolve(None, start, sub).Stop? {
      UncommittedStopFails(start, sub);
    } else {
      var frames := ResolvedAsPrepared(start, sub);
    }
  }

  lemma UncommittedStopFails(start: Catalog, sub: Submission)
    requires |start.tables| == TABLE_COUNT && RunKey(sub.run) !in start.commits
    requires Resolve(None, start, sub).Stop?
    ensures Resolve(None, start, sub).outcome.Failed?
  {
    if Admissible(None, sub) {
      assert sub.mode == None;
      assert CheckRun(None, start, sub.run).None? || CheckRun(None, start, sub.run).value.Failed?;
    }
  }

  /** The goal exists whenever an undisturbed call publishes, and that call reaches it. */
  lemma GoalOf(start: Catalog, sub: Submission) returns (g: Goal)
    requires WouldPublish(start, sub)
    ensures g.start == start && g.sub == sub
    ensures Shape(g) && Stages(g) && Seals(g)
    ensures Undisturbed(start, sub) == (g.Catalog(sub.at), Published(g.Commits(sub.at)[g.Id()]))
  {
    PublisherResolves(start, sub);
    var frames := ResolvedAsPrepared(start, sub);
    PreparedTables(start.tables, sub, frames);
    var staged := WriteReachesSeal(start, sub.run, frames, sub.at);
    SealPublishes(staged, sub.run, sub.at);
    g := Goal(start, sub, frames, staged.tables, PinsFrom(staged.tables, RunKey(sub.run), sub.run.counts, 0).value);
    StagedPointwise(g);
  }

  // ---------------------------------------------------------------- states between attempts

  /** Between attempts every table is untouched or complete, and a marker exists only if all are complete. */
  ghost predicate Partway(g: Goal, now: Catalog)
    requires Shape(g)
  {
    && |now.tables| == TABLE_COUNT
    && (forall t :: 0 <= t < TABLE_COUNT ==> now.tables[t] == g.start.tables[t] || now.tables[t] == g.tables[t])
    && (now.runs == g.start.runs || now.runs == g.Runs())
    && (now.commits == g.start.commits || exists at :: now == g.Catalog(at))
  }

  /** A retry finds a table's frame again, or finds the table complete. */
  lemma RetryPreparesTable(g: Goal, now: Catalog, t: nat)
    requires Shape(g) && Stages(g) && Partway(g, now) && t < TABLE_COUNT
    ensures var again := PrepareTable(now.tables[t], g.sub, t, true);
            && again.Ok?
            && (|| again.value == g.frames[t]
                || (again.value.None? && now.tables[t] == g.tables[t]
                    && VerifyCompleted(g.tables[t], g.Id(), g.sub.run.counts[t]) == Ok(true)))
  {
    assert PrepareTable(g.start.tables[t], g.sub, t, true) == Ok(g.frames[t]);
    StagedTableIsComplete(t, g.start.tables[t], g.Id(), g.sub.run.counts[t], g.frames[t]);
  }

  lemma RetryPrepares(g: Goal, now: Catalog) returns (frames: seq<Option<Frame>>)
    requires Shape(g) && Stages(g) && Partway(g, now)
    ensures PrepareFrom(now.tables, g.sub, 0, true) == Ok(frames) && |frames| == TABLE_COUNT
    ensures forall t :: 0 <= t < TABLE_COUNT ==>
              || frames[t] == g.frames[t]
              || (frames[t].None? && now.tables[t] == g.tables[t]
                  && VerifyCompleted(g.tables[t], g.Id(), g.sub.run.counts[t]) == Ok(true))
  {
    forall t | 0 <= t < TABLE_COUNT
      ensures PrepareTable(now.tables[t], g.sub, t, true).Ok?
    {
      RetryPreparesTable(g, now, t);
    }
    PrepareSucceeds(now.tables, g.sub, 0, true);
    PreparedLength(now.tables, g.sub, 0, true);
    frames := PrepareFrom(now.tables, g.sub, 0, true).value;
    forall t | 0 <= t < TABLE_COUNT
      ensures frames[t] == g.frames[t]
              || (frames[t].None? && now.tables[t] == g.tables[t]
                  && VerifyCompleted(g.tables[t], g.Id(), g.sub.run.counts[t]) == Ok(true))
    {
      assert PrepareTable(now.tables[t], g.sub, t, true) == Ok(frames[t - 0]);
      RetryPreparesTable(g, now, t);
    }
  }

  lemma IdentityTablesUntouched(g: Goal, now: Catalog)
    requires Shape(g) && Stages(g) && Partway(g, now) && WritesNoIdentityRows(g.sub.run)
    ensures forall t :: 0 <= t < TABLE_COUNT && IsIdentityTable(t) ==> now.tables[t] == g.start.tables[t]
  {
    forall t | 0 <= t < TABLE_COUNT && IsIdentityTable(t)
      ensures now.tables[t] == g.start.tables[t]
    {
      StagedTableIsComplete(t, g.start.tables[t], g.Id(), g.sub.run.counts[t], g.frames[t]);
    }
  }

  /** A retry of an uncommitted run gets as far as the writes again. */
  lemma RetryResolves(g: Goal, now: Catalog, frames: seq<Option<Frame>>)
    requires Shape(g) && Stages(g) && Partway(g, now) && WritesNoIdentityRows(g.sub.run)
    requires now.commits == g.start.commits
    requires PrepareFrom(now.tables, g.sub, 0, true) == Ok(frames) && |frames| == TABLE_COUNT
    ensures Resolve(None, now, g.sub) == Go(g.sub.run, frames)
  {
    IdentityTablesUntouched(g, now);
    PreflightSkips(now.tables, g.sub.run, frames, 0);
    assert CheckRun(None, now, g.sub.run) == None;
    assert CheckKeys(now, g.sub, g.sub.run, frames, false) == Go(g.sub.run, frames);
  }

  /** One table of a retry. */
  lemma RetryStagesTable(g: Goal, now: Catalog, frame: Option<Frame>, fate: Fate, t: nat)
    requires Shape(g) && Stages(g) && Partway(g, now) && t < TABLE_COUNT
    requires frame == g.frames[t]
             || (frame.None? && now.tables[t] == g.tables[t]
                 && VerifyCompleted(g.tables[t], g.Id(), g.sub.run.counts[t]) == Ok(true))
    ensures var (log, progress) := StageTable(t, now.tables[t], g.Id(), g.sub.run.counts[t], frame, fate);
            && (log == g.start.tables[t] || log == g.tables[t])
            && (progress == Done ==> log == g.tables[t])
            && (fate == Applied || now.tables[t] == g.tables[t] ==> progress == Done)
  {
    if now.tables[t] == g.tables[t] {
      StagedTableIsRecognised(t, g.start.tables[t], g.tables[t], g.Id(), g.sub.run.counts[t], g.frames[t], frame, fate);
    } else {
      StageTableIsAllOrNothing(t, g.start.tables[t], g.tables[t], g.Id(), g.sub.run.counts[t], g.frames[t], fate);
    }
  }

  /** The staging loop of a retry moves tables from untouched to complete and never elsewhere. */
  lemma RetryStages(g: Goal, now: Catalog, frames: seq<Option<Frame>>, script: Script)
    requires Shape(g) && Stages(g) && Partway(g, now) && |frames| == TABLE_COUNT
    requires forall t :: 0 <= t < TABLE_COUNT ==>
               || frames[t] == g.frames[t]
               || (frames[t].None? && now.tables[t] == g.tables[t]
                   && VerifyCompleted(g.tables[t], g.Id(), g.sub.run.counts[t]) == Ok(true))
    ensures var (after, progress) := StageFrom(now.tables, g.sub.run, frames, script, 0);
            && |after| == TABLE_COUNT
            && (forall t :: 0 <= t < TABLE_COUNT ==> after[t] == g.start.tables[t] || after[t] == g.tables[t])
            && (progress == Done ==> after == g.tables)
            && ((forall t :: script.tables(t) == Applied) ==> progress == Done)
  {
    forall t | 0 <= t < TABLE_COUNT
      ensures var (log, progress) :=
          StageTable(t, now.tables[t], g.Id(), g.sub.run.counts[t], frames[t], script.tables(t));
              && (log == g.start.tables[t] || log == g.tables[t])
              && (progress == Done ==> log == g.tables[t])
              && (script.tables(t) == Applied ==> progress == Done)
    {
      RetryStagesTable(g, now, frames[t], script.tables(t), t);
    }
    StageFromPointwise(now.tables, g.sub.run, frames, script);
    if forall t :: script.tables(t) == Applied {
      StageFromSucceeds(now.tables, g.sub.run, frames, script, 0);
    }
  }

  /** A run whose tables are complete publishes the goal's marker, or leaves the catalog alone. */
  lemma SealReachesGoal(g: Goal, staged: Catalog, at: nat, fate: Fate)
    requires Shape(g) && Seals(g)
    requires staged.tables == g.tables && staged.runs == g.Runs() && staged.commits == g.start.commits
    ensures var (sealed, outcome) := Seal(staged, g.sub.run, at, fate);
            && (sealed == staged || sealed == g.Catalog(at))
            && (fate == Applied ==> sealed == g.Catalog(at) && outcome == Published(g.Commits(at)[g.Id()]))
  {
  }

  /** The writes of a retry. */
  lemma RetryWrites(g: Goal, now: Catalog, frames: seq<Option<Frame>>, at: nat, script: Script)
    requires Shape(g) && Stages(g) && Seals(g) && Partway(g, now) && now.commits == g.start.commits
    requires |frames| == TABLE_COUNT
    requires forall t :: 0 <= t < TABLE_COUNT ==>
               || frames[t] == g.frames[t]
               || (frames[t].None? && now.tables[t] == g.tables[t]
                   && VerifyCompleted(g.tables[t], g.Id(), g.sub.run.counts[t]) == Ok(true))
    ensures var (after, outcome) := WriteRun(now, g.sub.run, frames, at, script);
            && Partway(g, after)
            && (script == UNINTERRUPTED ==> after == g.Catalog(at) && outcome == Published(g.Commits(at)[g.Id()]))
  {
    var (runs, declared) := EnsureManifest(now.runs, g.sub.run, script.manifest);
    assert runs == g.start.runs || runs == g.Runs();
    assert declared == Done ==> runs == g.Runs();
    if declared == Done {
      RetryStages(g, now, frames, script);
      var (tables, progress) := StageFrom(now.tables, g.sub.run, frames, script, 0);
      if progress == Done {
        var staged := now.(runs := runs).(tables := tables);
        SealReachesGoal(g, staged, at, script.commit);
        assert WriteRun(now, g.sub.run, frames, at, script) == Seal(staged, g.sub.run, at, script.commit);
      }
    }
  }

  /** Only the commit time distinguishes two exact retries. */
  lemma {:induction false} PrepareIgnoresTime(tables: seq<TableLog>, sub: Submission, at: nat, t: nat, allowReuse: bool)
    requires t <= TABLE_COUNT == |tables| == |sub.run.counts|
    ensures PrepareFrom(tables, sub.(at := at), t, allowReuse) == PrepareFrom(tables, sub, t, allowReuse)
    decreases |tables| - t
  {
    if t < TABLE_COUNT {
      PrepareIgnoresTime(tables, sub, at, t + 1, allowReuse);
    }
  }

  lemma ResolveIgnoresTime(catalog: Catalog, sub: Submission, at: nat)
    requires |catalog.tables| == TABLE_COUNT
    ensures Resolve(None, catalog, sub.(at := at)) == Resolve(None, catalog, sub)
  {
    if Admissible(None, sub) {
      PrepareIgnoresTime(catalog.tables, sub, at, 0, true);
      if PrepareFrom(catalog.tables, sub, 0, true).Ok? {
        PreparedLength(catalog.tables, sub, 0, true);
      }
    }
  }

  /** Each attempt, interrupted anywhere, leads from one partway state to another. */
  lemma AttemptStaysPartway(g: Goal, now: Catalog, at: nat, script: Script)
    requires Shape(g) && Stages(g) && Seals(g) && Partway(g, now) && WritesNoIdentityRows(g.sub.run)
    ensures var (after, outcome) := Attempt(None, now, g.sub.(at := at), script);
            && Partway(g, after)
            && (script == UNINTERRUPTED ==> exists when ::
                  after == g.Catalog(when) && outcome == Published(g.Commits(when)[g.Id()]))
  {
    ResolveIgnoresTime(now, g.sub, at);
    if now.commits == g.start.commits {
      var frames := RetryPrepares(g, now);
      RetryResolves(g, now, frames);
      RetryWrites(g, now, frames, at, script);
    } else {
      var when :| now == g.Catalog(when);
      assert CheckRun(None, now, g.sub.run) == Some(Published(g.Commits(when)[g.Id()]));
      assert Attempt(None, now, g.sub.(at := at), script) == (now, Published(g.Commits(when)[g.Id()]));
    }
  }

  /** A run's attempts so far: when each would have committed, and what interrupted it. */
  ghost function Attempts(catalog: Catalog, sub: Submission, history: seq<(nat, Script)>): (now: Catalog)
    requires |catalog.tables| == TABLE_COUNT
    ensures |now.tables| == TABLE_COUNT
    decreases |history|
  {
    if history == [] then catalog
    else
      AttemptKeepsTableCount(None, catalog, sub.(at := history[0].0), history[0].1);
      Attempts(Attempt(None, catalog, sub.(at := history[0].0), history[0].1).0, sub, history[1..])
  }

  lemma {:induction false} AttemptsStayPartway(g: Goal, now: Catalog, history: seq<(nat, Script)>)
    requires Shape(g) && Stages(g) && Seals(g) && Partway(g, now) && WritesNoIdentityRows(g.sub.run)
    ensures Partway(g, Attempts(now, g.sub, history))
    decreases |history|
  {
    if history != [] {
      AttemptStaysPartway(g, now, history[0].0, history[0].1);
      AttemptsStayPartway(g, Attempt(None, now, g.sub.(at := history[0].0), history[0].1).0, history[1..]);
    }
  }

  lemma {:induction false} PinnedOnce(tables: seq<TableLog>, run: RunId, counts: seq<nat>, t: nat)
    requires t <= |tables| == |counts| && PinsFrom(tables, run, counts, t).Ok?
    ensures forall u :: t <= u < |tables| ==> |OwnedSnapshots(tables[u], run)| <= 1
    decreases |tables| - t
  {
    if t < |tables| {
      PinnedOnce(tables, run, counts, t + 1);
    }
  }

  /** Two catalogs agree on everything but the time inside the run's marker. */
  ghost predicate SameUpToTime(a: Catalog, b: Catalog, run: RunId) {
    && a.tables == b.tables && a.runs == b.runs
    && run in a.commits && run in b.commits
    && a.commits == b.commits[run := b.commits[run].(at := a.commits[run].at)]
  }

  /** Crash-resume convergence: after any interrupted attempts, one undisturbed retry ends exactly
      where one undisturbed attempt from the start would have, with no second tagged snapshot. */
  lemma CrashResumeConverges(start: Catalog, sub: Submission, history: seq<(nat, Script)>, at: nat)
    returns (between: Catalog, after: Catalog, outcome: Outcome)
    requires WouldPublish(start, sub) && WritesNoIdentityRows(sub.run)
    ensures between == Attempts(start, sub, history) && |between.tables| == TABLE_COUNT
    ensures Undisturbed(between, sub.(at := at)) == (after, outcome) && outcome.Published?
    ensures SameUpToTime(after, Undisturbed(start, sub).0, RunKey(sub.run))
    ensures forall t :: 0 <= t < |after.tables| ==> |OwnedSnapshots(after.tables[t], RunKey(sub.run))| <= 1
  {
    hide Shape, Stages, Seals, Partway, Attempt, Attempts;
    var g := GoalOf(start, sub);
    AttemptsStayPartway(g, start, history);
    between := Attempts(start, sub, history);
    AttemptStaysPartway(g, between, at, UNINTERRUPTED);
    after, outcome := Undisturbed(between, sub.(at := at)).0, Undisturbed(between, sub.(at := at)).1;
    var when :| after == g.Catalog(when);
    GoalsDifferInTime(g, when, sub.at);
    GoalPinnedOnce(g);
  }

  lemma GoalPinnedOnce(g: Goal)
    requires Shape(g) && Seals(g)
    ensures forall t :: 0 <= t < TABLE_COUNT ==> |OwnedSnapshots(g.tables[t], g.Id())| <= 1
  {
    PinnedOnce(g.tables, g.Id(), g.sub.run.counts, 0);
  }

  lemma GoalsDifferInTime(g: Goal, when: nat, at: nat)
    ensures SameUpToTime(g.Catalog(when), g.Catalog(at), g.Id())
  {
    assert g.Commits(when) == g.Commits(at)[g.Id() := g.Commits(at)[g.Id()].(at := when)];
  }

  // ---------------------------------------------------------------- runs that write Identity rows

  /** After any such attempts, an undisturbed call at time `at` publishes the run. */
  ghost predicate Recovers(start: Catalog, sub: Submission, history: seq<(nat, Script)>, at: nat)
    requires |start.tables| == TABLE_COUNT
  {
    Undisturbed(Attempts(start, sub, history), sub.(at := at)).1.Published?
  }

  /** Everything is written except the marker. */
  function KilledAtCommit(): Script { Script(Applied, (t: nat) => Applied, KilledBefore) }

  function Unmarked(g: Goal): Catalog { Catalog.Catalog(g.tables, g.Runs(), g.start.commits) }

  lemma AttemptGoes(generation: Option<nat>, catalog: Catalog, sub: Submission, script: Script,
                    frames: seq<Option<Frame>>)
    requires |catalog.tables| == |frames| == |sub.run.counts| == TABLE_COUNT
    requires Resolve(generation, catalog, sub) == Go(sub.run, frames)
    ensures Attempt(generation, catalog, sub, script) == WriteRun(catalog, sub.run, frames, sub.at, script)
  {
  }

  lemma SealKilled(staged: Catalog, run: Run, at: nat)
    requires |staged.tables| == |run.counts| == TABLE_COUNT
    requires RowCounts(staged.tables, RunKey(run)) == run.counts
             && PinsFrom(staged.tables, RunKey(run), run.counts, 0).Ok?
    ensures Seal(staged, run, at, KilledBefore) == (staged, Dead)
  {
  }

  lemma ManifestApplied(runs: map<RunId, Run>, run: Run)
    requires RunKey(run) in runs ==> runs[RunKey(run)] == run
    ensures EnsureManifest(runs, run, Applied) == (runs[RunKey(run) := run], Done)
  {
    if RunKey(run) in runs {
      assert runs[RunKey(run) := run] == runs;
    }
  }

  lemma WriteInSteps(start: Catalog, run: Run, frames: seq<Option<Frame>>, at: nat, script: Script,
                     runs: map<RunId, Run>, tables: seq<TableLog>)
    requires |start.tables| == |frames| == |run.counts| == |tables| == TABLE_COUNT
    requires EnsureManifest(start.runs, run, script.manifest) == (runs, Done)
    requires StageFrom(start.tables, run, frames, script, 0) == (tables, Done)
    ensures WriteRun(start, run, frames, at, script)
         == Seal(Catalog.Catalog(tables, runs, start.commits), run, at, script.commit)
  {
    hide StageFrom, Seal, EnsureManifest;
    assert start.(runs := runs).(tables := tables) == Catalog.Catalog(tables, runs, start.commits);
  }

  lemma WriteKilledAtCommit(g: Goal, at: nat)
    requires Shape(g) && Stages(g) && Seals(g)
    ensures WriteRun(g.start, g.sub.run, g.frames, at, KilledAtCommit()) == (Unmarked(g), Dead)
  {
    hide Stages, StageFrom, Seal, WriteRun;
    var script := KilledAtCommit();
    RetryStages(g, g.start, g.frames, script);
    assert g.Runs() == g.start.runs[g.Id() := g.sub.run];
    ManifestApplied(g.start.runs, g.sub.run);
    SealKilled(Unmarked(g), g.sub.run, at);
    WriteInSteps(g.start, g.sub.run, g.frames, at, script, g.Runs(), g.tables);
  }

  lemma KilledAtCommitLeavesUnmarked(g: Goal, at: nat)
    requires Shape(g) && Stages(g) && Seals(g)
    requires Resolve(None, g.start, g.sub) == Go(g.sub.run, g.frames)
    ensures Attempt(None, g.start, g.sub.(at := at), KilledAtCommit()) == (Unmarked(g), Dead)
  {
    ResolveIgnoresTime(g.start, g.sub, at);
    WriteKilledAtCommit(g, at);
    AttemptGoes(None, g.start, g.sub.(at := at), KilledAtCommit(), g.frames);
  }

  lemma {:induction false} PreflightPasses(tables: seq<TableLog>, run: Run, frames: seq<Option<Frame>>, t: nat, u: nat)
    requires |tables| == |frames| == |run.counts| == TABLE_COUNT && t <= u < TABLE_COUNT
    requires PreflightFrom(tables, run, frames, t) == None
    ensures IsIdentityTable(u) && run.counts[u] > 0 ==>
              frames[u].Some? && FrameKeys(u, frames[u].value) * CurrentRows(tables[u]).Keys == {}
    decreases |tables| - t
  {
    if t < u {
      PreflightPasses(tables, run, frames, t + 1, u);
    }
  }

  lemma MissingRowsAreMerged(t: nat, log: TableLog, run: RunId, expected: nat, frame: Option<Frame>)
    requires StageTable(t, log, run, expected, frame, Applied).1 == Done
    requires expected > 0 && RowCount(log, run) == 0
    ensures frame.Some?
            && StageTable(t, log, run, expected, frame, Applied).0 == MergeInsertOnly(t, log, frame.value, run)
  {
  }

  /** Staging an Identity frame makes its own keys collide with the table. */
  lemma StagedKeysCollide(plan: KeyPlan, t: nat, log: TableLog, run: RunId, frame: Frame)
    requires frame != [] && FrameKeys(t, frame) == plan(run, t)
    requires GoodRows(plan, t, CurrentRows(log)) && FrameKeys(t, frame) * CurrentRows(log).Keys == {}
    ensures RowCount(log, run) == 0
    ensures FrameKeys(t, frame) * CurrentRows(MergeInsertOnly(t, log, frame, run)).Keys != {}
  {
    var rows := CurrentRows(log);
    assert OwnedKeys(rows, run) <= FrameKeys(t, frame) * rows.Keys;
    MergeRowsInserts(t, rows, frame);
    assert KeyOf(t, frame[0]) in FrameKeys(t, frame);
    assert KeyOf(t, frame[0]) in FrameKeys(t, frame) * CurrentRows(MergeInsertOnly(t, log, frame, run)).Keys;
  }

  lemma StagedIdentityTableCollides(plan: KeyPlan, g: Goal, t: nat)
    requires Shape(g) && Stages(g) && t < TABLE_COUNT && g.sub.run.counts[t] > 0
    requires GoodRows(plan, t, CurrentRows(g.start.tables[t]))
    requires g.frames[t].Some? && FrameKeys(t, g.frames[t].value) == plan(g.Id(), t)
    requires FrameKeys(t, g.frames[t].value) * CurrentRows(g.start.tables[t]).Keys == {}
    ensures FrameKeys(t, g.frames[t].value) * CurrentRows(g.tables[t]).Keys != {}
  {
    assert PrepareTable(g.start.tables[t], g.sub, t, true) == Ok(g.frames[t]);
    assert |g.frames[t].value| == g.sub.run.counts[t];
    StagedKeysCollide(plan, t, g.start.tables[t], g.Id(), g.frames[t].value);
    MissingRowsAreMerged(t, g.start.tables[t], g.Id(), g.sub.run.counts[t], g.frames[t]);
  }

  lemma CollisionStops(catalog: Catalog, sub: Submission, frames: seq<Option<Frame>>, t: nat)
    requires |catalog.tables| == |frames| == |sub.run.counts| == TABLE_COUNT
    requires Admissible(None, sub) && IsIdentityTable(t) && sub.run.counts[t] > 0
    requires RunKey(sub.run) !in catalog.commits
             && (RunKey(sub.run) in catalog.runs ==> catalog.runs[RunKey(sub.run)] == sub.run)
    requires PrepareFrom(catalog.tables, sub, 0, true) == Ok(frames)
    requires frames[t].None? || FrameKeys(t, frames[t].value) * CurrentRows(catalog.tables[t]).Keys != {}
    ensures Resolve(None, catalog, sub).Stop? && Resolve(None, catalog, sub).outcome.Failed?
  {
    if PreflightFrom(catalog.tables, sub.run, frames, 0) == None {
      PreflightPasses(catalog.tables, sub.run, frames, 0, t);
    }
    assert CheckKeys(catalog, sub, sub.run, frames, false).Stop?;
    assert Resolve(None, catalog, sub) == CheckKeys(catalog, sub, sub.run, frames, false);
  }

  /** Every retry of the staged, unmarked run is refused before it writes anything. */
  lemma StagedIdentityRunIsStuck(g: Goal, at: nat, script: Script, t: nat)
    requires Shape(g) && Stages(g) && IsIdentityTable(t) && g.sub.run.counts[t] > 0
    requires g.frames[t].Some? && FrameKeys(t, g.frames[t].value) * CurrentRows(g.tables[t]).Keys != {}
    ensures Attempt(None, Unmarked(g), g.sub.(at := at), script).0 == Unmarked(g)
    ensures Attempt(None, Unmarked(g), g.sub.(at := at), script).1.Failed?
  {
    var now := Unmarked(g);
    ResolveIgnoresTime(now, g.sub, at);
    var frames := RetryPrepares(g, now);
    CollisionStops(now, g.sub, frames, t);
  }

  lemma PublisherPassesPreflight(start: Catalog, sub: Submission, frames: seq<Option<Frame>>, t: nat)
    requires WouldPublish(start, sub) && |frames| == |sub.run.counts| == TABLE_COUNT
    requires Resolve(None, start, sub) == Go(sub.run, frames)
    requires IsIdentityTable(t) && sub.run.counts[t] > 0
    ensures frames[t].Some? && FrameKeys(t, frames[t].value) * CurrentRows(start.tables[t]).Keys == {}
  {
    var same := ResolvedAsPrepared(start, sub);
    assert CheckKeys(start, sub, sub.run, frames, false).Go?;
    PreflightPasses(start.tables, sub.run, frames, 0, t);
  }

  /** The tables hold planned rows only, and the submission's frames carry the run's planned keys. */
  ghost predicate FollowsPlan(plan: KeyPlan, start: Catalog, sub: Submission) {
    && (forall t :: 0 <= t < |start.tables| ==> GoodRows(plan, t, CurrentRows(start.tables[t])))
    && CarriesPlan(plan, sub)
  }

  lemma IdentityGoalCollides(plan: KeyPlan, start: Catalog, sub: Submission, t: nat) returns (g: Goal)
    requires WouldPublish(start, sub) && FollowsPlan(plan, start, sub)
    requires |sub.run.counts| == TABLE_COUNT && IsIdentityTable(t) && sub.run.counts[t] > 0
    ensures g.start == start && g.sub == sub && Shape(g) && Stages(g) && Seals(g)
    ensures Resolve(None, start, sub) == Go(sub.run, g.frames)
    ensures g.frames[t].Some? && FrameKeys(t, g.frames[t].value) * CurrentRows(g.tables[t]).Keys != {}
  {
    hide Undisturbed, Shape, Seals, StageTable, Resolve;
    g := GoalOf(start, sub);
    GoalResolves(g);
    PublisherPassesPreflight(start, sub, g.frames, t);
    assert PrepareTable(start.tables[t], sub, t, true) == Ok(g.frames[t]);
    StagedIdentityTableCollides(plan, g, t);
  }

  /** With Identity rows, a crash between the last data table and the marker leaves a catalog in which every
      retry of the run, at any time and under any script, is refused and changes nothing. */
  lemma IdentityRunCanStick(plan: KeyPlan, start: Catalog, sub: Submission, t: nat, at: nat, later: nat, script: Script)
    returns (stuck: Catalog)
    requires WouldPublish(start, sub) && FollowsPlan(plan, start, sub)
    requires |sub.run.counts| == TABLE_COUNT && IsIdentityTable(t) && sub.run.counts[t] > 0
    ensures |stuck.tables| == TABLE_COUNT
    ensures Attempt(None, start, sub.(at := at), KilledAtCommit()) == (stuck, Dead)
    ensures Attempt(None, stuck, sub.(at := later), script).0 == stuck
    ensures Attempt(None, stuck, sub.(at := later), script).1.Failed?
  {
    var g := IdentityGoalCollides(plan, start, sub, t);
    KilledAtCommitLeavesUnmarked(g, at);
    StagedIdentityRunIsStuck(g, later, script, t);
    stuck := Unmarked(g);
  }

  lemma GoalResolves(g: Goal)
    requires WouldPublish(g.start, g.sub) && Shape(g) && Stages(g)
    ensures Resolve(None, g.start, g.sub) == Go(g.sub.run, g.frames)
  {
    PublisherResolves(g.start, g.sub);
    var frames := ResolvedAsPrepared(g.start, g.sub);
    PreparedTables(g.start.tables, g.sub, frames);
    assert forall t :: 0 <= t < TABLE_COUNT ==> Ok(frames[t]) == PrepareTable(g.start.tables[t], g.sub, t, true);
    assert frames == g.frames;
  }

  lemma StuckDoesNotRecover(start: Catalog, sub: Submission, at: nat, stuck: Catalog)
    requires |start.tables| == |stuck.tables| == TABLE_COUNT
    requires Attempt(None, start, sub.(at := at), KilledAtCommit()) == (stuck, Dead)
    requires Attempt(None, stuck, sub.(at := at), UNINTERRUPTED).1.Failed?
    ensures !Recovers(start, sub, [(at, KilledAtCommit())], at)
  {
    var history := [(at, KilledAtCommit())];
    assert history[1..] == [];
    assert Attempts(stuck, sub, history[1..]) == stuck;
    assert Attempts(start, sub, history) == stuck;
  }

  /** Without a generation, a run recovers from every sequence of crashes exactly when it writes no Identity rows. */
  lemma RecoversIffNoIdentityRows(plan: KeyPlan, start: Catalog, sub: Submission)
    requires WouldPublish(start, sub) && FollowsPlan(plan, start, sub)
    ensures (forall history, at :: Recovers(start, sub, history, at)) <==> WritesNoIdentityRows(sub.run)
  {
    if WritesNoIdentityRows(sub.run) {
      forall history, at
        ensures Recovers(start, sub, history, at)
      {
        var between, after, outcome := CrashResumeConverges(start, sub, history, at);
      }
    } else {
      PublisherHasCounts(start, sub);
      var t: nat :| t < TABLE_COUNT && IsIdentityTable(t) && sub.run.counts[t] != 0;
      var stuck := IdentityRunCanStick(plan, start, sub, t, sub.at, sub.at, UNINTERRUPTED);
      StuckDoesNotRecover(start, sub, sub.at, stuck);
      assert !Recovers(start, sub, [(sub.at, KilledAtCommit())], sub.at);
    }
  }

  lemma PublisherHasCounts(start: Catalog, sub: Submission)
    requires WouldPublish(start, sub)
    ensures |sub.run.counts| == TABLE_COUNT
  {
    PublisherResolves(start, sub);
    var frames := ResolvedAsPrepared(start, sub);
  }
}
