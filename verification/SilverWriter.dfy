/** `stage_and_commit` branch by branch, for one writer at a time.  `Attempt` says
    what one call does to the catalog; class `CommunityCatalogTables` does it. */
module SilverWriter {
  import opened Prelude
  import opened SilverStore

  // ---------------------------------------------------------------- inputs and outcomes

  /** What happens to one MERGE: the client may see an exception, or be killed, before or after it took effect. */
  datatype Fate = Applied | RaisedBefore | RaisedAfter | KilledBefore | KilledAfter {
    predicate TakesEffect() { Applied? || RaisedAfter? || KilledAfter? }
    predicate Kills() { KilledBefore? || KilledAfter? }
    predicate Raises() { RaisedBefore? || RaisedAfter? }
  }

  /** The fate of every MERGE that one attempt may issue. */
  datatype Script = Script(manifest: Fate, tables: nat -> Fate, commit: Fate)

  const UNINTERRUPTED := Script(Applied, (t: nat) => Applied, Applied)

  datatype Failure =
    | InvalidSubmission
    | CommitConflict
    | ManifestConflict
    | PartialRunState
    | MissingFrame
    | InvalidFrame
    | IdentityTablesNotEmpty
    | StaleHeads
    | ForeignOwner
    | KeyCollision
    | MergeRaised
    | PartialRows
    | SnapshotMismatch(error: SnapshotError)
    | NoRowsMerged
    | CountMismatch

  datatype Outcome = Published(commit: Commit) | Failed(failure: Failure) | Dead

  datatype Submission = Submission(
    run: Run,
    frames: map<nat, Frame>,
    factory: map<nat, Frame>,
    at: nat,
    mode: Option<IdentityMode>,
    heads: Option<seq<Option<nat>>>,
    pinned: Option<set<RunId>>)

  /** The argument checks of `stage_and_commit` and `_validate_identity_run_mapping`. */
  predicate Admissible(generation: Option<nat>, sub: Submission) {
    var run := sub.run;
    var identityRun := run.kind != SourceAssertions;
    && |run.counts| == TABLE_COUNT
    && (forall t :: t in sub.frames ==> t < TABLE_COUNT)
    && (sub.mode.Some? ==> run.kind == IdentityResolution && generation.Some? && run.mode == sub.mode)
    && run.generation == generation
    && (generation.Some? ==>
          && identityRun
          && (run.kind == IdentityResolution ==> sub.mode.Some?)
          && (forall t :: 0 <= t < SOURCE_TABLE_COUNT ==> run.counts[t] == 0)
          && (sub.mode == Some(Incremental) || run.kind == IdentityCuration ==> sub.heads.Some?)
          && (sub.mode == Some(Full) ==> sub.heads == None))
    && (sub.mode == Some(Incremental) <==> sub.pinned.Some?)
    && (sub.heads.Some? ==> |sub.heads.value| == TABLE_COUNT)
  }

  /** The caller's frames carry the keys that every submission of this run carries. */
  ghost predicate CarriesPlan(plan: KeyPlan, sub: Submission) {
    && (forall t :: t in sub.frames ==> FrameKeys(t, sub.frames[t]) == plan(RunKey(sub.run), t))
    && (forall t :: t in sub.factory ==> FrameKeys(t, sub.factory[t]) == plan(RunKey(sub.run), t))
  }

  // ---------------------------------------------------------------- checks on stored state

  /** `_verify_completed_table`. */
  function VerifyCompleted(log: TableLog, run: RunId, expected: nat): Result<bool, Failure> {
    var current := RowCount(log, run);
    if current == 0 then Ok(false)
    else if current != expected then Err(PartialRows)
    else
      var found := FindOwnedSnapshot(log, run, expected);
      if found.Err? then Err(SnapshotMismatch(found.error)) else Ok(true)
  }

  /** `_verify_no_snapshot_or_concurrent_winner`. */
  function VerifyNoSnapshot(log: TableLog, run: RunId, expected: nat): Result<bool, Failure> {
    var none := FindOwnedSnapshot(log, run, 0);
    if none.Ok? then Ok(false)
    else if expected > 0 && RowCount(log, run) == expected then
      var found := FindOwnedSnapshot(log, run, expected);
      if found.Err? then Err(SnapshotMismatch(found.error)) else Ok(true)
    else Err(SnapshotMismatch(none.error))
  }

  predicate HeadIsTagged(log: TableLog, run: RunId) {
    log != [] && log[|log| - 1].tag == run
  }

  /** `_assert_no_partial_run_state` passes. */
  predicate NoPartialState(tables: seq<TableLog>, run: RunId) {
    forall t :: 0 <= t < |tables| ==> RowCount(tables[t], run) == 0 && !HeadIsTagged(tables[t], run)
  }

  /** `_reuse_existing_commit`. */
  function ReuseCommit(catalog: Catalog, run: Run, existing: Commit): Outcome {
    if existing.run != RunKey(run) || existing.counts != run.counts then Failed(CommitConflict)
    else if RunKey(run) !in catalog.runs || catalog.runs[RunKey(run)] != run then Failed(ManifestConflict)
    else Published(existing)
  }

  // ---------------------------------------------------------------- preparing frames

  /** One table of `_prepare_dataframes`: the frame to stage, or None to stage nothing. */
  function PrepareTable(log: TableLog, sub: Submission, t: nat, allowReuse: bool): Result<Option<Frame>, Failure>
    requires t < |sub.run.counts|
  {
    var run := RunKey(sub.run);
    var expected := sub.run.counts[t];
    if t in sub.frames then
      if ValidFrame(t, run, expected, sub.frames[t]) then Ok(Some(sub.frames[t])) else Err(InvalidFrame)
    else if expected == 0 then Ok(None)
    else
      var reuse :- if allowReuse then VerifyCompleted(log, run, expected) else Ok(false);
      if reuse then Ok(None)
      else if t !in sub.factory then Err(MissingFrame)
      else if ValidFrame(t, run, expected, sub.factory[t]) then Ok(Some(sub.factory[t]))
      else Err(InvalidFrame)
  }

  /** `_prepare_dataframes` from table `t` on. */
  function PrepareFrom(tables: seq<TableLog>, sub: Submission, t: nat,
                       allowReuse: bool): Result<seq<Option<Frame>>, Failure>
    requires t <= TABLE_COUNT == |tables| == |sub.run.counts|
    decreases |tables| - t
  {
    if t == TABLE_COUNT then Ok([])
    else
      var frame :- PrepareTable(tables[t], sub, t, allowReuse);
      var rest :- PrepareFrom(tables, sub, t + 1, allowReuse);
      Ok([frame] + rest)
  }

  // ---------------------------------------------------------------- incremental key strip

  /** Incoming keys of `t` that a run of the pinned lineage already owns. */
  function ReusableKeys(rows: RowMap, t: nat, frame: Frame, pinned: set<RunId>): set<MergeKey> {
    set k | k in FrameKeys(t, frame) && k in rows && rows[k].owner in pinned
  }

  predicate HasForeignOwner(rows: RowMap, t: nat, frame: Frame, pinned: set<RunId>) {
    exists k :: k in FrameKeys(t, frame) && k in rows && rows[k].owner !in pinned
  }

  /** The left-anti join that drops reusable keys. */
  function DropKeys(t: nat, frame: Frame, keys: set<MergeKey>): Frame {
    if frame == [] then []
    else (if KeyOf(t, frame[0]) in keys then [] else [frame[0]]) + DropKeys(t, frame[1..], keys)
  }

  /** The frame of table `t` after the strip; tables the strip does not visit keep theirs. */
  function StrippedFrame(log: TableLog, run: Run, t: nat, frame: Option<Frame>, pinned: set<RunId>): Option<Frame>
    requires t < |run.counts|
  {
    if IsIdentityTable(t) && run.counts[t] > 0 && frame.Some?
    then Some(DropKeys(t, frame.value, ReusableKeys(CurrentRows(log), t, frame.value, pinned)))
    else frame
  }

  function StrippedCount(run: Run, t: nat, stripped: Option<Frame>): nat
    requires t < |run.counts|
  {
    if IsIdentityTable(t) && run.counts[t] > 0 && stripped.Some? then |stripped.value| else run.counts[t]
  }

  function Reowned(frame: Frame, owner: RunId): Frame {
    seq(|frame|, i requires 0 <= i < |frame| => frame[i].(owner := owner))
  }

  datatype Stripped = Stripped(run: Run, frames: seq<Option<Frame>>, foreign: bool)

  /** Every counted Identity table has a frame; otherwise the strip raises. */
  predicate CoversIdentity(run: Run, frames: seq<Option<Frame>>)
    requires |frames| == |run.counts| == TABLE_COUNT
  {
    forall t :: 0 <= t < TABLE_COUNT && IsIdentityTable(t) && run.counts[t] > 0 ==> frames[t].Some?
  }

  /** `_strip_existing_identity_keys`, for frames that cover every counted Identity table. */
  function StripIdentityKeys(tables: seq<TableLog>, run: Run, frames: seq<Option<Frame>>,
                             pinned: set<RunId>): (s: Stripped)
    requires |tables| == |frames| == |run.counts| == TABLE_COUNT
    ensures |s.frames| == |s.run.counts| == TABLE_COUNT
  {
    var kept := seq(TABLE_COUNT,
                    t requires 0 <= t < TABLE_COUNT => StrippedFrame(tables[t], run, t, frames[t], pinned));
    var counts := seq(TABLE_COUNT, t requires 0 <= t < TABLE_COUNT => StrippedCount(run, t, kept[t]));
    var foreign := exists t :: 0 <= t < TABLE_COUNT && IsIdentityTable(t) && run.counts[t] > 0 && frames[t].Some?
                                && HasForeignOwner(CurrentRows(tables[t]), t, frames[t].value, pinned);
    if counts == run.counts then Stripped(run, frames, foreign)
    else
      var rebuilt := run.(counts := counts);
      Stripped(rebuilt,
               seq(TABLE_COUNT, t requires 0 <= t < TABLE_COUNT =>
                 if kept[t].Some? then Some(Reowned(kept[t].value, RunKey(rebuilt))) else None),
               foreign)
  }

  /** `_preflight_identity_keys`: the first reason to refuse, if any. */
  function PreflightFrom(tables: seq<TableLog>, run: Run, frames: seq<Option<Frame>>, t: nat): Option<Failure>
    requires |tables| == |frames| == |run.counts| == TABLE_COUNT && t <= TABLE_COUNT
    decreases |tables| - t
  {
    if t == TABLE_COUNT then None
    else if !IsIdentityTable(t) || run.counts[t] == 0 then PreflightFrom(tables, run, frames, t + 1)
    else if frames[t] == None then Some(MissingFrame)
    else if FrameKeys(t, frames[t].value) * CurrentRows(tables[t]).Keys != {} then Some(KeyCollision)
    else PreflightFrom(tables, run, frames, t + 1)
  }

  predicate IdentityTablesEmpty(tables: seq<TableLog>) {
    forall t :: 0 <= t < |tables| && IsIdentityTable(t) ==> tables[t] == []
  }

  predicate HeadsCurrent(tables: seq<TableLog>, heads: seq<Option<nat>>) {
    |heads| == |tables| && forall t :: 0 <= t < |tables| && IsIdentityTable(t) ==>
        LatestSnapshotId(tables[t]) == heads[t]
  }

  // ---------------------------------------------------------------- everything before the first write

  datatype Resolution = Stop(outcome: Outcome) | Go(run: Run, frames: seq<Option<Frame>>)

  /** Commit lookup and state checks for one run ID: a reason to stop, if any. */
  function CheckRun(generation: Option<nat>, catalog: Catalog, run: Run): Option<Outcome> {
    var r := RunKey(run);
    if r in catalog.commits then Some(ReuseCommit(catalog, run, catalog.commits[r]))
    else if generation.Some? && !NoPartialState(catalog.tables, r) then Some(Failed(PartialRunState))
    else if r in catalog.runs && catalog.runs[r] != run then Some(Failed(ManifestConflict))
    else None
  }

  /** Head check, foreign-owner check and key preflight, in the source's order. */
  function CheckKeys(catalog: Catalog, sub: Submission, run: Run, frames: seq<Option<Frame>>,
                     foreign: bool): (r: Resolution)
    requires |catalog.tables| == |frames| == |run.counts| == TABLE_COUNT
    ensures r.Go? ==> r.run == run && r.frames == frames
  {
    if sub.heads.Some? && !HeadsCurrent(catalog.tables, sub.heads.value) then Stop(Failed(StaleHeads))
    else if foreign then Stop(Failed(ForeignOwner))
    else
      var refused := PreflightFrom(catalog.tables, run, frames, 0);
      if refused.Some? then Stop(Failed(refused.value)) else Go(run, frames)
  }

  lemma {:induction false} PreparedLength(tables: seq<TableLog>, sub: Submission, t: nat, allowReuse: bool)
    requires t <= TABLE_COUNT == |tables| == |sub.run.counts|
    requires PrepareFrom(tables, sub, t, allowReuse).Ok?
    ensures |PrepareFrom(tables, sub, t, allowReuse).value| == TABLE_COUNT - t
    ensures forall u :: t <= u < TABLE_COUNT ==>
                          PrepareTable(tables[u], sub, u, allowReuse)
                              == Ok(PrepareFrom(tables, sub, t, allowReuse).value[u - t])
    decreases |tables| - t
  {
    if t < TABLE_COUNT {
      PreparedLength(tables, sub, t + 1, allowReuse);
    }
  }

  function Resolve(generation: Option<nat>, catalog: Catalog, sub: Submission): (r: Resolution)
    requires |catalog.tables| == TABLE_COUNT
    ensures r.Go? ==> |r.frames| == |r.run.counts| == TABLE_COUNT
  {
    if !Admissible(generation, sub) then Stop(Failed(InvalidSubmission))
    else
      var stop := CheckRun(generation, catalog, sub.run);
      if stop.Some? then Stop(stop.value)
      else
        var prepared := PrepareFrom(catalog.tables, sub, 0, generation.None?);
        if prepared.Err? then Stop(Failed(prepared.error))
        else
          PreparedLength(catalog.tables, sub, 0, generation.None?);
          if sub.mode == Some(Full) && !IdentityTablesEmpty(catalog.tables) then Stop(Failed(IdentityTablesNotEmpty))
          else if sub.mode != Some(Incremental) then CheckKeys(catalog, sub, sub.run, prepared.value, false)
          else if !CoversIdentity(sub.run, prepared.value) then Stop(Failed(MissingFrame))
          else
            var stripped := StripIdentityKeys(catalog.tables, sub.run, prepared.value, sub.pinned.value);
            var again := if stripped.run == sub.run then None else CheckRun(generation, catalog, stripped.run);
            if again.Some? then Stop(again.value)
            else CheckKeys(catalog, sub, stripped.run, stripped.frames, stripped.foreign)
  }

  // ---------------------------------------------------------------- the writes

  datatype Progress = Done | Refused(failure: Failure) | Gone

  /** `_stage_data_table`: the table's log afterwards, and how the call ended. */
  function StageTable(t: nat, log: TableLog, run: RunId, expected: nat, frame: Option<Frame>,
                      fate: Fate): (TableLog, Progress) {
    var completed := VerifyCompleted(log, run, expected);
    if completed.Err? then (log, Refused(completed.error))
    else if completed.value then (log, Done)
    else
      var winner := VerifyNoSnapshot(log, run, expected);
      if winner.Err? then (log, Refused(winner.error))
      else if winner.value then (log, Done)
      else if frame.None? then (log, if expected > 0 then Refused(MissingFrame) else Done)
      else if expected == 0 then (log, Done)
      else
        var merged := if fate.TakesEffect() then MergeInsertOnly(t, log, frame.value, run) else log;
        if fate.Kills() then (merged, Gone)
        else
          var verified := VerifyCompleted(merged, run, expected);
          if verified.Err? then (merged, Refused(verified.error))
          else if verified.value then (merged, Done)
          else (merged, Refused(if fate.Raises() then MergeRaised else NoRowsMerged))
  }

  /** A MERGE's own exception is reported only if the client saw one, and a MERGE without effect only if it saw none. */
  lemma StageFailure(t: nat, log: TableLog, run: RunId, expected: nat, frame: Option<Frame>, fate: Fate)
    ensures var progress := StageTable(t, log, run, expected, frame, fate).1;
            && (progress == Refused(MergeRaised) ==> fate == RaisedBefore || fate == RaisedAfter)
            && (progress == Refused(NoRowsMerged) ==> fate == Applied)
  {
    hide FindOwnedSnapshot, RowCount, MergeInsertOnly;
  }

  /** The staging loop from table `t` on. */
  function StageFrom(tables: seq<TableLog>, run: Run, frames: seq<Option<Frame>>, script: Script,
                     t: nat): (seq<TableLog>, Progress)
    requires |tables| == |frames| == |run.counts| == TABLE_COUNT && t <= TABLE_COUNT
    decreases |tables| - t
  {
    if t == TABLE_COUNT then (tables, Done)
    else
      var (log, progress) := StageTable(t, tables[t], RunKey(run), run.counts[t], frames[t], script.tables(t));
      if progress == Done then StageFrom(tables[t := log], run, frames, script, t + 1)
      else (tables[t := log], progress)
  }

  lemma {:induction false} StageFromLength(tables: seq<TableLog>, run: Run, frames: seq<Option<Frame>>, script: Script,
                                           t: nat)
    requires |tables| == |frames| == |run.counts| == TABLE_COUNT && t <= TABLE_COUNT
    ensures |StageFrom(tables, run, frames, script, t).0| == TABLE_COUNT
    decreases |tables| - t
  {
    if t < TABLE_COUNT {
      var (log, progress) := StageTable(t, tables[t], RunKey(run), run.counts[t], frames[t], script.tables(t));
      if progress == Done {
        StageFromLength(tables[t := log], run, frames, script, t + 1);
      }
    }
  }

  /** The loop stages each table on its own: what it does to table `u` depends on table `u` alone. */
  lemma {:induction false} StageFromAt(tables: seq<TableLog>, run: Run, frames: seq<Option<Frame>>, script: Script,
                                       t: nat, u: nat)
    requires |tables| == |frames| == |run.counts| == TABLE_COUNT && t <= TABLE_COUNT && u < TABLE_COUNT
    ensures var (after, progress) := StageFrom(tables, run, frames, script, t);
            var (log, ended) := StageTable(u, tables[u], RunKey(run), run.counts[u], frames[u], script.tables(u));
            && |after| == TABLE_COUNT
            && (after[u] == tables[u] || (t <= u && after[u] == log))
            && (progress == Done && t <= u ==> after[u] == log && ended == Done)
    decreases |tables| - t
  {
    hide StageTable;
    if t < TABLE_COUNT {
      var (log, progress) := StageTable(t, tables[t], RunKey(run), run.counts[t], frames[t], script.tables(t));
      if progress == Done {
        StageFromAt(tables[t := log], run, frames, script, t + 1, u);
      }
    }
  }

  lemma {:induction false} StageFromPointwise(tables: seq<TableLog>, run: Run, frames: seq<Option<Frame>>,
                                              script: Script)
    requires |tables| == |frames| == |run.counts| == TABLE_COUNT
    ensures var (after, progress) := StageFrom(tables, run, frames, script, 0);
            && |after| == TABLE_COUNT
            && (forall u :: 0 <= u < TABLE_COUNT ==>
                  var (log, ended) := StageTable(u, tables[u], RunKey(run), run.counts[u], frames[u], script.tables(u));
                  && (after[u] == tables[u] || after[u] == log)
                  && (progress == Done ==> after[u] == log && ended == Done))
  {
    StageFromLength(tables, run, frames, script, 0);
    var (after, progress) := StageFrom(tables, run, frames, script, 0);
    forall u | 0 <= u < TABLE_COUNT
      ensures var (log, ended) := StageTable(u, tables[u], RunKey(run), run.counts[u], frames[u], script.tables(u));
              && (after[u] == tables[u] || after[u] == log)
              && (progress == Done ==> after[u] == log && ended == Done)
    {
      StageFromAt(tables, run, frames, script, 0, u);
    }
  }

  /** `_ensure_run_manifest`. */
  function EnsureManifest(runs: map<RunId, Run>, run: Run, fate: Fate): (map<RunId, Run>, Progress) {
    var r := RunKey(run);
    if r in runs then (runs, if runs[r] == run then Done else Refused(ManifestConflict))
    else
      var merged := if fate.TakesEffect() then runs[r := run] else runs;
      if fate.Kills() then (merged, Gone)
      else (merged, if fate.TakesEffect() then Done else Refused(MergeRaised))
  }

  function RowCounts(tables: seq<TableLog>, run: RunId): seq<nat> {
    seq(|tables|, t requires 0 <= t < |tables| => RowCount(tables[t], run))
  }

  /** The snapshot IDs that the commit records, table by table. */
  function PinsFrom(tables: seq<TableLog>, run: RunId, counts: seq<nat>, t: nat): Result<seq<Option<nat>>, Failure>
    requires t <= |tables| == |counts|
    decreases |tables| - t
  {
    if t == |tables| then Ok([])
    else
      var found := FindOwnedSnapshot(tables[t], run, counts[t]);
      if found.Err? then Err(SnapshotMismatch(found.error))
      else
        var rest :- PinsFrom(tables, run, counts, t + 1);
        Ok([found.value] + rest)
  }

  /** Each recorded snapshot ID is the one the owned-snapshot check found. */
  lemma {:induction false} PinsAreFound(tables: seq<TableLog>, run: RunId, counts: seq<nat>, t: nat)
    requires t <= |tables| == |counts| && PinsFrom(tables, run, counts, t).Ok?
    ensures var pins := PinsFrom(tables, run, counts, t).value;
            |pins| == |tables| - t && forall u :: t <= u < |tables| ==>
                FindOwnedSnapshot(tables[u], run, counts[u]) == Ok(pins[u - t])
    decreases |tables| - t
  {
    hide FindOwnedSnapshot;
    if t < |tables| {
      PinsAreFound(tables, run, counts, t + 1);
    }
  }

  /** The marker says of every table what is stored: as many rows of the run as declared, and the one snapshot that
      added them. */
  ghost predicate CompleteFor(tables: seq<TableLog>, commit: Commit, run: Run) {
    && |tables| == |run.counts| == |commit.snapshots| == TABLE_COUNT
    && commit.run == RunKey(run) && commit.counts == run.counts
    && forall t :: 0 <= t < TABLE_COUNT ==>
                     && RowCount(tables[t], RunKey(run)) == run.counts[t]
                     && FindOwnedSnapshot(tables[t], RunKey(run), run.counts[t]) == Ok(commit.snapshots[t])
  }

  lemma MarkerIsComplete(tables: seq<TableLog>, run: Run, at: nat, counts: seq<nat>, pins: seq<Option<nat>>)
    requires |tables| == |run.counts| == TABLE_COUNT
    requires counts == RowCounts(tables, RunKey(run)) && counts == run.counts
    requires PinsFrom(tables, RunKey(run), counts, 0) == Ok(pins)
    ensures CompleteFor(tables, Commit(RunKey(run), at, counts, pins), run)
  {
    hide FindOwnedSnapshot, RowCount;
    PinsAreFound(tables, RunKey(run), counts, 0);
    forall t | 0 <= t < TABLE_COUNT
      ensures RowCount(tables[t], RunKey(run)) == run.counts[t]
      ensures FindOwnedSnapshot(tables[t], RunKey(run), run.counts[t]) == Ok(pins[t])
    {
      assert counts[t] == RowCounts(tables, RunKey(run))[t];
      assert Ok(pins[t - 0]) == FindOwnedSnapshot(tables[t], RunKey(run), counts[t]);
    }
  }

  /** Counting, pinning and the commit MERGE. */
  function Seal(catalog: Catalog, run: Run, at: nat, fate: Fate): (Catalog, Outcome)
    requires |catalog.tables| == |run.counts| == TABLE_COUNT
  {
    var r := RunKey(run);
    var counts := RowCounts(catalog.tables, r);
    if counts != run.counts then (catalog, Failed(CountMismatch))
    else
      var pins := PinsFrom(catalog.tables, r, counts, 0);
      if pins.Err? then (catalog, Failed(pins.error))
      else
        var commit := Commit(r, at, counts, pins.value);
        var sealed := if fate.TakesEffect() && r !in catalog.commits
                      then catalog.(commits := catalog.commits[r := commit]) else catalog;
        if fate.Kills() then (sealed, Dead)
        else if r !in sealed.commits then (sealed, Failed(MergeRaised))
        else if fate.Applied? && sealed.commits[r] == commit then (sealed, Published(commit))
        else (sealed, ReuseCommit(sealed, run, sealed.commits[r]))
  }

  function EndOf(progress: Progress): Outcome
    requires progress != Done
  {
    if progress.Gone? then Dead else Failed(progress.failure)
  }

  /** Manifest, data tables, commit: the order that makes the marker last. */
  function WriteRun(catalog: Catalog, run: Run, frames: seq<Option<Frame>>, at: nat, script: Script): (Catalog, Outcome)
    requires |catalog.tables| == |frames| == |run.counts| == TABLE_COUNT
  {
    var (runs, declared) := EnsureManifest(catalog.runs, run, script.manifest);
    var withManifest := catalog.(runs := runs);
    if declared != Done then (withManifest, EndOf(declared))
    else
      var (tables, staged) := StageFrom(catalog.tables, run, frames, script, 0);
      StageFromLength(catalog.tables, run, frames, script, 0);
      var withTables := withManifest.(tables := tables);
      if staged != Done then (withTables, EndOf(staged))
      else Seal(withTables, run, at, script.commit)
  }

  /** One call of `stage_and_commit`. */
  function Attempt(generation: Option<nat>, catalog: Catalog, sub: Submission, script: Script): (Catalog, Outcome)
    requires |catalog.tables| == TABLE_COUNT
  {
    var resolution := Resolve(generation, catalog, sub);
    if resolution.Stop? then (catalog, resolution.outcome)
    else WriteRun(catalog, resolution.run, resolution.frames, sub.at, script)
  }

  lemma WriteKeepsTableCount(catalog: Catalog, run: Run, frames: seq<Option<Frame>>, at: nat, script: Script)
    requires |catalog.tables| == |frames| == |run.counts| == TABLE_COUNT
    ensures |WriteRun(catalog, run, frames, at, script).0.tables| == TABLE_COUNT
  {
    hide StageFrom;
    StageFromLength(catalog.tables, run, frames, script, 0);
  }

  lemma AttemptKeepsTableCount(generation: Option<nat>, catalog: Catalog, sub: Submission, script: Script)
    requires |catalog.tables| == TABLE_COUNT
    ensures |Attempt(generation, catalog, sub, script).0.tables| == TABLE_COUNT
  {
    var resolution := Resolve(generation, catalog, sub);
    if resolution.Go? {
      WriteKeepsTableCount(catalog, resolution.run, resolution.frames, sub.at, script);
    }
  }
}
