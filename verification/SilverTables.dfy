/** The writer object: its methods update the catalog step by step, and each is
    proved to do what the corresponding function of `SilverWriter` says. */
module SilverTables {
  import opened Prelude
  import opened SilverStore
  import opened SilverWriter

  class CommunityCatalogTables {
    const generation: Option<nat>
    var tables: seq<TableLog>
    var runs: map<RunId, Run>
    var commits: map<RunId, Commit>

    ghost predicate Valid()
      reads this
    {
      |tables| == TABLE_COUNT
    }

    function View(): Catalog
      reads this
    {
      Catalog(tables, runs, commits)
    }

    constructor (generation: Option<nat>)
      ensures Valid() && this.generation == generation && View() == EMPTY_CATALOG
    {
      this.generation := generation;
      tables := EMPTY_CATALOG.tables;
      runs := map[];
      commits := map[];
    }

    /** Insert the rows whose key is new, one snapshot for the whole frame. */
    method InsertNewRows(t: nat, frame: Frame, tag: RunId) returns (rowCount: nat)
      requires Valid() && t < TABLE_COUNT
      modifies this`tables
      ensures Valid()
      ensures tables == old(tables)[t := MergeInsertOnly(t, old(tables)[t], frame, tag)]
      ensures rowCount == |FrameKeys(t, frame)|
    {
      rowCount := |FrameKeys(t, frame)|;
      if frame == [] {
        assert tables[t := tables[t]] == tables;
        return;
      }
      var rows := CurrentRows(tables[t]);
      var i := 0;
      while i < |frame|
        invariant 0 <= i <= |frame|
        invariant MergeRows(t, rows, frame[i..]) == MergeRows(t, CurrentRows(tables[t]), frame)
      {
        var key := KeyOf(t, frame[i]);
        assert frame[i..][1..] == frame[i + 1..];
        if key !in rows {
          rows := rows[key := frame[i]];
        }
        i := i + 1;
      }
      tables := tables[t := tables[t] + [Snapshot(tag, rows)]];
    }

    /** Materialise and validate every frame before the first MERGE. */
    method PrepareDataframes(sub: Submission) returns (prepared: Result<seq<Option<Frame>>, Failure>)
      requires Valid() && |sub.run.counts| == TABLE_COUNT
      ensures prepared == PrepareFrom(tables, sub, 0, generation.None?)
    {
      var frames: seq<Option<Frame>> := [];
      var t := 0;
      ghost var whole := PrepareFrom(tables, sub, 0, generation.None?);
      assert whole.Ok? ==> frames + whole.value == whole.value;
      while t < TABLE_COUNT
        invariant 0 <= t <= TABLE_COUNT == |sub.run.counts| && |frames| == t
        invariant var rest := PrepareFrom(tables, sub, t, generation.None?);
                  whole == if rest.Ok? then Ok(frames + rest.value) else rest
      {
        var frame := PrepareTable(tables[t], sub, t, generation.None?);
        if frame.Err? {
          return Err(frame.error);
        }
        ghost var rest := PrepareFrom(tables, sub, t + 1, generation.None?);
        assert rest.Ok? ==> frames + ([frame.value] + rest.value) == frames + [frame.value] + rest.value;
        frames := frames + [frame.value];
        t := t + 1;
      }
      assert frames + [] == frames;
      return Ok(frames);
    }

    /** Drop rows owned by the pinned lineage, then rebuild the run around the new counts. */
    method StripExistingIdentityKeys(run: Run, frames: seq<Option<Frame>>, pinned: set<RunId>) 
      returns (s: Result<Stripped, Failure>)
      requires Valid() && |frames| == |run.counts| == TABLE_COUNT
      ensures s == if CoversIdentity(run, frames) then Ok(StripIdentityKeys(tables, run, frames, pinned))
                else Err(MissingFrame)
    {
      var prepared, counts, foreign, changed := frames, run.counts, false, false;
      var t := SOURCE_TABLE_COUNT;
      while t < TABLE_COUNT
        invariant SOURCE_TABLE_COUNT <= t <= TABLE_COUNT
        invariant forall u :: 0 <= u < t && IsIdentityTable(u) && run.counts[u] > 0 ==> frames[u].Some?
        invariant |prepared| == |counts| == TABLE_COUNT
        invariant forall u :: 0 <= u < TABLE_COUNT ==>
                                prepared[u] == if u < t then StrippedFrame(tables[u], run, u, frames[u], pinned)
                                    else frames[u]
        invariant forall u :: 0 <= u < TABLE_COUNT ==>
                                counts[u] == if u < t then StrippedCount(run, u, prepared[u]) else run.counts[u]
        invariant changed <==> exists u :: 0 <= u < t && counts[u] != run.counts[u]
        invariant foreign <==> exists u :: 0 <= u < t && IsIdentityTable(u) && run.counts[u] > 0 && frames[u].Some?
                                            && HasForeignOwner(CurrentRows(tables[u]), u, frames[u].value, pinned)
      {
        if run.counts[t] > 0 {
          if frames[t].None? {
            return Err(MissingFrame);
          }
          var frame := frames[t].value;
          var rows := CurrentRows(tables[t]);
          if HasForeignOwner(rows, t, frame, pinned) {
            foreign := true;
          }
          var filtered := DropKeys(t, frame, ReusableKeys(rows, t, frame, pinned));
          changed := changed || |filtered| != counts[t];
          prepared := prepared[t := Some(filtered)];
          counts := counts[t := |filtered|];
        }
        t := t + 1;
      }
      ghost var logs := tables;
      ghost var kept :=
          seq(TABLE_COUNT, u requires 0 <= u < TABLE_COUNT => StrippedFrame(logs[u], run, u, frames[u], pinned));
      assert prepared == kept;
      assert counts == seq(TABLE_COUNT, u requires 0 <= u < TABLE_COUNT => StrippedCount(run, u, kept[u]));
      if !changed {
        assert counts == run.counts;
        return Ok(Stripped(run, frames, foreign));
      }
      var rebuilt := run.(counts := counts);
      var reowned := seq(TABLE_COUNT, u requires 0 <= u < TABLE_COUNT =>
        if prepared[u].Some? then Some(Reowned(prepared[u].value, RunKey(rebuilt))) else None);
      assert counts != run.counts;
      return Ok(Stripped(rebuilt, reowned, foreign));
    }

    /** Refuse a logical-key collision before any table is written. */
    method PreflightIdentityKeys(run: Run, frames: seq<Option<Frame>>) returns (refused: Option<Failure>)
      requires Valid() && |frames| == |run.counts| == TABLE_COUNT
      ensures refused == PreflightFrom(tables, run, frames, 0)
    {
      var t := 0;
      while t < TABLE_COUNT
        invariant 0 <= t <= TABLE_COUNT
        invariant PreflightFrom(tables, run, frames, 0) == PreflightFrom(tables, run, frames, t)
      {
        if IsIdentityTable(t) && run.counts[t] > 0 {
          if frames[t] == None {
            return Some(MissingFrame);
          }
          if FrameKeys(t, frames[t].value) * CurrentRows(tables[t]).Keys != {} {
            return Some(KeyCollision);
          }
        }
        t := t + 1;
      }
      return None;
    }

    /** Write one missing run table or verify an already complete write. */
    method StageDataTable(t: nat, run: Run, frame: Option<Frame>, fate: Fate) returns (progress: Progress)
      requires Valid() && t < TABLE_COUNT == |run.counts|
      modifies this`tables
      ensures Valid()
      ensures var (log, p) := StageTable(t, old(tables)[t], RunKey(run), run.counts[t], frame, fate);
              tables == old(tables)[t := log] && progress == p
    {
      var r, expected := RunKey(run), run.counts[t];
      assert tables[t := tables[t]] == tables;
      var round := 0;
      // The same two checks run twice: once at entry, once immediately before the MERGE.
      while round < 2
        invariant 0 <= round <= 2 && tables == old(tables)
        invariant round > 0 ==> VerifyCompleted(tables[t], r, expected) == Ok(false)
        invariant round > 0 ==> VerifyNoSnapshot(tables[t], r, expected) == Ok(false)
        invariant round > 0 ==> frame.Some?
      {
        var completed := VerifyCompleted(tables[t], r, expected);
        if completed.Err? {
          return Refused(completed.error);
        }
        if completed.value {
          return Done;
        }
        var winner := VerifyNoSnapshot(tables[t], r, expected);
        if winner.Err? {
          return Refused(winner.error);
        }
        if winner.value {
          return Done;
        }
        if frame.None? {
          return if expected > 0 then Refused(MissingFrame) else Done;
        }
        round := round + 1;
      }
      if expected == 0 {
        return Done;
      }
      if fate.TakesEffect() {
        var _ := InsertNewRows(t, frame.value, r);
      }
      if fate.Kills() {
        return Gone;
      }
      var verified := VerifyCompleted(tables[t], r, expected);
      if verified.Err? {
        return Refused(verified.error);
      }
      return if verified.value then Done else Refused(if fate.Raises() then MergeRaised else NoRowsMerged);
    }

    /** Store the manifest once; a manifest under this key is never replaced, and no other is touched. */
    method EnsureRunManifest(run: Run, fate: Fate) returns (progress: Progress)
      modifies this`runs
      ensures (runs, progress) == EnsureManifest(old(runs), run, fate)
      ensures forall r :: r != RunKey(run) ==>
                (r in runs <==> r in old(runs)) && (r in runs ==> runs[r] == old(runs)[r])
      ensures RunKey(run) in old(runs) ==> runs == old(runs)
      ensures RunKey(run) in runs && RunKey(run) !in old(runs) ==> runs[RunKey(run)] == run && fate.TakesEffect()
      ensures progress == Refused(ManifestConflict) <==> RunKey(run) in old(runs) && old(runs)[RunKey(run)] != run
      ensures progress == Done ==> RunKey(run) in runs && runs[RunKey(run)] == run
    {
      var r := RunKey(run);
      if r in runs {
        return if runs[r] == run then Done else Refused(ManifestConflict);
      }
      if fate.TakesEffect() {
        runs := runs[r := run];
      }
      if fate.Kills() {
        return Gone;
      }
      return if r in runs then Done else Refused(MergeRaised);
    }

    /** Count, pin and publish the marker. */
    method SealRun(run: Run, at: nat, fate: Fate) returns (outcome: Outcome)
      requires Valid() && |run.counts| == TABLE_COUNT
      modifies this`commits
      ensures (View(), outcome) == Seal(old(View()), run, at, fate)
      ensures commits == old(commits)
              || (&& RunKey(run) !in old(commits) && RunKey(run) in commits
                  && commits == old(commits)[RunKey(run) := commits[RunKey(run)]]
                  && CompleteFor(tables, commits[RunKey(run)], run))
      ensures outcome.Published? ==> RunKey(run) in commits && outcome.commit == commits[RunKey(run)]
    {
      hide RowCounts, PinsFrom, CompleteFor;
      var r := RunKey(run);
      var counts := RowCounts(tables, r);
      if counts != run.counts {
        return Failed(CountMismatch);
      }
      var pins := PinsFrom(tables, r, counts, 0);
      if pins.Err? {
        return Failed(pins.error);
      }
      var commit := Commit(r, at, counts, pins.value);
      MarkerIsComplete(tables, run, at, counts, pins.value);
      if fate.TakesEffect() && r !in commits {
        commits := commits[r := commit];
      }
      if fate.Kills() {
        return Dead;
      }
      if r !in commits {
        return Failed(MergeRaised);
      }
      if fate.Applied? && commits[r] == commit {
        return Published(commit);
      }
      return ReuseCommit(View(), run, commits[r]);
    }

    /** Manifest, then every table, then the marker. */
    method WriteAll(run: Run, frames: seq<Option<Frame>>, at: nat, script: Script) returns (outcome: Outcome)
      requires Valid() && |frames| == |run.counts| == TABLE_COUNT
      modifies this
      ensures Valid()
      ensures (View(), outcome) == WriteRun(old(View()), run, frames, at, script)
    {
      var declared := EnsureRunManifest(run, script.manifest);
      if declared != Done {
        return EndOf(declared);
      }
      var t := 0;
      ghost var initial := tables;
      while t < TABLE_COUNT
        invariant Valid() && 0 <= t <= TABLE_COUNT
        invariant commits == old(commits) && runs == EnsureManifest(old(runs), run, script.manifest).0
        invariant StageFrom(initial, run, frames, script, 0) == StageFrom(tables, run, frames, script, t)
      {
        var staged := StageDataTable(t, run, frames[t], script.tables(t));
        if staged != Done {
          return EndOf(staged);
        }
        t := t + 1;
      }
      outcome := SealRun(run, at, script.commit);
    }

    /** Stage all rows and publish one immutable run commit last. */
    method StageAndCommit(sub: Submission, script: Script) returns (outcome: Outcome)
      requires Valid()
      modifies this
      ensures Valid()
      ensures (View(), outcome) == Attempt(generation, old(View()), sub, script)
    {
      if !Admissible(generation, sub) {
        return Failed(InvalidSubmission);
      }
      var stop := CheckRun(generation, View(), sub.run);
      if stop.Some? {
        return stop.value;
      }
      var prepared := PrepareDataframes(sub);
      if prepared.Err? {
        return Failed(prepared.error);
      }
      PreparedLength(tables, sub, 0, generation.None?);
      var run, frames, foreign := sub.run, prepared.value, false;
      if sub.mode == Some(Full) && !IdentityTablesEmpty(tables) {
        return Failed(IdentityTablesNotEmpty);
      }
      if sub.mode == Some(Incremental) {
        var stripped := StripExistingIdentityKeys(run, frames, sub.pinned.value);
        if stripped.Err? {
          return Failed(stripped.error);
        }
        run, frames, foreign := stripped.value.run, stripped.value.frames, stripped.value.foreign;
        if run != sub.run {
          stop := CheckRun(generation, View(), run);
          if stop.Some? {
            return stop.value;
          }
        }
      }
      if sub.heads.Some? && !HeadsCurrent(tables, sub.heads.value) {
        return Failed(StaleHeads);
      }
      if foreign {
        return Failed(ForeignOwner);
      }
      var refused := PreflightIdentityKeys(run, frames);
      if refused.Some? {
        return Failed(refused.value);
      }
      outcome := WriteAll(run, frames, sub.at, script);
    }
  }
}
