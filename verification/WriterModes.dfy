/** What a first write of a generation-mapped Identity run needs, said about the caller's rows and the
    stored tables alone: when it publishes, when it is refused, and that a refusal stores nothing. */
module WriterModes {
  import opened Prelude
  import opened SilverStore
  import opened SilverWriter
  import opened WriterProtocol
  import opened WriterRefinement
  import opened WriterProgress
  import opened WriterIncremental
  import opened WriterResume

  // ---------------------------------------------------------------- what a caller may submit

  /** An Identity run of generation `g`: no rows for source tables, heads for every write but a full one, and a
      pinned lineage for an incremental one only. */
  ghost predicate GenerationSubmission(g: nat, sub: Submission) {
    && |sub.run.counts| == TABLE_COUNT
    && (forall t :: t in sub.frames ==> t < TABLE_COUNT)
    && sub.run.generation == Some(g)
    && (forall t :: 0 <= t < TABLE_COUNT && !IsIdentityTable(t) ==> sub.run.counts[t] == 0)
    && (sub.heads.Some? ==> |sub.heads.value| == TABLE_COUNT)
    && match sub.run.kind
       case SourceAssertions => false
       case IdentityCuration => sub.mode == None && sub.heads.Some? && sub.pinned == None
       case IdentityResolution =>
         && sub.mode.Some? && sub.run.mode == sub.mode
         && match sub.mode.value
            case Full => sub.heads == None && sub.pinned == None
            case Incremental => sub.heads.Some? && sub.pinned.Some?
  }

  /** A run of the shared tables: it names no generation, mode or lineage. */
  ghost predicate SharedSubmission(sub: Submission) {
    && |sub.run.counts| == TABLE_COUNT
    && (forall t :: t in sub.frames ==> t < TABLE_COUNT)
    && (sub.heads.Some? ==> |sub.heads.value| == TABLE_COUNT)
    && sub.run.generation == None && sub.mode == None && sub.pinned == None
  }

  /** Any other submission is refused before the catalog is read. */
  lemma OthersAreInvalid(generation: Option<nat>, catalog: Catalog, sub: Submission, script: Script)
    requires |catalog.tables| == TABLE_COUNT
    requires match generation case None => !SharedSubmission(sub) case Some(g) => !GenerationSubmission(g, sub)
    ensures Attempt(generation, catalog, sub, script) == (catalog, Failed(InvalidSubmission))
  {
  }

  ghost predicate DistinctPrimaries(frame: Frame) {
    forall i, j :: 0 <= i < j < |frame| ==> frame[i].primary != frame[j].primary
  }

  /** As many rows as declared, all of this run, no two with the same primary key. */
  ghost predicate GoodFrame(run: Run, t: nat, frame: Frame)
    requires t < |run.counts|
  {
    && |frame| == run.counts[t]
    && (forall i :: 0 <= i < |frame| ==> frame[i].owner == RunKey(run))
    && DistinctPrimaries(frame)
  }

  /** The caller's rows of a table: its frame, or else what the factory makes for a table that expects rows. */
  function Incoming(sub: Submission, t: nat): Frame
    requires t < |sub.run.counts|
  {
    if t in sub.frames then sub.frames[t]
    else if sub.run.counts[t] > 0 && t in sub.factory then sub.factory[t]
    else []
  }

  ghost predicate GoodRowsOffered(sub: Submission)
    requires |sub.run.counts| == TABLE_COUNT
  {
    forall t :: 0 <= t < TABLE_COUNT ==> GoodFrame(sub.run, t, Incoming(sub, t))
  }

  // ---------------------------------------------------------------- frames

  lemma DistinctHead(frame: Frame)
    requires frame != []
    ensures DistinctPrimaries(frame)
            <==> DistinctPrimaries(frame[1..]) && forall row :: row in frame[1..] ==> row.primary != frame[0].primary
  {
    var tail := frame[1..];
    assert forall j :: 0 <= j < |tail| ==> tail[j] == frame[j + 1];
    assert forall j :: 0 < j < |frame| ==> frame[j] == tail[j - 1];
  }

  /** Rows of one owner have distinct keys exactly when they have distinct primary keys. */
  lemma {:induction false} PrimariesAreKeys(t: nat, owner: RunId, frame: Frame)
    requires forall i :: 0 <= i < |frame| ==> frame[i].owner == owner
    ensures |FrameKeys(t, frame)| == |frame| <==> DistinctPrimaries(frame)
    decreases |frame|
  {
    if frame != [] {
      var head, tail := frame[0], frame[1..];
      PrimariesAreKeys(t, owner, tail);
      FewerKeysThanRows(t, tail);
      DistinctHead(frame);
      assert FrameKeys(t, frame) == {KeyOf(t, head)} + FrameKeys(t, tail);
      forall row | row in tail
        ensures KeyOf(t, row) == KeyOf(t, head) <==> row.primary == head.primary
      {
        var j :| 0 <= j < |tail| && tail[j] == row;
        assert frame[j + 1] == row;
      }
    }
  }

  lemma GoodIsValid(run: Run, t: nat, frame: Frame)
    requires t < |run.counts|
    ensures GoodFrame(run, t, frame) <==> ValidFrame(t, RunKey(run), run.counts[t], frame)
  {
    if forall i :: 0 <= i < |frame| ==> frame[i].owner == RunKey(run) {
      PrimariesAreKeys(t, RunKey(run), frame);
      forall row | row in frame
        ensures row.owner == RunKey(run)
      {
      }
    } else {
      var i :| 0 <= i < |frame| && frame[i].owner != RunKey(run);
      assert frame[i] in frame;
    }
  }

  /** A prepared frame holds the caller's rows; no frame stands for no rows. */
  lemma PreparedIsIncoming(log: TableLog, sub: Submission, t: nat)
    requires t < |sub.run.counts|
    ensures var prepared := PrepareTable(log, sub, t, false);
            && (prepared.Ok? <==> GoodFrame(sub.run, t, Incoming(sub, t)))
            && (prepared.Ok? && prepared.value.Some? ==> prepared.value.value == Incoming(sub, t))
            && (prepared.Ok? && prepared.value.None? ==> sub.run.counts[t] == 0 && Incoming(sub, t) == [])
  {
    hide ValidFrame, GoodFrame;
    GoodIsValid(sub.run, t, Incoming(sub, t));
    if t !in sub.frames && (sub.run.counts[t] == 0 || t !in sub.factory) {
      assert GoodFrame(sub.run, t, Incoming(sub, t)) <==> sub.run.counts[t] == 0 by {
        assert Incoming(sub, t) == [];
        NoRowsAreGood(sub.run, t);
      }
    }
  }

  lemma NoRowsAreGood(run: Run, t: nat)
    requires t < |run.counts|
    ensures GoodFrame(run, t, []) <==> run.counts[t] == 0
  {
  }

  lemma {:induction false} PrepareFails(tables: seq<TableLog>, sub: Submission, t: nat, u: nat)
    requires t <= u < TABLE_COUNT == |tables| == |sub.run.counts|
    requires PrepareTable(tables[u], sub, u, false).Err?
    ensures PrepareFrom(tables, sub, t, false).Err?
    decreases u - t
  {
    hide PrepareTable;
    if t < u {
      PrepareFails(tables, sub, t + 1, u);
    }
  }

  lemma PreparesIffGood(tables: seq<TableLog>, sub: Submission)
    requires |tables| == |sub.run.counts| == TABLE_COUNT
    ensures PrepareFrom(tables, sub, 0, false).Ok? <==> GoodRowsOffered(sub)
  {
    hide PrepareTable, GoodFrame, Incoming;
    forall t | 0 <= t < TABLE_COUNT
      ensures PrepareTable(tables[t], sub, t, false).Ok? <==> GoodFrame(sub.run, t, Incoming(sub, t))
    {
      PreparedIsIncoming(tables[t], sub, t);
    }
    if GoodRowsOffered(sub) {
      PrepareSucceeds(tables, sub, 0, false);
    } else {
      var t :| 0 <= t < TABLE_COUNT && !GoodFrame(sub.run, t, Incoming(sub, t));
      PrepareFails(tables, sub, 0, t);
    }
  }

  // ---------------------------------------------------------------- the stored state

  /** No stored row is the run's, and no table's latest snapshot carries its tag. */
  ghost predicate Untouched(catalog: Catalog, run: RunId) {
    forall t :: 0 <= t < |catalog.tables| && catalog.tables[t] != [] ==>
                  var latest := Last(catalog.tables[t]);
                  latest.tag != run && forall k :: k in latest.rows ==> latest.rows[k].owner != run
  }

  lemma UntouchedIsNoPartialState(catalog: Catalog, run: RunId)
    ensures Untouched(catalog, run) <==> NoPartialState(catalog.tables, run)
  {
    forall t | 0 <= t < |catalog.tables|
      ensures RowCount(catalog.tables[t], run) == 0 && !HeadIsTagged(catalog.tables[t], run) <==>
                (catalog.tables[t] != [] ==>
                     var latest := Last(catalog.tables[t]);
                     latest.tag != run && forall k :: k in latest.rows ==> latest.rows[k].owner != run)
    {
      var owned := OwnedKeys(CurrentRows(catalog.tables[t]), run);
      if catalog.tables[t] != [] && owned == {} {
        forall k | k in Last(catalog.tables[t]).rows
          ensures Last(catalog.tables[t]).rows[k].owner != run
        {
          assert k !in owned;
        }
      } else if catalog.tables[t] != [] {
        var k :| k in owned;
      }
    }
  }

  /** Rows are never dropped, so a run without rows now never had any. */
  lemma NoRowsMeansClean(plan: KeyPlan, t: nat, log: TableLog, run: RunId)
    requires GoodLog(plan, t, log) && RowCount(log, run) == 0
    ensures Clean(log, run)
  {
    forall i | 0 <= i < |log|
      ensures OwnedKeys(log[i].rows, run) == {}
    {
      OwnedKeysGrow(log[i].rows, log[|log| - 1].rows, run);
    }
  }

  /** A stored row has the primary key of an incoming one. */
  ghost predicate Occupied(log: TableLog, frame: Frame) {
    exists k, i :: k in CurrentRows(log) && 0 <= i < |frame| && CurrentRows(log)[k].primary == frame[i].primary
  }

  lemma OccupiedIsCollision(plan: KeyPlan, t: nat, log: TableLog, frame: Frame)
    requires GoodLog(plan, t, log) && IsIdentityTable(t)
    ensures Occupied(log, frame) <==> FrameKeys(t, frame) * CurrentRows(log).Keys != {}
  {
    var rows := CurrentRows(log);
    if FrameKeys(t, frame) * rows.Keys != {} {
      var k :| k in FrameKeys(t, frame) * rows.Keys;
      var i :| 0 <= i < |frame| && KeyOf(t, frame[i]) == k;
      assert KeyOf(t, rows[k]) == k;
      assert rows[k].primary == frame[i].primary;
    }
    if Occupied(log, frame) {
      var k, i :| k in rows && 0 <= i < |frame| && rows[k].primary == frame[i].primary;
      assert KeyOf(t, rows[k]) == k && frame[i] in frame;
      assert k in FrameKeys(t, frame) * rows.Keys;
    }
  }

  // ---------------------------------------------------------------- full and curation writes

  /** The state check of the two modes that keep the submitted run: pristine Identity tables for a full write; pinned
      heads that are still the latest snapshots, and unoccupied keys, for a curation. */
  ghost predicate StateFits(catalog: Catalog, sub: Submission)
    requires |catalog.tables| == |sub.run.counts| == TABLE_COUNT
    requires sub.heads.Some? ==> |sub.heads.value| == TABLE_COUNT
  {
    if sub.mode == Some(Full) then forall t: nat :: IsIdentityTable(t) ==> catalog.tables[t] == []
    else
      && (sub.heads.Some? ==> HeadsAreLatest(catalog.tables, sub.heads.value))
      && forall t: nat :: IsIdentityTable(t) ==> !Occupied(catalog.tables[t], Incoming(sub, t))
  }

  /** Each Identity table ends with the pinned snapshot, or was and is empty. */
  ghost predicate HeadsAreLatest(tables: seq<TableLog>, heads: seq<Option<nat>>)
    requires |tables| == |heads| == TABLE_COUNT
  {
    forall t: nat :: IsIdentityTable(t) ==>
                  match heads[t]
                  case None => tables[t] == []
                  case Some(id) => id > 0 && |tables[t]| == id
  }

  lemma LatestAreCurrent(tables: seq<TableLog>, heads: seq<Option<nat>>)
    requires |tables| == |heads| == TABLE_COUNT
    ensures HeadsAreLatest(tables, heads) <==> HeadsCurrent(tables, heads)
  {
    forall t: nat | IsIdentityTable(t)
      ensures (match heads[t] case None => tables[t] == [] case Some(id) => id > 0 && |tables[t]| == id)
              <==> LatestSnapshotId(tables[t]) == heads[t]
    {
    }
  }

  lemma {:induction false} PreflightIff(tables: seq<TableLog>, run: Run, frames: seq<Option<Frame>>, t: nat)
    requires |tables| == |frames| == |run.counts| == TABLE_COUNT && t <= TABLE_COUNT
    ensures PreflightFrom(tables, run, frames, t) == None <==>
              forall u :: t <= u < TABLE_COUNT && IsIdentityTable(u) && run.counts[u] > 0 ==>
                  frames[u].Some? && FrameKeys(u, frames[u].value) * CurrentRows(tables[u]).Keys == {}
    decreases |tables| - t
  {
    if t < TABLE_COUNT {
      PreflightIff(tables, run, frames, t + 1);
    }
  }

  /** Each frame holds the caller's rows, valid for the run. */
  ghost predicate HoldsIncoming(sub: Submission, frames: seq<Option<Frame>>) {
    && |sub.run.counts| == |frames| == TABLE_COUNT
    && forall t :: 0 <= t < TABLE_COUNT ==>
                     && GoodFrame(sub.run, t, Incoming(sub, t))
                     && (if frames[t].Some? then frames[t].value == Incoming(sub, t)
                         else sub.run.counts[t] == 0 && Incoming(sub, t) == [])
  }

  lemma PreparedHoldsIncoming(tables: seq<TableLog>, sub: Submission)
    requires |tables| == |sub.run.counts| == TABLE_COUNT && PrepareFrom(tables, sub, 0, false).Ok?
    ensures HoldsIncoming(sub, PrepareFrom(tables, sub, 0, false).value)
  {
    hide PrepareTable, GoodFrame, Incoming;
    PreparedLength(tables, sub, 0, false);
    var frames := PrepareFrom(tables, sub, 0, false).value;
    forall t | 0 <= t < TABLE_COUNT
      ensures GoodFrame(sub.run, t, Incoming(sub, t))
      ensures if frames[t].Some? then frames[t].value == Incoming(sub, t)
              else sub.run.counts[t] == 0 && Incoming(sub, t) == []
    {
      assert PrepareTable(tables[t], sub, t, false) == Ok(frames[t - 0]);
      PreparedIsIncoming(tables[t], sub, t);
    }
  }

  lemma PreflightIsUnoccupied(plan: KeyPlan, tables: seq<TableLog>, sub: Submission, frames: seq<Option<Frame>>)
    requires |tables| == TABLE_COUNT && HoldsIncoming(sub, frames)
    requires forall t :: 0 <= t < TABLE_COUNT ==> GoodLog(plan, t, tables[t])
    ensures PreflightFrom(tables, sub.run, frames, 0) == None
            <==> forall t: nat :: IsIdentityTable(t) ==> !Occupied(tables[t], Incoming(sub, t))
  {
    hide GoodLog, Incoming;
    PreflightIff(tables, sub.run, frames, 0);
    forall t: nat | IsIdentityTable(t)
      ensures !Occupied(tables[t], Incoming(sub, t)) <==>
                (sub.run.counts[t] > 0 ==>
                     frames[t].Some? && FrameKeys(t, frames[t].value) * CurrentRows(tables[t]).Keys == {})
    {
      OccupiedIsCollision(plan, t, tables[t], Incoming(sub, t));
    }
  }

  /** The three checks that a first write under `run` meets: stored commit, partial state, stored manifest. */
  lemma UntouchedChecks(plan: KeyPlan, g: nat, catalog: Catalog, run: Run)
    requires CatalogInvariant(plan, catalog) && RunKey(run) !in catalog.commits
    ensures if Untouched(catalog, RunKey(run)) then CheckRun(Some(g), catalog, run) == None
            else CheckRun(Some(g), catalog, run) == Some(Failed(PartialRunState))
  {
    UntouchedIsNoPartialState(catalog, RunKey(run));
  }

  /** A full or curation write goes on with the caller's rows if and only if all three conditions hold. */
  lemma ResolvesIff(plan: KeyPlan, g: nat, catalog: Catalog, sub: Submission)
    requires CatalogInvariant(plan, catalog) && |catalog.tables| == TABLE_COUNT
    requires GenerationSubmission(g, sub) && sub.mode != Some(Incremental) && RunKey(sub.run) !in catalog.commits
    ensures var resolution := Resolve(Some(g), catalog, sub);
            if Untouched(catalog, RunKey(sub.run)) && GoodRowsOffered(sub) && StateFits(catalog, sub)
            then resolution.Go? && resolution.run == sub.run && HoldsIncoming(sub, resolution.frames)
            else resolution.Stop? && resolution.outcome.Failed?
  {
    hide PrepareFrom, CheckRun, HeadsCurrent, PreflightFrom, HoldsIncoming, GoodRowsOffered, Untouched, GoodLog,
      HeadsAreLatest, Occupied;
    UntouchedChecks(plan, g, catalog, sub.run);
    PreparesIffGood(catalog.tables, sub);
    if PrepareFrom(catalog.tables, sub, 0, false).Ok? {
      PreparedHoldsIncoming(catalog.tables, sub);
      PreflightIsUnoccupied(plan, catalog.tables, sub, PrepareFrom(catalog.tables, sub, 0, false).value);
      if sub.heads.Some? {
        LatestAreCurrent(catalog.tables, sub.heads.value);
      }
      if sub.mode == Some(Full) && StateFits(catalog, sub) {
        forall t: nat | IsIdentityTable(t)
          ensures !Occupied(catalog.tables[t], Incoming(sub, t))
        {
          NothingOccupiesEmpty(Incoming(sub, t));
        }
      }
    }
  }

  lemma NothingOccupiesEmpty(frame: Frame)
    ensures !Occupied([], frame)
  {
  }

  // ---------------------------------------------------------------- what a publication stores

  function RowsOf(log: TableLog): set<Row> {
    set k | k in CurrentRows(log) :: CurrentRows(log)[k]
  }

  function RowSet(frame: Frame): set<Row> {
    set row | row in frame
  }

  /** A MERGE of new distinct keys adds the frame's rows, payloads and all, to the rows that are there. */
  lemma MergeAddsRows(t: nat, log: TableLog, frame: Frame, tag: RunId)
    requires |FrameKeys(t, frame)| == |frame| && FrameKeys(t, frame) !! CurrentRows(log).Keys
    ensures RowsOf(MergeInsertOnly(t, log, frame, tag)) == RowsOf(log) + RowSet(frame)
  {
    var before := CurrentRows(log);
    var after := MergeRows(t, before, frame);
    MergeRowsInserts(t, before, frame);
    if frame != [] {
      assert CurrentRows(MergeInsertOnly(t, log, frame, tag)) == after;
      forall row | row in frame
        ensures row in RowsOf(MergeInsertOnly(t, log, frame, tag))
      {
        KeysTellRows(t, frame, after[KeyOf(t, row)], row);
      }
      forall row | row in RowsOf(log)
        ensures row in RowsOf(MergeInsertOnly(t, log, frame, tag))
      {
        var k :| k in before && before[k] == row;
        assert after[k] == row;
      }
    }
  }

  lemma {:induction false} KeysTellRows(t: nat, frame: Frame, a: Row, b: Row)
    requires |FrameKeys(t, frame)| == |frame| && a in frame && b in frame && KeyOf(t, a) == KeyOf(t, b)
    ensures a == b
    decreases |frame|
  {
    TailKeys(t, frame);
    if a in frame[1..] && b in frame[1..] {
      KeysTellRows(t, frame[1..], a, b);
    }
  }

  /** The commit that a first publication returns is stored: this run, the caller's time, the declared counts. */
  ghost predicate CommitsAs(before: Catalog, after: Catalog, run: Run, at: nat, commit: Commit) {
    && commit.run == RunKey(run) && commit.at == at && commit.counts == run.counts
    && after.commits == before.commits[RunKey(run) := commit]
    && after.runs == before.runs[RunKey(run) := run]
  }

  /** What an undisturbed write of a fresh run with new keys leaves in each table. */
  lemma PublishedRows(catalog: Catalog, run: Run, frames: seq<Option<Frame>>, at: nat, t: nat)
    requires Fresh(catalog, run, frames) && t < TABLE_COUNT
    requires forall u :: 0 <= u < TABLE_COUNT ==> KeysNew(u, catalog.tables[u], frames[u])
    ensures var (after, outcome) := WriteRun(catalog, run, frames, at, UNINTERRUPTED);
            && outcome.Published? && CommitsAs(catalog, after, run, at, outcome.commit)
            && |after.tables| == TABLE_COUNT
            && RowsOf(after.tables[t]) == RowsOf(catalog.tables[t])
                                          + (if frames[t].Some? then RowSet(frames[t].value) else {})
  {
    hide StageFrom, StageTable, Seal, MergeInsertOnly, RowsOf, RowSet;
    NewKeysPublish(catalog, run, frames, at);
    WriteRecords(catalog, run, frames, at, UNINTERRUPTED);
    WriteKeepsTableCount(catalog, run, frames, at, UNINTERRUPTED);
    StageFromAt(catalog.tables, run, frames, UNINTERRUPTED, 0, t);
    assert UNINTERRUPTED.tables(t) == Applied;
    var staged := catalog.(runs := EnsureManifest(catalog.runs, run, Applied).0)
                         .(tables := StageFrom(catalog.tables, run, frames, UNINTERRUPTED, 0).0);
    StageFromLength(catalog.tables, run, frames, UNINTERRUPTED, 0);
    SealCommits(staged, run, at);
    StagedTable(t, catalog.tables[t], RunKey(run), run.counts[t], frames[t]);
    if frames[t].Some? {
      MergeAddsRows(t, catalog.tables[t], frames[t].value, RunKey(run));
      NothingToAdd(frames[t].value);
    }
  }

  lemma NothingToAdd(frame: Frame)
    ensures frame == [] ==> RowSet(frame) == {}
  {
  }

  lemma SealCommits(catalog: Catalog, run: Run, at: nat)
    requires |catalog.tables| == |run.counts| == TABLE_COUNT && RunKey(run) !in catalog.commits
    ensures var (after, outcome) := Seal(catalog, run, at, Applied);
            && after.tables == catalog.tables && after.runs == catalog.runs
            && (outcome.Published? ==>
                  && outcome.commit.run == RunKey(run) && outcome.commit.at == at && outcome.commit.counts == run.counts
                  && after.commits == catalog.commits[RunKey(run) := outcome.commit])
  {
  }

  lemma StagedTable(t: nat, log: TableLog, run: RunId, expected: nat, frame: Option<Frame>)
    requires Clean(log, run) && Stageable(t, run, expected, frame)
    ensures StageTable(t, log, run, expected, frame, Applied).0
            == if frame.Some? then MergeInsertOnly(t, log, frame.value, run) else log
  {
    CleanHasNoOwned(log, run);
    CleanIsVerified(log, run);
  }

  // ---------------------------------------------------------------- the law of the two modes

  lemma UntouchedIsClean(plan: KeyPlan, catalog: Catalog, run: RunId)
    requires CatalogInvariant(plan, catalog) && |catalog.tables| == TABLE_COUNT && Untouched(catalog, run)
    ensures forall t :: 0 <= t < TABLE_COUNT ==> Clean(catalog.tables[t], run)
  {
    hide GoodLog, Clean, Untouched;
    UntouchedIsNoPartialState(catalog, run);
    forall t | 0 <= t < TABLE_COUNT
      ensures Clean(catalog.tables[t], run)
    {
      NoRowsMeansClean(plan, t, catalog.tables[t], run);
    }
  }

  lemma IncomingIsFresh(plan: KeyPlan, catalog: Catalog, sub: Submission, frames: seq<Option<Frame>>)
    requires CatalogInvariant(plan, catalog) && |catalog.tables| == TABLE_COUNT
    requires RunKey(sub.run) !in catalog.commits && Untouched(catalog, RunKey(sub.run)) && HoldsIncoming(sub, frames)
    ensures Fresh(catalog, sub.run, frames)
  {
    hide GoodLog, Clean, Untouched, GoodFrame, ValidFrame, Incoming;
    UntouchedIsClean(plan, catalog, RunKey(sub.run));
    forall t | 0 <= t < TABLE_COUNT
      ensures Stageable(t, RunKey(sub.run), sub.run.counts[t], frames[t])
    {
      GoodIsValid(sub.run, t, Incoming(sub, t));
    }
  }

  lemma IncomingIsNew(plan: KeyPlan, g: nat, catalog: Catalog, sub: Submission, frames: seq<Option<Frame>>, t: nat)
    requires CatalogInvariant(plan, catalog) && |catalog.tables| == TABLE_COUNT && t < TABLE_COUNT
    requires GenerationSubmission(g, sub) && HoldsIncoming(sub, frames) && StateFits(catalog, sub)
    ensures KeysNew(t, catalog.tables[t], frames[t])
  {
    if IsIdentityTable(t) {
      OccupiedIsCollision(plan, t, catalog.tables[t], Incoming(sub, t));
      NothingOccupiesEmpty(Incoming(sub, t));
      var keys, stored := FrameKeys(t, Incoming(sub, t)), CurrentRows(catalog.tables[t]).Keys;
      assert forall k :: k in keys && k in stored ==> k in keys * stored;
    }
  }

  /** However its MERGEs end, the call fails and leaves the catalog as it is. */
  ghost predicate StoresNothing(g: nat, catalog: Catalog, sub: Submission)
    requires |catalog.tables| == TABLE_COUNT
  {
    forall script :: Attempt(Some(g), catalog, sub, script).0 == catalog
                     && Attempt(Some(g), catalog, sub, script).1.Failed?
  }

  /** A run that is committed already is answered with its commit, and nothing is written. */
  lemma {:induction false} CommittedIsReturned(plan: KeyPlan, generation: Option<nat>, catalog: Catalog,
                                               sub: Submission, script: Script)
    requires CatalogInvariant(plan, catalog) && |catalog.tables| == TABLE_COUNT
    requires match generation case None => SharedSubmission(sub) case Some(g) => GenerationSubmission(g, sub)
    requires RunKey(sub.run) in catalog.commits
    ensures Attempt(generation, catalog, sub, script) == (catalog, Published(catalog.commits[RunKey(sub.run)]))
  {
    hide CatalogInvariant, CheckRun;
    CommitIsReused(plan, generation, catalog, sub.run);
  }

  /** A full or curation write under an uncommitted run ID publishes if and only if the run has left no trace, every
      table's rows are as declared, and the stored state fits the mode.  It then adds exactly the caller's rows; in
      every other case, and however MERGEs end, nothing is stored. */
  lemma {:induction false} FirstWritePublishesIff(plan: KeyPlan, g: nat, catalog: Catalog, sub: Submission)
    requires CatalogInvariant(plan, catalog) && |catalog.tables| == TABLE_COUNT
    requires GenerationSubmission(g, sub) && sub.mode != Some(Incremental) && RunKey(sub.run) !in catalog.commits
    ensures var (after, outcome) := Attempt(Some(g), catalog, sub, UNINTERRUPTED);
            if Untouched(catalog, RunKey(sub.run)) && GoodRowsOffered(sub) && StateFits(catalog, sub)
            then
              && outcome.Published? && CommitsAs(catalog, after, sub.run, sub.at, outcome.commit)
              && |after.tables| == TABLE_COUNT
              && forall t :: 0 <= t < TABLE_COUNT ==>
                  RowsOf(after.tables[t]) == RowsOf(catalog.tables[t]) + RowSet(Incoming(sub, t))
            else
              StoresNothing(g, catalog, sub)
  {
    hide Resolve, WriteRun, Untouched, GoodRowsOffered, StateFits, Fresh, KeysNew, RowsOf, RowSet, GoodLog, Incoming,
      CatalogInvariant;
    ResolvesIff(plan, g, catalog, sub);
    if Untouched(catalog, RunKey(sub.run)) && GoodRowsOffered(sub) && StateFits(catalog, sub) {
      var frames := Resolve(Some(g), catalog, sub).frames;
      IncomingIsFresh(plan, catalog, sub, frames);
      forall t | 0 <= t < TABLE_COUNT
        ensures KeysNew(t, catalog.tables[t], frames[t])
      {
        IncomingIsNew(plan, g, catalog, sub, frames, t);
      }
      PublishedRows(catalog, sub.run, frames, sub.at, 0);
      forall t | 0 <= t < TABLE_COUNT
        ensures RowsOf(Attempt(Some(g), catalog, sub, UNINTERRUPTED).0.tables[t])
             == RowsOf(catalog.tables[t]) + RowSet(Incoming(sub, t))
      {
        PublishedRows(catalog, sub.run, frames, sub.at, t);
        NothingToAdd(Incoming(sub, t));
      }
    }
  }

  /** Heads that are not the latest snapshots: whatever the mode and however MERGEs end, nothing is stored, and the only
      commit a caller can get is one stored before. */
  lemma {:induction false} StaleHeadsStoreNothing(generation: Option<nat>, catalog: Catalog, sub: Submission,
                                                  script: Script, t: nat)
    requires |catalog.tables| == TABLE_COUNT && IsIdentityTable(t)
    requires sub.heads.Some? && t < |sub.heads.value|
    requires match sub.heads.value[t] case None => catalog.tables[t] != [] case Some(id) => |catalog.tables[t]| != id
    ensures var (after, outcome) := Attempt(generation, catalog, sub, script);
            && after == catalog
            && (outcome.Failed? || (outcome.Published? && outcome.commit in catalog.commits.Values))
  {
    hide PrepareFrom, StripIdentityKeys, PreflightFrom, NoPartialState;
    assert !HeadsCurrent(catalog.tables, sub.heads.value);
  }

  // ---------------------------------------------------------------- incremental writes

  /** A stored row with this primary key. */
  ghost predicate Stored(log: TableLog, primary: nat) {
    exists k :: k in CurrentRows(log) && CurrentRows(log)[k].primary == primary
  }

  /** Every stored row with the primary key of an incoming one belongs to a run of the pinned lineage. */
  ghost predicate OwnedWithinLineage(log: TableLog, frame: Frame, pinned: set<RunId>) {
    forall k, i :: k in CurrentRows(log) && 0 <= i < |frame| && CurrentRows(log)[k].primary == frame[i].primary ==>
                     CurrentRows(log)[k].owner in pinned
  }

  /** The incoming rows whose key is not stored, re-owned by the rebuilt run. */
  ghost function NewRows(log: TableLog, frame: Frame, owner: RunId): set<Row> {
    set row | row in frame && !Stored(log, row.primary) :: Row(row.primary, owner, row.payload)
  }

  lemma WithinLineageIsNotForeign(plan: KeyPlan, t: nat, log: TableLog, frame: Frame, pinned: set<RunId>)
    requires GoodLog(plan, t, log) && IsIdentityTable(t)
    ensures OwnedWithinLineage(log, frame, pinned) <==> !HasForeignOwner(CurrentRows(log), t, frame, pinned)
  {
    var rows := CurrentRows(log);
    if HasForeignOwner(rows, t, frame, pinned) {
      var k :| k in FrameKeys(t, frame) && k in rows && rows[k].owner !in pinned;
      var i :| 0 <= i < |frame| && KeyOf(t, frame[i]) == k;
      assert KeyOf(t, rows[k]) == k;
      assert rows[k].primary == frame[i].primary;
    }
    if !OwnedWithinLineage(log, frame, pinned) {
      var k, i :| k in rows && 0 <= i < |frame| && rows[k].primary == frame[i].primary && rows[k].owner !in pinned;
      assert KeyOf(t, rows[k]) == k && frame[i] in frame;
    }
  }

  lemma {:induction false} DropKeysRows(t: nat, frame: Frame, keys: set<MergeKey>)
    ensures forall row :: row in DropKeys(t, frame, keys) <==> row in frame && KeyOf(t, row) !in keys
    decreases |frame|
  {
    if frame != [] {
      DropKeysRows(t, frame[1..], keys);
    }
  }

  lemma ReownedRows(frame: Frame, owner: RunId)
    ensures RowSet(Reowned(frame, owner)) == set row | row in frame :: Row(row.primary, owner, row.payload)
  {
    var reowned := Reowned(frame, owner);
    forall row | row in frame
      ensures Row(row.primary, owner, row.payload) in reowned
    {
      var i :| 0 <= i < |frame| && frame[i] == row;
      assert reowned[i] == Row(row.primary, owner, row.payload);
    }
    forall row | row in reowned
      ensures exists source :: source in frame && row == Row(source.primary, owner, source.payload)
    {
      var i :| 0 <= i < |reowned| && reowned[i] == row;
      assert frame[i] in frame;
    }
  }

  lemma StoredIsKey(plan: KeyPlan, t: nat, log: TableLog, row: Row)
    requires GoodLog(plan, t, log) && IsIdentityTable(t)
    ensures Stored(log, row.primary) <==> KeyOf(t, row) in CurrentRows(log)
  {
    var rows := CurrentRows(log);
    if KeyOf(t, row) in rows {
      assert KeyOf(t, rows[KeyOf(t, row)]) == KeyOf(t, row);
    }
    if Stored(log, row.primary) {
      var k :| k in rows && rows[k].primary == row.primary;
      assert KeyOf(t, rows[k]) == k;
    }
  }

  /** Inside the lineage the strip keeps of each table exactly the rows whose key is not stored. */
  lemma StripKeepsNewRows(plan: KeyPlan, tables: seq<TableLog>, run: Run, frames: seq<Option<Frame>>,
                          pinned: set<RunId>, t: nat)
    requires |tables| == TABLE_COUNT && FullFrames(run, frames) && IsIdentityTable(t) && frames[t].Some?
    requires GoodLog(plan, t, tables[t]) && OwnedWithinLineage(tables[t], frames[t].value, pinned)
    ensures var s := StripIdentityKeys(tables, run, frames, pinned);
            s.frames[t].Some? && RowSet(s.frames[t].value) == NewRows(tables[t], frames[t].value, RunKey(s.run))
  {
    var log, frame := tables[t], frames[t].value;
    var s := StripIdentityKeys(tables, run, frames, pinned);
    if run.counts[t] == 0 {
      assert frame == [];
      if s.run != run {
        assert s.frames[t] == Some(Reowned([], RunKey(s.run)));
      }
    } else {
      var reusable := ReusableKeys(CurrentRows(log), t, frame, pinned);
      var kept := DropKeys(t, frame, reusable);
      DropKeysRows(t, frame, reusable);
      WithinLineageIsNotForeign(plan, t, log, frame, pinned);
      forall row | row in frame
        ensures row in kept <==> !Stored(log, row.primary)
      {
        StoredIsKey(plan, t, log, row);
      }
      assert StrippedFrame(tables[t], run, t, frames[t], pinned) == Some(kept);
      ReownedRows(kept, RunKey(s.run));
      if s.run == run {
        assert s.run.counts[t] == |kept|;
        DropKeysCount(t, frame, reusable);
        assert kept == frame && s.frames[t] == frames[t];
        assert forall row :: row in frame ==> row == Row(row.primary, RunKey(run), row.payload);
      } else {
        assert s.frames[t] == Some(Reowned(kept, RunKey(s.run)));
      }
    }
  }

  ghost predicate AllWithinLineage(catalog: Catalog, sub: Submission)
    requires |catalog.tables| == |sub.run.counts| == TABLE_COUNT && sub.pinned.Some?
  {
    forall t: nat :: IsIdentityTable(t) ==> OwnedWithinLineage(catalog.tables[t], Incoming(sub, t), sub.pinned.value)
  }

  lemma StripReportsForeign(plan: KeyPlan, catalog: Catalog, sub: Submission, frames: seq<Option<Frame>>)
    requires CatalogInvariant(plan, catalog) && |catalog.tables| == TABLE_COUNT
    requires HoldsIncoming(sub, frames) && sub.pinned.Some?
    ensures StripIdentityKeys(catalog.tables, sub.run, frames, sub.pinned.value).foreign
            <==> !AllWithinLineage(catalog, sub)
  {
    hide Incoming, GoodLog, CurrentRows, HasForeignOwner;
    forall t: nat | IsIdentityTable(t)
      ensures OwnedWithinLineage(catalog.tables[t], Incoming(sub, t), sub.pinned.value)
              <==> !(sub.run.counts[t] > 0 && frames[t].Some?
                     && HasForeignOwner(CurrentRows(catalog.tables[t]), t, frames[t].value, sub.pinned.value))
    {
      WithinLineageIsNotForeign(plan, t, catalog.tables[t], Incoming(sub, t), sub.pinned.value);
    }
  }

  /** Where an incremental write goes: on as the rebuilt run, back to that run's commit, or nowhere. */
  lemma ResolvesIncremental(plan: KeyPlan, g: nat, catalog: Catalog, sub: Submission)
    requires CatalogInvariant(plan, catalog) && |catalog.tables| == TABLE_COUNT
    requires GenerationSubmission(g, sub) && sub.mode == Some(Incremental) && CarriesPlan(plan, sub)
    requires RunKey(sub.run) !in catalog.commits
    ensures var rebuilt := RebuiltRun(plan, catalog.tables, sub.run, sub.pinned.value);
            var resolution := Resolve(Some(g), catalog, sub);
            if !Untouched(catalog, RunKey(sub.run)) || !GoodRowsOffered(sub)
            then resolution.Stop? && resolution.outcome.Failed?
            else if RunKey(rebuilt) in catalog.commits
            then resolution == Resolution.Stop(Published(catalog.commits[RunKey(rebuilt)]))
            else if && Untouched(catalog, RunKey(rebuilt)) && AllWithinLineage(catalog, sub)
                    && HeadsAreLatest(catalog.tables, sub.heads.value)
            then
              && PrepareFrom(catalog.tables, sub, 0, false).Ok?
              && var frames := PrepareFrom(catalog.tables, sub, 0, false).value;
                 && HoldsIncoming(sub, frames) && FullFrames(sub.run, frames)
                 && var s := StripIdentityKeys(catalog.tables, sub.run, frames, sub.pinned.value);
                    resolution == Go(s.run, s.frames) && s.run == rebuilt && !s.foreign
            else resolution.Stop? && resolution.outcome.Failed?
  {
    hide PrepareFrom, CheckRun, HeadsCurrent, PreflightFrom, HoldsIncoming, GoodRowsOffered, Untouched,
      CatalogInvariant, HeadsAreLatest, RebuiltRun, StripIdentityKeys, AllWithinLineage, CarriesPlan;
    var rebuilt := RebuiltRun(plan, catalog.tables, sub.run, sub.pinned.value);
    UntouchedChecks(plan, g, catalog, sub.run);
    PreparesIffGood(catalog.tables, sub);
    if RunKey(rebuilt) in catalog.commits {
      CommitIsReused(plan, Some(g), catalog, rebuilt);
    } else {
      UntouchedChecks(plan, g, catalog, rebuilt);
    }
    if PrepareFrom(catalog.tables, sub, 0, false).Ok? {
      PreparedHoldsIncoming(catalog.tables, sub);
      PreparedFull(plan, catalog.tables, sub);
      var frames := PrepareFrom(catalog.tables, sub, 0, false).value;
      StripRebuilds(plan, catalog.tables, sub.run, frames, sub.pinned.value);
      NoForeignOwnerNoCollision(catalog.tables, sub.run, frames, sub.pinned.value);
      StripReportsForeign(plan, catalog, sub, frames);
      LatestAreCurrent(catalog.tables, sub.heads.value);
    }
  }

  /** The stripped frames are new, valid, and hold the new rows of each table. */
  lemma StrippedIsNew(plan: KeyPlan, g: nat, catalog: Catalog, sub: Submission, frames: seq<Option<Frame>>)
    requires CatalogInvariant(plan, catalog) && |catalog.tables| == TABLE_COUNT
    requires GenerationSubmission(g, sub) && sub.mode == Some(Incremental)
    requires HoldsIncoming(sub, frames) && FullFrames(sub.run, frames) && AllWithinLineage(catalog, sub)
    ensures var s := StripIdentityKeys(catalog.tables, sub.run, frames, sub.pinned.value);
            forall t :: 0 <= t < TABLE_COUNT ==>
                && KeysNew(t, catalog.tables[t], s.frames[t])
                && Stageable(t, RunKey(s.run), s.run.counts[t], s.frames[t])
                && (if s.frames[t].Some? then RowSet(s.frames[t].value) else {})
                    == NewRows(catalog.tables[t], Incoming(sub, t), RunKey(s.run))
  {
    hide Incoming, StripIdentityKeys, KeysNew, Stageable, RowSet, OwnedWithinLineage, Stored;
    StripReportsForeign(plan, catalog, sub, frames);
    var s := StripIdentityKeys(catalog.tables, sub.run, frames, sub.pinned.value);
    forall t | 0 <= t < TABLE_COUNT
      ensures && KeysNew(t, catalog.tables[t], s.frames[t])
              && Stageable(t, RunKey(s.run), s.run.counts[t], s.frames[t])
              && (if s.frames[t].Some? then RowSet(s.frames[t].value) else {})
                  == NewRows(catalog.tables[t], Incoming(sub, t), RunKey(s.run))
    {
      StrippedKeysNew(catalog.tables, sub.run, frames, sub.pinned.value, t);
      if IsIdentityTable(t) && frames[t].Some? {
        StripKeepsNewRows(plan, catalog.tables, sub.run, frames, sub.pinned.value, t);
      } else {
        StripSkips(catalog.tables, sub.run, frames, sub.pinned.value, t);
        StrippedFramesValid(catalog.tables, sub.run, frames, sub.pinned.value);
        NoRowsOffered(sub, frames, t, s.frames[t]);
      }
    }
  }

  lemma NoRowsOffered(sub: Submission, frames: seq<Option<Frame>>, t: nat, stripped: Option<Frame>)
    requires HoldsIncoming(sub, frames) && t < TABLE_COUNT && sub.run.counts[t] == 0
    requires stripped.Some? ==> stripped.value == []
    ensures Incoming(sub, t) == [] && (if stripped.Some? then RowSet(stripped.value) else {}) == {}
  {
  }

  lemma StripSkips(tables: seq<TableLog>, run: Run, frames: seq<Option<Frame>>, pinned: set<RunId>, t: nat)
    requires |tables| == TABLE_COUNT && FullFrames(run, frames) && t < TABLE_COUNT
    requires !IsIdentityTable(t) ==> run.counts[t] == 0
    requires IsIdentityTable(t) ==> frames[t].None?
    ensures var s := StripIdentityKeys(tables, run, frames, pinned);
            run.counts[t] == 0 && (s.frames[t].Some? ==> s.frames[t].value == [])
  {
  }

  /** An incremental write under an uncommitted run ID publishes if and only if the run has left no trace, every table's
      rows are as declared, and its rebuilt run is either committed already, in which case that commit comes back and
      nothing is written, or has left no trace either while the pinned heads are the latest snapshots and every stored
      row with an incoming key belongs to the pinned lineage.  It then adds exactly the incoming rows with new keys,
      under the rebuilt run; in every other case, and however MERGEs end, nothing is stored. */
  lemma {:induction false} IncrementalPublishesIff(plan: KeyPlan, g: nat, catalog: Catalog, sub: Submission)
    requires CatalogInvariant(plan, catalog) && |catalog.tables| == TABLE_COUNT
    requires GenerationSubmission(g, sub) && sub.mode == Some(Incremental) && CarriesPlan(plan, sub)
    requires RunKey(sub.run) !in catalog.commits
    ensures var rebuilt := RebuiltRun(plan, catalog.tables, sub.run, sub.pinned.value);
            var r := RunKey(rebuilt);
            var (after, outcome) := Attempt(Some(g), catalog, sub, UNINTERRUPTED);
            if !Untouched(catalog, RunKey(sub.run)) || !GoodRowsOffered(sub)
            then StoresNothing(g, catalog, sub)
            else if r in catalog.commits then (after, outcome) == (catalog, Published(catalog.commits[r]))
            else if && Untouched(catalog, r) && AllWithinLineage(catalog, sub)
                    && HeadsAreLatest(catalog.tables, sub.heads.value)
            then
              && outcome.Published? && CommitsAs(catalog, after, rebuilt, sub.at, outcome.commit)
              && |after.tables| == TABLE_COUNT
              && forall t :: 0 <= t < TABLE_COUNT ==>
                  RowsOf(after.tables[t]) == RowsOf(catalog.tables[t]) + NewRows(catalog.tables[t], Incoming(sub, t), r)
            else StoresNothing(g, catalog, sub)
  {
    hide Resolve, WriteRun, Untouched, GoodRowsOffered, AllWithinLineage, HeadsAreLatest, KeysNew, RowsOf, RowSet,
      Incoming, CatalogInvariant, NewRows, RebuiltRun, StripIdentityKeys, HoldsIncoming, FullFrames, PrepareFrom,
      CarriesPlan, Stageable;
    ResolvesIncremental(plan, g, catalog, sub);
    var rebuilt := RebuiltRun(plan, catalog.tables, sub.run, sub.pinned.value);
    var resolution := Resolve(Some(g), catalog, sub);
    if resolution.Go? {
      var frames := PrepareFrom(catalog.tables, sub, 0, false).value;
      StrippedIsNew(plan, g, catalog, sub, frames);
      UntouchedIsClean(plan, catalog, RunKey(rebuilt));
      ManifestIsOwn(plan, catalog, rebuilt);
      assert Fresh(catalog, rebuilt, resolution.frames);
      PublishedRows(catalog, rebuilt, resolution.frames, sub.at, 0);
      forall t | 0 <= t < TABLE_COUNT
        ensures RowsOf(Attempt(Some(g), catalog, sub, UNINTERRUPTED).0.tables[t])
             == RowsOf(catalog.tables[t]) + NewRows(catalog.tables[t], Incoming(sub, t), RunKey(rebuilt))
      {
        PublishedRows(catalog, rebuilt, resolution.frames, sub.at, t);
      }
    }
  }

  lemma ManifestIsOwn(plan: KeyPlan, catalog: Catalog, run: Run)
    requires CatalogInvariant(plan, catalog)
    ensures RunKey(run) in catalog.runs ==> catalog.runs[RunKey(run)] == run
  {
  }

  // ---------------------------------------------------------------- tables that are complete, or never will be

  /** The table holds as many rows of the run as declared, from the one snapshot that added them. */
  ghost predicate TableComplete(log: TableLog, run: RunId, expected: nat) {
    RowCount(log, run) == expected && FindOwnedSnapshot(log, run, expected).Ok?
  }

  /** A complete table is left as it is, whichever of the two checks sees it first. */
  lemma CompleteTableIsDone(t: nat, log: TableLog, run: RunId, expected: nat, frame: Option<Frame>, fate: Fate)
    requires TableComplete(log, run, expected) && (expected == 0 ==> frame == None)
    ensures StageTable(t, log, run, expected, frame, fate) == (log, Done)
    ensures VerifyCompleted(log, run, expected) == Ok(expected > 0)
    ensures expected > 0 ==> VerifyNoSnapshot(log, run, expected) == Ok(true)
  {
    if expected > 0 {
      OwnedNow(log, run);
    }
  }

  /** Rows that one tagged snapshot added make the check for no snapshot fail. */
  lemma OwnedNow(log: TableLog, run: RunId)
    requires FindOwnedSnapshot(log, run, RowCount(log, run)).Ok? && RowCount(log, run) > 0
    ensures OwnedSnapshots(log, run) != [] && FindOwnedSnapshot(log, run, 0).Err?
  {
  }

  /** A table to which two snapshots added rows of the run is refused by every later call of that run. */
  lemma WedgedTableIsRefused(t: nat, log: TableLog, run: RunId, expected: nat, frame: Option<Frame>, fate: Fate)
    requires |OwnedSnapshots(log, run)| >= 2
    ensures var (after, progress) := StageTable(t, log, run, expected, frame, fate); after == log && progress.Refused?
  {
    WedgedTableFails(log, run, expected);
    WedgedTableFails(log, run, 0);
    hide FindOwnedSnapshot, MergeInsertOnly;
  }

  lemma WedgedTableFails(log: TableLog, run: RunId, expected: nat)
    requires |OwnedSnapshots(log, run)| >= 2
    ensures FindOwnedSnapshot(log, run, expected).Err?
  {
  }

  lemma {:induction false} CompletePrepares(tables: seq<TableLog>, sub: Submission, t: nat)
    requires t <= TABLE_COUNT == |tables| == |sub.run.counts| && sub.frames == map[] && sub.factory == map[]
    requires forall u :: t <= u < TABLE_COUNT ==> TableComplete(tables[u], RunKey(sub.run), sub.run.counts[u])
    ensures PrepareFrom(tables, sub, t, true) == Ok(seq(TABLE_COUNT - t, u => None))
    decreases |tables| - t
  {
    hide TableComplete, VerifyCompleted;
    if t < TABLE_COUNT {
      CompletePrepares(tables, sub, t + 1);
      CompleteTableIsDone(t, tables[t], RunKey(sub.run), sub.run.counts[t], None, Applied);
      var rest: seq<Option<Frame>> := seq(TABLE_COUNT - (t + 1), u => None);
      assert [None] + rest == seq(TABLE_COUNT - t, u => None);
    } else {
      var rest: seq<Option<Frame>> := seq(0, u => None);
      assert rest == [];
    }
  }

  /** Once all tables of a run without Identity rows are complete, its next call needs no rows at all: without a frame
      or a factory it writes no table and publishes. */
  lemma {:induction false} CompleteRunNeedsNoRows(plan: KeyPlan, catalog: Catalog, sub: Submission)
    requires CatalogInvariant(plan, catalog) && |catalog.tables| == TABLE_COUNT && SharedSubmission(sub)
    requires sub.frames == map[] && sub.factory == map[] && sub.heads == None
    requires RunKey(sub.run) !in catalog.commits
    requires forall t :: 0 <= t < TABLE_COUNT ==>
              && TableComplete(catalog.tables[t], RunKey(sub.run), sub.run.counts[t])
              && (IsIdentityTable(t) ==> sub.run.counts[t] == 0)
    ensures var (after, outcome) := Attempt(None, catalog, sub, UNINTERRUPTED);
            && outcome.Published? && CommitsAs(catalog, after, sub.run, sub.at, outcome.commit)
            && after.tables == catalog.tables
  {
    hide TableComplete, CatalogInvariant, StageTable, PrepareFrom, CheckRun, Seal, PreflightFrom;
    var r, run := RunKey(sub.run), sub.run;
    var frames: seq<Option<Frame>> := seq(TABLE_COUNT, u => None);
    CompletePrepares(catalog.tables, sub, 0);
    NotCommittedGoesOn(plan, catalog, run);
    PreflightSkips(catalog.tables, run, frames, 0);
    assert Resolve(None, catalog, sub) == Go(run, frames);
    forall t | 0 <= t < TABLE_COUNT
      ensures StageTable(t, catalog.tables[t], r, run.counts[t], frames[t], Applied) == (catalog.tables[t], Done)
    {
      CompleteTableIsDone(t, catalog.tables[t], r, run.counts[t], None, Applied);
    }
    StagesAll(catalog.tables, run, frames, 0);
    StageFromLength(catalog.tables, run, frames, UNINTERRUPTED, 0);
    var tables := StageFrom(catalog.tables, run, frames, UNINTERRUPTED, 0).0;
    forall t | 0 <= t < TABLE_COUNT
      ensures tables[t] == catalog.tables[t]
    {
      StageFromAt(catalog.tables, run, frames, UNINTERRUPTED, 0, t);
      assert UNINTERRUPTED.tables(t) == Applied;
    }
    assert tables == catalog.tables;
    var declared := catalog.(runs := EnsureManifest(catalog.runs, run, Applied).0);
    CompleteSeals(declared, run, sub.at);
    SealCommits(declared, run, sub.at);
    assert declared.(tables := tables) == declared;
  }

  lemma NotCommittedGoesOn(plan: KeyPlan, catalog: Catalog, run: Run)
    requires CatalogInvariant(plan, catalog) && RunKey(run) !in catalog.commits
    ensures CheckRun(None, catalog, run) == None
    ensures EnsureManifest(catalog.runs, run, Applied) == (catalog.runs[RunKey(run) := run], Done)
  {
    if RunKey(run) in catalog.runs {
      assert catalog.runs[RunKey(run) := run] == catalog.runs;
    }
  }

  lemma CompleteSeals(catalog: Catalog, run: Run, at: nat)
    requires |catalog.tables| == |run.counts| == TABLE_COUNT && RunKey(run) !in catalog.commits
    requires forall t :: 0 <= t < TABLE_COUNT ==> TableComplete(catalog.tables[t], RunKey(run), run.counts[t])
    ensures Seal(catalog, run, at, Applied).1.Published?
  {
    SealSucceeds(catalog, run, at);
  }
}
