/** The Iceberg tables behind Silver v2, reduced to what the writer can observe:
    an append-only chain of snapshots per data table, each carrying the rows it
    contains and the run tag its commit attached. */
module SilverStore {
  import opened Prelude

  // ---------------------------------------------------------------- identities

  datatype RunKind = SourceAssertions | IdentityResolution | IdentityCuration

  datatype IdentityMode = Full | Incremental

  /** A run manifest.  `input` stands for every hashed field that no writer branch reads. */
  datatype Run = Run(
    kind: RunKind,
    generation: Option<nat>,
    mode: Option<IdentityMode>,
    input: nat,
    counts: seq<nat>)

  /** `deterministic_key` over the manifest: injective, hence a constructor. */
  datatype RunId = RunKey(run: Run)

  // The data tables in declaration order: source_record, field, identifier,
  // relationship and entity_type assertions, then the ten Identity tables.
  const TABLE_COUNT := 15
  const SOURCE_TABLE_COUNT := 5
  const SOURCE_RECORD := 0

  predicate IsIdentityTable(t: nat) {
    SOURCE_TABLE_COUNT <= t < TABLE_COUNT
  }

  // ---------------------------------------------------------------- rows and merges

  datatype Row = Row(primary: nat, owner: RunId, payload: nat)

  /** TABLE_MERGE_KEYS: the primary key, qualified by the run for source records. */
  datatype MergeKey = MergeKey(primary: nat, scope: Option<RunId>)

  type Frame = seq<Row>

  type RowMap = map<MergeKey, Row>

  function KeyOf(t: nat, row: Row): MergeKey {
    MergeKey(row.primary, if t == SOURCE_RECORD then Some(row.owner) else None)
  }

  function FrameKeys(t: nat, frame: Frame): set<MergeKey> {
    set row | row in frame :: KeyOf(t, row)
  }

  /** MERGE ... WHEN NOT MATCHED THEN INSERT, after dropDuplicates on the merge key. */
  function MergeRows(t: nat, rows: RowMap, frame: Frame): RowMap
    decreases |frame|
  {
    if frame == [] then rows
    else
      var key := KeyOf(t, frame[0]);
      MergeRows(t, if key in rows then rows else rows[key := frame[0]], frame[1..])
  }

  ghost predicate SubMap(small: RowMap, big: RowMap) {
    forall k :: k in small ==> k in big && big[k] == small[k]
  }

  lemma {:induction false} MergeRowsInserts(t: nat, rows: RowMap, frame: Frame)
    ensures SubMap(rows, MergeRows(t, rows, frame))
    ensures MergeRows(t, rows, frame).Keys == rows.Keys + FrameKeys(t, frame)
    ensures forall k :: k in MergeRows(t, rows, frame) && k !in rows ==>
                          MergeRows(t, rows, frame)[k] in frame && KeyOf(t, MergeRows(t, rows, frame)[k]) == k
    decreases |frame|
  {
    if frame != [] {
      var key := KeyOf(t, frame[0]);
      var next := if key in rows then rows else rows[key := frame[0]];
      MergeRowsInserts(t, next, frame[1..]);
      assert FrameKeys(t, frame) == {key} + FrameKeys(t, frame[1..]);
    }
  }

  // ---------------------------------------------------------------- snapshots

  datatype Snapshot = Snapshot(tag: RunId, rows: RowMap)

  type TableLog = seq<Snapshot>

  function CurrentRows(log: TableLog): RowMap {
    if log == [] then map[] else log[|log| - 1].rows
  }

  /** `merge_insert_only`: an empty frame issues no SQL; any other frame appends one tagged snapshot. */
  function MergeInsertOnly(t: nat, log: TableLog, frame: Frame, tag: RunId): TableLog {
    if frame == [] then log else log + [Snapshot(tag, MergeRows(t, CurrentRows(log), frame))]
  }

  function OwnedKeys(rows: RowMap, run: RunId): set<MergeKey> {
    set k | k in rows && rows[k].owner == run
  }

  /** `_run_row_count`. */
  function RowCount(log: TableLog, run: RunId): nat {
    |OwnedKeys(CurrentRows(log), run)|
  }

  /** `_latest_snapshot_id`. */
  function LatestSnapshotId(log: TableLog): Option<nat> {
    if log == [] then None else Some(|log|)
  }

  predicate IsOwnedSnapshot(snapshot: Snapshot, run: RunId) {
    snapshot.tag == run && OwnedKeys(snapshot.rows, run) != {}
  }

  /** Positions of the snapshots that carry the run's tag and at least one of its rows. */
  function OwnedSnapshots(log: TableLog, run: RunId): (positions: seq<nat>)
    ensures forall i :: 0 <= i < |positions| ==> positions[i] < |log| && IsOwnedSnapshot(log[positions[i]], run)
    ensures forall p :: 0 <= p < |log| && IsOwnedSnapshot(log[p], run) ==> p in positions
    ensures Distinct(positions)
  {
    if log == [] then []
    else
      var last := |log| - 1;
      OwnedSnapshots(log[..last], run) + (if IsOwnedSnapshot(log[last], run) then [last] else [])
  }

  function RowIdentities(rows: RowMap): set<(nat, RunId)> {
    set k | k in rows :: (rows[k].primary, rows[k].owner)
  }

  datatype SnapshotError =
    | UnexpectedSnapshot
    | NotExactlyOneSnapshot
    | WrongRowCount
    | RowsBeforeSnapshot
    | WrongAdditions
    | ForeignAdditions

  /** `find_owned_snapshot_id`: the one snapshot that added exactly this run's rows. */
  function FindOwnedSnapshot(log: TableLog, run: RunId, expected: nat): Result<Option<nat>, SnapshotError> {
    var owned := OwnedSnapshots(log, run);
    if expected == 0 then
      if owned != [] then Err(UnexpectedSnapshot) else Ok(None)
    else if |owned| != 1 then Err(NotExactlyOneSnapshot)
    else
      var position := owned[0];
      var candidate := log[position].rows;
      if |OwnedKeys(candidate, run)| != expected then Err(WrongRowCount)
      else if position > 0 && OwnedKeys(log[position - 1].rows, run) != {} then Err(RowsBeforeSnapshot)
      else
        var additions := set k | k in candidate
          && (position == 0 || (candidate[k].primary, candidate[k].owner) !in RowIdentities(log[position - 1].rows));
        if |additions| != expected then Err(WrongAdditions)
        else if exists k :: k in additions && candidate[k].owner != run then Err(ForeignAdditions)
        else Ok(Some(position + 1))
  }

  // ---------------------------------------------------------------- the catalog

  datatype Commit = Commit(run: RunId, at: nat, counts: seq<nat>, snapshots: seq<Option<nat>>)

  datatype Catalog = Catalog(tables: seq<TableLog>, runs: map<RunId, Run>, commits: map<RunId, Commit>)

  const EMPTY_CATALOG := Catalog([[], [], [], [], [], [], [], [], [], [], [], [], [], [], []], map[], map[])

  /** The merge keys that every submission of a run carries for a table. */
  type KeyPlan = (RunId, nat) -> set<MergeKey>

  ghost predicate PlanFitsCounts(plan: KeyPlan) {
    forall run: RunId, t: nat :: |run.run.counts| == TABLE_COUNT && t < TABLE_COUNT ==>
                                   |plan(run, t)| == run.run.counts[t]
  }

  /** `_validate_run_frame`: count, owner and duplicate-key checks. */
  predicate ValidFrame(t: nat, run: RunId, expected: nat, frame: Frame) {
    && |frame| == expected
    && (forall row :: row in frame ==> row.owner == run)
    && |FrameKeys(t, frame)| == |frame|
  }

  // ---------------------------------------------------------------- the table invariant

  /** Rows sit under their own key, belong to their run's plan, and are never changed or dropped. */
  ghost predicate GoodRows(plan: KeyPlan, t: nat, rows: RowMap) {
    forall k :: k in rows ==> KeyOf(t, rows[k]) == k && k in plan(rows[k].owner, t)
  }

  ghost predicate GoodLog(plan: KeyPlan, t: nat, log: TableLog) {
    && (forall i :: 0 <= i < |log| ==> GoodRows(plan, t, log[i].rows))
    && (forall i, j :: 0 <= i <= j < |log| ==> SubMap(log[i].rows, log[j].rows))
  }

  /** A later version of a log: more snapshots, none rewritten. */
  ghost predicate Extends(log: TableLog, later: TableLog) {
    |log| <= |later| && later[..|log|] == log
  }

  lemma ExtendsGrows(plan: KeyPlan, t: nat, log: TableLog, later: TableLog)
    requires GoodLog(plan, t, later) && Extends(log, later)
    ensures SubMap(CurrentRows(log), CurrentRows(later))
  {
    if log != [] {
      assert log[|log| - 1] == later[..|log|][|log| - 1];
    }
  }

  lemma SubsetCardinality<T>(a: set<T>, b: set<T>)
    requires a <= b
    ensures |a| <= |b|
    ensures |a| == |b| ==> a == b
  {
    assert b == a + (b - a);
  }

  lemma OwnedKeysGrow(small: RowMap, big: RowMap, run: RunId)
    requires SubMap(small, big)
    ensures OwnedKeys(small, run) <= OwnedKeys(big, run)
    ensures |OwnedKeys(small, run)| <= |OwnedKeys(big, run)|
  {
    SubsetCardinality(OwnedKeys(small, run), OwnedKeys(big, run));
  }

  /** A run can never own more rows of a table than its plan has keys. */
  lemma OwnedWithinPlan(plan: KeyPlan, t: nat, rows: RowMap, run: RunId)
    requires GoodRows(plan, t, rows)
    ensures OwnedKeys(rows, run) <= plan(run, t)
    ensures |OwnedKeys(rows, run)| <= |plan(run, t)|
    ensures |OwnedKeys(rows, run)| == |plan(run, t)| ==> OwnedKeys(rows, run) == plan(run, t)
  {
    SubsetCardinality(OwnedKeys(rows, run), plan(run, t));
  }

  /** One MERGE of a validated frame keeps the table invariant and only appends. */
  lemma MergeKeepsGoodLog(plan: KeyPlan, t: nat, log: TableLog, frame: Frame, run: RunId)
    requires GoodLog(plan, t, log)
    requires forall row :: row in frame ==> row.owner == run
    requires FrameKeys(t, frame) <= plan(run, t)
    ensures GoodLog(plan, t, MergeInsertOnly(t, log, frame, run))
    ensures Extends(log, MergeInsertOnly(t, log, frame, run))
  {
    if frame != [] {
      var rows := CurrentRows(log);
      var merged := MergeRows(t, rows, frame);
      MergeRowsInserts(t, rows, frame);
      forall k | k in merged
        ensures KeyOf(t, merged[k]) == k && k in plan(merged[k].owner, t)
      {
        if k !in rows {
          assert k in FrameKeys(t, frame);
        }
      }
      var later := MergeInsertOnly(t, log, frame, run);
      forall i, j | 0 <= i <= j < |later|
        ensures SubMap(later[i].rows, later[j].rows)
      {
        if i < |log| && j == |log| {
          assert SubMap(log[i].rows, log[|log| - 1].rows);
        }
      }
    }
  }
}
