/** One bounded backfill run, the manifest it writes, and chains of runs resumed from the last watermark. */
module EidrBackfillRun {
  import opened Prelude
  import opened EidrPages
  import opened EidrBackfill

  datatype StopReason = ManifestExhausted | MaxIds | MaxBatches | MaxDuration

  datatype RunBatch = RunBatch(
    index: nat, start: nat, next: nat,
    batch: LookupBatch, receipt: Receipt, watermark: Watermark, capture: Option<Capture>,
    found: int, notFound: int, attempts: int, retries: int, rateLimits: int)

  datatype RunManifest = RunManifest(
    manifest: Manifest, start: nat, next: nat, total: nat,
    before: Option<Watermark>, after: Option<Watermark>,
    batches: seq<RunBatch>, batchCount: nat, attempted: int,
    found: int, notFound: int, attempts: int, retries: int, rateLimits: int,
    completed: bool, reason: StopReason)

  /** The bounds of one run; `clock(k)` is the k-th reading of the monotonic clock. */
  datatype RunParams = RunParams(batchSize: nat, maxBatches: nat, maxIds: nat, limits: Limits, duration: real,
                                 clock: nat -> real)

  predicate WithinBounds(p: RunParams) {
    && 0 < p.maxBatches <= MAX_BACKFILL_MAX_BATCHES
    && 0.0 < p.duration <= MAX_BACKFILL_MAX_DURATION_SECONDS
    && 0 < p.maxIds <= MAX_BACKFILL_MAX_IDS
    && 0 < p.batchSize <= MAX_LOOKUP_BATCH_IDS
    && 0 < p.limits.xml <= MAX_MAX_XML_BYTES
    && 0 < p.limits.shard <= MAX_RECORD_SHARD_BYTES
  }

  /** The largest run the bounds let through; one more of anything, or none of it, is refused. */
  lemma BoundsAreTight(clock: nat -> real, more: RunParams)
    requires more.batchSize > 1000 || more.maxBatches > 4096 || more.maxIds > 4096000 || more.duration > 604800.0
             || more.limits.xml > 67108864 || more.limits.shard > 134217728
             || more.batchSize == 0 || more.maxBatches == 0 || more.maxIds == 0 || more.duration <= 0.0
             || more.limits.xml == 0 || more.limits.shard == 0
    ensures WithinBounds(RunParams(1000, 4096, 4096000, Limits(67108864, 134217728), 604800.0, clock))
    ensures WithinBounds(RunParams(1, 1, 1, Limits(1, 1), 1.0, clock))
    ensures !WithinBounds(more)
  {
  }

  // ---------------------------------------------------------------- batch entries

  /** `EidrBackfillRunBatch.validate_batch`. */
  predicate ValidRunBatch(e: RunBatch) {
    var count := e.next - e.start;
    && count > 0
    && e.found >= 0 && e.notFound >= 0 && e.attempts >= 1 && e.retries >= 0 && e.rateLimits >= 0
    && e.found + e.notFound == count
    && e.attempts >= count
    && e.retries == e.attempts - count
    && e.rateLimits <= e.retries
    && (e.found > 0 <==> e.capture.Some?)
  }

  function EntryOf(index: nat, b: BatchResult): RunBatch {
    var items := b.receipt.items;
    RunBatch(index, b.receipt.start, b.receipt.next, b.batch, b.receipt, b.watermark, b.receipt.capture,
             FoundCount(items), |items| - FoundCount(items), Attempts(items), b.receipt.retries, b.receipt.rateLimits)
  }

  /** Each extra attempt of the batch is reported as one retry. */
  predicate Balanced(items: seq<LookupResult>) { Retries(items) == Attempts(items) - |items| }

  lemma {:induction false} CountsOfValidResults(items: seq<LookupResult>)
    requires forall r :: r in items ==> ValidResult(r)
    ensures 0 <= FoundCount(items) <= |items|
    ensures FoundCount(items) > 0 <==> AnyFound(items)
    ensures |items| <= Attempts(items) && 0 <= RateLimits(items) <= Retries(items) <= Attempts(items) - |items|
  {
    if items != [] {
      assert items == [items[0]] + items[1..];
      assert ValidResult(items[0]);
      CountsOfValidResults(items[1..]);
      if AnyFound(items) && !items[0].status.Found? {
        var r :| r in items && r.status.Found?;
        assert r in items[1..];
      }
    }
  }

  lemma {:induction false} OneRetryPerExtraAttempt(items: seq<LookupResult>)
    requires forall r :: r in items ==> r.retries == r.attempts - 1
    ensures Balanced(items)
  {
    if items != [] {
      OneRetryPerExtraAttempt(items[1..]);
      assert items[0] in items;
    }
  }

  /** The sums balance exactly when each single result does: valid results cannot make up for each other. */
  lemma {:induction false} BalancedIffEach(items: seq<LookupResult>)
    requires forall r :: r in items ==> ValidResult(r)
    ensures Balanced(items) <==> forall r :: r in items ==> r.retries == r.attempts - 1
  {
    if items != [] {
      var tail := items[1..];
      assert items == [items[0]] + tail;
      assert ValidResult(items[0]);
      BalancedIffEach(tail);
      CountsOfValidResults(tail);
      assert Balanced(items) <==> items[0].retries == items[0].attempts - 1 && Balanced(tail);
    }
  }

  /** The entry of a committed batch is valid exactly when its retries balance its attempts. */
  lemma EntryValidIffBalanced(m: Manifest, respond: Provider, before: Option<Watermark>, size: nat, index: nat,
                              b: BatchResult)
    requires NextOf(before) <= m.idCount && Committed(m, respond, before, size, b)
    ensures ValidRunBatch(EntryOf(index, b)) <==> Balanced(b.receipt.items)
  {
    CountsOfValidResults(b.receipt.items);
  }

  // ---------------------------------------------------------------- the run manifest

  function SumBatches(batches: seq<RunBatch>, f: RunBatch -> int): int {
    if batches == [] then 0 else SumBatches(batches[..|batches| - 1], f) + f(batches[|batches| - 1])
  }

  const FOUND := (e: RunBatch) => e.found
  const NOT_FOUND := (e: RunBatch) => e.notFound
  const ATTEMPTS := (e: RunBatch) => e.attempts
  const RETRIES := (e: RunBatch) => e.retries
  const RATE_LIMITS := (e: RunBatch) => e.rateLimits

  ghost predicate NoRepeats(batches: seq<RunBatch>) {
    forall i, j :: 0 <= i < j < |batches| ==>
      && batches[i].batch != batches[j].batch
      && batches[i].receipt != batches[j].receipt
      && batches[i].watermark != batches[j].watermark
      && (batches[i].capture.Some? ==> batches[i].capture != batches[j].capture)
  }

  /** The ordinal after the first `n` batches of a run. */
  function Reached(start: nat, batches: seq<RunBatch>, n: nat): nat
    requires n <= |batches|
  {
    if n == 0 then start else batches[n - 1].next
  }

  ghost predicate TilesRange(start: nat, batches: seq<RunBatch>, next: nat) {
    && (forall i :: 0 <= i < |batches| ==> batches[i].index == i)
    && (forall i :: 0 <= i < |batches| ==> batches[i].start == Reached(start, batches, i))
    && Reached(start, batches, |batches|) == next
  }

  /** `EidrBackfillRunManifest.validate_manifest`. */
  ghost predicate ValidRunManifest(r: RunManifest) {
    && |r.batches| <= MAX_BACKFILL_MAX_BATCHES && r.attempted <= MAX_BACKFILL_MAX_IDS
    && r.start <= r.next <= r.total
    && r.batchCount == |r.batches|
    && TilesRange(r.start, r.batches, r.next)
    && NoRepeats(r.batches)
    && r.attempted == r.next - r.start
    && r.found == SumBatches(r.batches, FOUND)
    && r.notFound == SumBatches(r.batches, NOT_FOUND)
    && r.attempts == SumBatches(r.batches, ATTEMPTS)
    && r.retries == SumBatches(r.batches, RETRIES)
    && r.rateLimits == SumBatches(r.batches, RATE_LIMITS)
    && r.found + r.notFound == r.attempted
    && r.after == (if r.batches == [] then r.before else Some(r.batches[|r.batches| - 1].watermark))
    && (r.completed <==> r.next == r.total)
    && (r.completed <==> r.reason.ManifestExhausted?)
  }

  function RunManifestOf(m: Manifest, before: Option<Watermark>, after: Option<Watermark>, entries: seq<RunBatch>,
                         reason: StopReason): RunManifest {
    var start, next := NextOf(before), NextOf(after);
    RunManifest(m, start, next, m.idCount, before, after, entries, |entries|, next - start,
                SumBatches(entries, FOUND), SumBatches(entries, NOT_FOUND), SumBatches(entries, ATTEMPTS),
                SumBatches(entries, RETRIES), SumBatches(entries, RATE_LIMITS), next == m.idCount, reason)
  }

  // ---------------------------------------------------------------- what a run commits

  /** The watermark after the first `n` batches. */
  function After(before: Option<Watermark>, done: seq<BatchResult>, n: nat): Option<Watermark>
    requires n <= |done|
  {
    if n == 0 then before else Some(done[n - 1].watermark)
  }

  /** The size the run asks of its next batch. */
  function NextSize(m: Manifest, p: RunParams, start: nat, current: nat): int {
    Min(p.batchSize, Min(p.maxIds - (current - start), m.idCount - current))
  }

  /** Batch `n` continues from the watermark of the one before it, at the size the bounds allow. */
  ghost predicate Continues(m: Manifest, respond: Provider, p: RunParams, before: Option<Watermark>,
                            done: seq<BatchResult>, n: nat)
    requires n < |done|
  {
    var current := After(before, done, n);
    var size := NextSize(m, p, NextOf(before), NextOf(current));
    NextOf(current) < m.idCount && size > 0 && Committed(m, respond, current, size, done[n])
  }

  ghost predicate RunOf(m: Manifest, respond: Provider, p: RunParams, before: Option<Watermark>,
                        done: seq<BatchResult>) {
    && |done| <= p.maxBatches
    && NextOf(before) <= m.idCount
    && forall n :: 0 <= n < |done| ==> Continues(m, respond, p, before, done, n)
  }

  function Entries(done: seq<BatchResult>): seq<RunBatch> {
    seq(|done|, i requires 0 <= i < |done| => EntryOf(i, done[i]))
  }

  lemma {:induction false} RunProgress(m: Manifest, respond: Provider, p: RunParams, before: Option<Watermark>,
                                       done: seq<BatchResult>, n: nat)
    requires RunOf(m, respond, p, before, done) && n <= |done|
    ensures NextOf(before) + n <= NextOf(After(before, done, n)) <= m.idCount
    ensures NextOf(After(before, done, n)) - NextOf(before) <= p.maxIds
    ensures n > 0 ==> NextOf(After(before, done, n - 1)) < NextOf(After(before, done, n))
  {
    if n > 0 {
      RunProgress(m, respond, p, before, done, n - 1);
      assert Continues(m, respond, p, before, done, n - 1);
    }
  }

  lemma {:induction false} StartsIncrease(m: Manifest, respond: Provider, p: RunParams, before: Option<Watermark>,
                                          done: seq<BatchResult>, i: nat, j: nat)
    requires RunOf(m, respond, p, before, done) && i < j <= |done|
    ensures NextOf(After(before, done, i)) < NextOf(After(before, done, j))
    decreases j
  {
    RunProgress(m, respond, p, before, done, j);
    if i < j - 1 {
      StartsIncrease(m, respond, p, before, done, i, j - 1);
    }
  }

  lemma RunNeverRepeats(m: Manifest, respond: Provider, p: RunParams, before: Option<Watermark>, done: seq<BatchResult>)
    requires RunOf(m, respond, p, before, done)
    ensures NoRepeats(Entries(done))
  {
    forall i, j | 0 <= i < j < |done|
      ensures done[i].batch != done[j].batch && done[i].receipt != done[j].receipt
              && done[i].watermark != done[j].watermark
      ensures done[i].receipt.capture.Some? ==> done[i].receipt.capture != done[j].receipt.capture
    {
      StartsIncrease(m, respond, p, before, done, i, j);
      assert Continues(m, respond, p, before, done, i) && Continues(m, respond, p, before, done, j);
    }
  }

  lemma BatchSpan(m: Manifest, respond: Provider, p: RunParams, before: Option<Watermark>, done: seq<BatchResult>,
                  n: nat)
    requires n < |done| && Continues(m, respond, p, before, done, n)
    ensures done[n].receipt.start == NextOf(After(before, done, n))
    ensures done[n].receipt.next == done[n].watermark.next
  {
  }

  lemma RunTiles(m: Manifest, respond: Provider, p: RunParams, before: Option<Watermark>, done: seq<BatchResult>)
    requires RunOf(m, respond, p, before, done)
    ensures TilesRange(NextOf(before), Entries(done), NextOf(After(before, done, |done|)))
  {
    hide Continues;
    var entries := Entries(done);
    forall i | 0 <= i < |entries|
      ensures entries[i].start == Reached(NextOf(before), entries, i)
      ensures entries[i].next == NextOf(Some(done[i].watermark))
    {
      BatchSpan(m, respond, p, before, done, i);
      if i > 0 {
        BatchSpan(m, respond, p, before, done, i - 1);
      }
    }
  }

  lemma {:induction false} RunCounts(m: Manifest, respond: Provider, p: RunParams, before: Option<Watermark>,
                                     done: seq<BatchResult>, n: nat)
    requires RunOf(m, respond, p, before, done) && n <= |done|
    ensures SumBatches(Entries(done)[..n], FOUND) + SumBatches(Entries(done)[..n], NOT_FOUND)
         == NextOf(After(before, done, n)) - NextOf(before)
  {
    if n > 0 {
      RunCounts(m, respond, p, before, done, n - 1);
      assert Continues(m, respond, p, before, done, n - 1);
      assert Entries(done)[..n][..n - 1] == Entries(done)[..n - 1];
    }
  }

  /** A run's manifest passes the full validator whenever its stop reason says whether it finished. */
  lemma RunManifestAccepted(m: Manifest, respond: Provider, p: RunParams, before: Option<Watermark>,
                            done: seq<BatchResult>, reason: StopReason)
    requires WithinBounds(p) && RunOf(m, respond, p, before, done)
    requires reason.ManifestExhausted? <==> NextOf(After(before, done, |done|)) == m.idCount
    ensures ValidRunManifest(RunManifestOf(m, before, After(before, done, |done|), Entries(done), reason))
  {
    hide RunOf, TilesRange, NoRepeats, SumBatches;
    RunProgress(m, respond, p, before, done, |done|);
    RunTiles(m, respond, p, before, done);
    RunNeverRepeats(m, respond, p, before, done);
    RunCounts(m, respond, p, before, done, |done|);
    RunLength(m, respond, p, before, done);
    assert Entries(done)[..|done|] == Entries(done);
  }

  lemma RunLength(m: Manifest, respond: Provider, p: RunParams, before: Option<Watermark>, done: seq<BatchResult>)
    requires RunOf(m, respond, p, before, done)
    ensures |done| <= p.maxBatches
  {
  }

  // ---------------------------------------------------------------- the run loop

  /** Why the loop stopped after `done`, in the order the source asks. */
  ghost predicate StoppedBecause(m: Manifest, p: RunParams, before: Option<Watermark>, done: seq<BatchResult>,
                                 reason: StopReason) {
    var next := NextOf(After(before, done, |done|));
    match reason
    case ManifestExhausted => next == m.idCount
    case MaxIds => next < m.idCount && next - NextOf(before) == p.maxIds
    case MaxBatches => next < m.idCount && next - NextOf(before) < p.maxIds && |done| == p.maxBatches
    case MaxDuration =>
      next < m.idCount && next - NextOf(before) < p.maxIds && |done| < p.maxBatches
      && p.clock(|done| + 1) - p.clock(0) >= p.duration
  }

  /** Where the loop stops if no batch fails, from its `n`-th batch at ordinal `current`: bounds and clock decide. */
  function PlannedEnd(m: Manifest, p: RunParams, start: nat, n: nat, current: nat): (end: nat)
    requires start <= current <= m.idCount && p.batchSize > 0
    ensures current <= end <= m.idCount
    decreases m.idCount - current
  {
    if current == m.idCount || current - start >= p.maxIds || n >= p.maxBatches
       || p.clock(n + 1) - p.clock(0) >= p.duration
    then current
    else PlannedEnd(m, p, start, n + 1, current + NextSize(m, p, start, current))
  }

  lemma PlannedStops(m: Manifest, p: RunParams, start: nat, n: nat, current: nat)
    requires start <= current <= m.idCount && p.batchSize > 0
    requires current == m.idCount || current - start >= p.maxIds || n >= p.maxBatches
             || p.clock(n + 1) - p.clock(0) >= p.duration
    ensures PlannedEnd(m, p, start, n, current) == current
  {
  }

  lemma PlannedGoesOn(m: Manifest, p: RunParams, start: nat, n: nat, current: nat, next: nat)
    requires start <= current < m.idCount && p.batchSize > 0
    requires current - start < p.maxIds && n < p.maxBatches && p.clock(n + 1) - p.clock(0) < p.duration
    requires next == current + NextSize(m, p, start, current)
    ensures next <= m.idCount && PlannedEnd(m, p, start, n, current) == PlannedEnd(m, p, start, n + 1, next) >= next
  {
  }

  /** Where batches that ask for this many IDs in all end: short of the ID bound and the end of the list. */
  function Covered(m: Manifest, p: RunParams, start: nat, asked: int): int {
    Min(m.idCount, start + Min(p.maxIds, asked))
  }

  lemma CoveredStep(m: Manifest, p: RunParams, start: nat, n: nat)
    requires start <= m.idCount && Covered(m, p, start, n * p.batchSize) < m.idCount
             && Covered(m, p, start, n * p.batchSize) - start < p.maxIds
    ensures var current := Covered(m, p, start, n * p.batchSize);
            && start <= current
            && current + NextSize(m, p, start, current) == Covered(m, p, start, (n + 1) * p.batchSize)
  {
    assert (n + 1) * p.batchSize == n * p.batchSize + p.batchSize;
  }

  /** How far a run gets is decided by its bounds alone: every batch is as large as they allow. */
  lemma {:induction false} BatchesFillBounds(m: Manifest, respond: Provider, p: RunParams, before: Option<Watermark>,
                                             done: seq<BatchResult>, n: nat)
    requires RunOf(m, respond, p, before, done) && n <= |done|
    ensures NextOf(After(before, done, n)) == Min(m.idCount, NextOf(before) + Min(p.maxIds, n * p.batchSize))
  {
    hide Committed;
    if n > 0 {
      BatchesFillBounds(m, respond, p, before, done, n - 1);
      RunProgress(m, respond, p, before, done, n - 1);
      assert Continues(m, respond, p, before, done, n - 1);
      var current := NextOf(After(before, done, n - 1));
      var size := NextSize(m, p, NextOf(before), current);
      CommittedSpan(m, respond, After(before, done, n - 1), size, done[n - 1]);
      CoveredStep(m, p, NextOf(before), n - 1);
      assert NextOf(After(before, done, n)) == current + size;
    }
  }

  /** The clock lets exactly `n` batches start, or at least as many as the bound on batches. */
  ghost predicate ClockAllows(p: RunParams, n: nat) {
    && (forall k :: 1 <= k <= n ==> p.clock(k) - p.clock(0) < p.duration)
    && (n >= p.maxBatches || p.clock(n + 1) - p.clock(0) >= p.duration)
  }

  lemma CoveredEnough(m: Manifest, p: RunParams, start: nat, n: nat, more: nat)
    requires start <= m.idCount && n <= more
    requires var end := Covered(m, p, start, n * p.batchSize); end == m.idCount || end - start >= p.maxIds
    ensures Covered(m, p, start, more * p.batchSize) == Covered(m, p, start, n * p.batchSize)
  {
    assert more * p.batchSize == n * p.batchSize + (more - n) * p.batchSize;
  }

  lemma {:induction false} PlannedEndFrom(m: Manifest, p: RunParams, start: nat, n: nat, current: nat, last: nat)
    requires start <= current <= m.idCount && p.batchSize > 0 && n <= Min(last, p.maxBatches) && ClockAllows(p, last)
    requires current == Covered(m, p, start, n * p.batchSize)
    ensures PlannedEnd(m, p, start, n, current) == Covered(m, p, start, Min(last, p.maxBatches) * p.batchSize)
    decreases Min(last, p.maxBatches) - n
  {
    hide Covered;
    if current == m.idCount || current - start >= p.maxIds {
      CoveredEnough(m, p, start, n, Min(last, p.maxBatches));
    } else if n < Min(last, p.maxBatches) {
      CoveredStep(m, p, start, n);
      var next := current + NextSize(m, p, start, current);
      PlannedGoesOn(m, p, start, n, current, next);
      PlannedEndFrom(m, p, start, n + 1, next, last);
    }
  }

  /** The planned end in closed form: as many full batches as the bound on batches and the clock allow, cut off at the
      bound on IDs and at the end of the list. */
  lemma {:induction false} PlannedEndIsClosedForm(m: Manifest, p: RunParams, start: nat, n: nat)
    requires start <= m.idCount && p.batchSize > 0 && ClockAllows(p, n)
    ensures PlannedEnd(m, p, start, 0, start)
            == Min(m.idCount, start + Min(p.maxIds, Min(n, p.maxBatches) * p.batchSize))
  {
    assert 0 * p.batchSize == 0;
    PlannedEndFrom(m, p, start, 0, start, n);
  }

  /** How a run ends when only retry accounting can stop it: at its planned end with every batch balanced, or right
      after publishing a first unbalanced batch on the way there. */
  ghost predicate RunEnds(m: Manifest, respond: Provider, p: RunParams, before: Option<Watermark>,
                          r: Result<RunManifest, BackfillError>, done: seq<BatchResult>)
    requires NextOf(before) <= m.idCount && p.batchSize > 0
  {
    var reached := NextOf(After(before, done, |done|));
    var planned := PlannedEnd(m, p, NextOf(before), 0, NextOf(before));
    && RunOf(m, respond, p, before, done)
    && match r
       case Ok(_) => reached == planned && forall b :: b in done ==> Balanced(b.receipt.items)
       case Err(error) =>
         error == RetryMismatch && done != [] && reached <= planned && !Balanced(done[|done| - 1].receipt.items)
  }

  /** Nothing but the provider's own accounting can stop this run from succeeding. */
  ghost predicate NothingElseFails(shard: ShardOf, store: set<PageId>, m: Manifest, respond: Provider, p: RunParams,
                                   before: Option<Watermark>) {
    && WithinBounds(p) && Binds(before, m) && NextOf(before) <= m.idCount
    && (forall k: nat :: p.clock(k) >= p.clock(0))
    && forall current: Option<Watermark>, size: nat ::
        Binds(current, m) && NextOf(current) <= m.idCount && 0 < size <= MAX_LOOKUP_BATCH_IDS ==>
         BatchSucceeds(shard, store, m, respond, p.limits, current, size)
  }

  lemma RunExtends(m: Manifest, respond: Provider, p: RunParams, before: Option<Watermark>, done: seq<BatchResult>,
                   b: BatchResult)
    requires RunOf(m, respond, p, before, done) && |done| < p.maxBatches
    requires var current := After(before, done, |done|);
             var size := NextSize(m, p, NextOf(before), NextOf(current));
             NextOf(current) < m.idCount && size > 0 && Committed(m, respond, current, size, b)
    ensures RunOf(m, respond, p, before, done + [b])
    ensures After(before, done + [b], |done| + 1) == Some(b.watermark)
    ensures Entries(done + [b]) == Entries(done) + [EntryOf(|done|, b)]
  {
    hide Committed;
    var more := done + [b];
    forall n | 0 <= n < |more|
      ensures Continues(m, respond, p, before, more, n)
    {
      assert After(before, more, n) == After(before, done, n);
      assert n < |done| ==> Continues(m, respond, p, before, done, n) && more[n] == done[n];
    }
  }

  lemma RunEndsBalanced(m: Manifest, respond: Provider, p: RunParams, before: Option<Watermark>, r: RunManifest,
                        done: seq<BatchResult>)
    requires NextOf(before) <= m.idCount && p.batchSize > 0 && RunOf(m, respond, p, before, done)
    requires NextOf(After(before, done, |done|)) == PlannedEnd(m, p, NextOf(before), 0, NextOf(before))
    requires forall b :: b in done ==> Balanced(b.receipt.items)
    ensures RunEnds(m, respond, p, before, Ok(r), done)
  {
  }

  lemma RunEndsUnbalanced(m: Manifest, respond: Provider, p: RunParams, before: Option<Watermark>,
                          done: seq<BatchResult>)
    requires NextOf(before) <= m.idCount && p.batchSize > 0 && RunOf(m, respond, p, before, done) && done != []
    requires NextOf(After(before, done, |done|)) <= PlannedEnd(m, p, NextOf(before), 0, NextOf(before))
    requires !Balanced(done[|done| - 1].receipt.items)
    ensures RunEnds(m, respond, p, before, Err(RetryMismatch), done)
  {
  }

  /** `run_eidr_exact_lookup_manifest`.  It always terminates; `done` are the batches whose watermarks were
      published, also when the run then fails.  A returned manifest passes the full validator, tiles the range,
      respects every bound and names the right stop reason.  When nothing else fails, the run reaches its planned
      end, or stops right after publishing the first batch that does not report one retry per extra attempt. */
  method RunExactLookupManifest(shard: ShardOf, valid: Page -> bool, store: set<PageId>, m: Manifest, respond: Provider,
                                p: RunParams, before: Option<Watermark>)
    returns (r: Result<RunManifest, BackfillError>, done: seq<BatchResult>)
    requires forall page :: valid(page) <==> ValidPage(shard, page)
    requires ValidManifest(m) && ValidWatermark(before)
    ensures done != [] || r.Ok? ==> RunOf(m, respond, p, before, done)
    ensures r.Ok? ==> WithinBounds(p) && StoppedBecause(m, p, before, done, r.value.reason)
    ensures r.Ok? ==> r.value == RunManifestOf(m, before, After(before, done, |done|), Entries(done), r.value.reason)
    ensures r.Ok? ==> ValidRunManifest(r.value)
    ensures r.Ok? ==> forall b :: b in done ==> Balanced(b.receipt.items)
    ensures r == Err(RetryMismatch) ==> done != [] && !Balanced(done[|done| - 1].receipt.items)
    ensures NothingElseFails(shard, store, m, respond, p, before) ==> RunEnds(m, respond, p, before, r, done)
  {
    hide ValidPage, ValidManifest, Committed, Balanced, ValidRunBatch, ValidRunManifest, RunOf, BatchSucceeds,
      RunManifestOf, EntryOf, PlannedEnd, RunEnds;
    done := [];
    if !WithinBounds(p) {
      return Err(RunBounds), done;
    }
    if !Binds(before, m) {
      return Err(WrongWatermark), done;
    }
    NothingRun(m, respond, p, before);
    var startOrdinal := NextOf(before);
    var current := before;
    var entries: seq<RunBatch> := [];
    var startedAt := p.clock(0);
    var reason;
    while true
      invariant RunOf(m, respond, p, before, done)
      invariant current == After(before, done, |done|) && ValidWatermark(current) && Binds(current, m)
      invariant NextOf(before) <= NextOf(current) <= m.idCount && NextOf(current) - startOrdinal <= p.maxIds
      invariant entries == Entries(done) && |done| <= p.maxBatches
      invariant forall b :: b in done ==> Balanced(b.receipt.items)
      invariant PlannedEnd(m, p, startOrdinal, 0, startOrdinal)
                == PlannedEnd(m, p, startOrdinal, |done|, NextOf(current))
      decreases m.idCount - NextOf(current)
    {
      var currentOrdinal := NextOf(current);
      var attempted := currentOrdinal - startOrdinal;
      if currentOrdinal == m.idCount {
        reason := ManifestExhausted;
        break;
      }
      if attempted >= p.maxIds {
        reason := MaxIds;
        break;
      }
      if |entries| >= p.maxBatches {
        reason := MaxBatches;
        break;
      }
      var now := p.clock(|done| + 1);
      if now < startedAt {
        return Err(ClockWentBack), done;
      }
      if now - startedAt >= p.duration {
        reason := MaxDuration;
        break;
      }
      var size := Min(p.batchSize, Min(p.maxIds - attempted, m.idCount - currentOrdinal));
      var result := RunExactLookupBatch(shard, valid, store, m, respond, p.limits, current, size);
      if result.Err? {
        return Err(result.error), done;
      }
      var b := result.value.value;
      CommittedSpan(m, respond, current, size, b);
      EntryValidIffBalanced(m, respond, current, size, |entries|, b);
      RunExtends(m, respond, p, before, done, b);
      PlannedGoesOn(m, p, startOrdinal, |done|, currentOrdinal, b.watermark.next);
      done := done + [b];
      var entry := EntryOf(|entries|, b);
      if !ValidRunBatch(entry) {
        assert b in done;
        RunEndsUnbalanced(m, respond, p, before, done);
        return Err(RetryMismatch), done;
      }
      entries := entries + [entry];
      current := Some(b.watermark);
      RunProgress(m, respond, p, before, done, |done|);
      RunLength(m, respond, p, before, done);
    }
    PlannedStops(m, p, startOrdinal, |done|, NextOf(current));
    RunEndsBalanced(m, respond, p, before, RunManifestOf(m, before, current, entries, reason), done);
    RunManifestAccepted(m, respond, p, before, done, reason);
    ManifestReason(m, before, After(before, done, |done|), entries, reason);
    return Ok(RunManifestOf(m, before, current, entries, reason)), done;
  }

  lemma NothingRun(m: Manifest, respond: Provider, p: RunParams, before: Option<Watermark>)
    requires NextOf(before) <= m.idCount
    ensures RunOf(m, respond, p, before, [])
  {
  }

  lemma CommittedSpan(m: Manifest, respond: Provider, before: Option<Watermark>, size: nat, b: BatchResult)
    requires NextOf(before) <= m.idCount && Committed(m, respond, before, size, b)
    ensures b.watermark.manifest == m && b.watermark.total == m.idCount
    ensures b.watermark.next == Min(m.idCount, NextOf(before) + size) > NextOf(before)
  {
  }

  lemma ManifestReason(m: Manifest, before: Option<Watermark>, after: Option<Watermark>, entries: seq<RunBatch>,
                       reason: StopReason)
    ensures RunManifestOf(m, before, after, entries, reason).reason == reason
  {
  }
}
