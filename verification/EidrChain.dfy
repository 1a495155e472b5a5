/** The whole backfill: discovery, publication and any chain of resumed runs amount to
    looking up every distinct ID once, in (shard, ID) order. */
module EidrChain {
  import opened Prelude
  import opened EidrPages
  import opened EidrDiscovery
  import opened EidrBackfill
  import opened EidrBackfillRun

  function Listed(m: Manifest): seq<string> { AllIds(m.pages, |m.pages|) }

  lemma HonestSlices(shard: ShardOf, store: set<PageId>, m: Manifest, start: nat, end: nat)
    requires Honest(shard, store, m) && start <= end <= m.idCount
    ensures |Listed(m)| == m.idCount
    ensures Selection(m.pages, |m.pages|, start, end) == Listed(m)[start..end]
    ensures Distinct(Listed(m)[start..end])
  {
    hide ValidPageRef, Ordered, Disjoint;
    forall i | 0 <= i < |m.pages|
      ensures CountsMatch(m.pages[i])
    {
      assert Readable(shard, store, m.pages[i], m.binding);
    }
    SelectionIsSlice(m.pages, |m.pages|, start, end);
    AllIdsDistinct(shard, store, m, |m.pages|);
  }

  // ---------------------------------------------------------------- one run

  function ItemsOf(done: seq<BatchResult>, n: nat): seq<LookupResult>
    requires n <= |done|
  {
    if n == 0 then [] else ItemsOf(done, n - 1) + done[n - 1].receipt.items
  }

  lemma {:induction false} SumsJoin(a: seq<LookupResult>, b: seq<LookupResult>)
    ensures Attempts(a + b) == Attempts(a) + Attempts(b) && Retries(a + b) == Retries(a) + Retries(b)
    ensures RateLimits(a + b) == RateLimits(a) + RateLimits(b) && FoundCount(a + b) == FoundCount(a) + FoundCount(b)
    decreases |a|
  {
    if a == [] {
      assert a + b == b;
    } else {
      hide Attempts, Retries, RateLimits, FoundCount;
      SumsJoin(a[1..], b);
      CountersAdd(a[0], a[1..]);
      CountersAdd(a[0], a[1..] + b);
      ConcatSplitsFirst(a, b);
    }
  }

  lemma {:induction false} BatchesCountResults(m: Manifest, respond: Provider, p: RunParams, before: Option<Watermark>,
                                               done: seq<BatchResult>, n: nat)
    requires RunOf(m, respond, p, before, done) && n <= |done|
    ensures var entries, items := Entries(done)[..n], ItemsOf(done, n);
            && |items| == NextOf(After(before, done, n)) - NextOf(before)
            && SumBatches(entries, FOUND) == FoundCount(items)
            && SumBatches(entries, NOT_FOUND) == |items| - FoundCount(items)
            && SumBatches(entries, ATTEMPTS) == Attempts(items)
            && SumBatches(entries, RETRIES) == Retries(items)
            && SumBatches(entries, RATE_LIMITS) == RateLimits(items)
  {
    hide Attempts, Retries, RateLimits, FoundCount, RunOf;
    if n == 0 {
      assert Entries(done)[..0] == [];
      CountersAdd(LookupResult("", NotFound, None, 0, 0, 0), []);
    } else {
      BatchesCountResults(m, respond, p, before, done, n - 1);
      assert Continues(m, respond, p, before, done, n - 1) by { RunContinues(m, respond, p, before, done, n - 1); }
      assert Entries(done)[..n][..n - 1] == Entries(done)[..n - 1];
      SumsJoin(ItemsOf(done, n - 1), done[n - 1].receipt.items);
    }
  }

  /** The counts in a run's manifest are those of the results in its receipts, all together. */
  lemma {:induction false} RunCountsResults(m: Manifest, respond: Provider, p: RunParams, before: Option<Watermark>,
                                            done: seq<BatchResult>, reason: StopReason)
    requires RunOf(m, respond, p, before, done)
    ensures var items := ItemsOf(done, |done|);
            var r := RunManifestOf(m, before, After(before, done, |done|), Entries(done), reason);
            && r.attempted == r.next - r.start == |items| && r.batchCount == |done|
            && r.found == FoundCount(items) && r.notFound == |items| - FoundCount(items)
            && r.attempts == Attempts(items) && r.retries == Retries(items) && r.rateLimits == RateLimits(items)
            && r.manifest == m && r.start == NextOf(before) && r.total == m.idCount && r.before == before
            && r.after == (if done == [] then before else Some(done[|done| - 1].watermark)) && r.reason == reason
  {
    hide Attempts, Retries, RateLimits, FoundCount, RunOf, SumBatches;
    BatchesCountResults(m, respond, p, before, done, |done|);
    assert Entries(done)[..|done|] == Entries(done);
  }

  lemma RunContinues(m: Manifest, respond: Provider, p: RunParams, before: Option<Watermark>, done: seq<BatchResult>,
                     n: nat)
    requires RunOf(m, respond, p, before, done) && n < |done|
    ensures Continues(m, respond, p, before, done, n)
  {
  }

  lemma BatchLooksUp(shard: ShardOf, store: set<PageId>, m: Manifest, respond: Provider,
                     lookup: string -> LookupResult, limits: Limits,
                     before: Option<Watermark>, size: nat, b: BatchResult)
    requires Honest(shard, store, m) && Implements(respond, lookup) && GoodLookup(lookup, limits)
    requires NextOf(before) <= m.idCount && Committed(m, respond, before, size, b)
    ensures NextOf(before) < b.watermark.next <= m.idCount == |Listed(m)|
    ensures b.receipt.items == LookupAll(lookup, Listed(m)[NextOf(before)..b.watermark.next])
  {
    hide Honest, GoodLookup, Implements, Selection;
    var ids := b.batch.items;
    HonestSlices(shard, store, m, NextOf(before), b.watermark.next);
    LookupsAccepted(respond, lookup, ids, limits);
  }

  lemma LookupAllAppend(lookup: string -> LookupResult, ids: seq<string>, a: nat, b: nat, c: nat)
    requires a <= b <= c <= |ids|
    ensures LookupAll(lookup, ids[a..b]) + LookupAll(lookup, ids[b..c]) == LookupAll(lookup, ids[a..c])
  {
  }

  /** The receipts of one run, joined, are the lookups of the range it covered. */
  lemma {:induction false} RunLooksUp(shard: ShardOf, store: set<PageId>, m: Manifest, respond: Provider,
                                      lookup: string -> LookupResult, limits: Limits,
                                      p: RunParams, before: Option<Watermark>, done: seq<BatchResult>, n: nat)
    requires Honest(shard, store, m) && Implements(respond, lookup) && GoodLookup(lookup, limits)
    requires RunOf(m, respond, p, before, done) && n <= |done|
    ensures NextOf(before) <= NextOf(After(before, done, n)) <= m.idCount == |Listed(m)|
    ensures ItemsOf(done, n) == LookupAll(lookup, Listed(m)[NextOf(before)..NextOf(After(before, done, n))])
  {
    hide Honest, GoodLookup, Implements, Committed;
    HonestSlices(shard, store, m, 0, m.idCount);
    if n > 0 {
      RunLooksUp(shard, store, m, respond, lookup, limits, p, before, done, n - 1);
      var current := After(before, done, n - 1);
      assert Continues(m, respond, p, before, done, n - 1);
      var size := NextSize(m, p, NextOf(before), NextOf(current));
      BatchLooksUp(shard, store, m, respond, lookup, limits, current, size, done[n - 1]);
      LookupAllAppend(lookup, Listed(m), NextOf(before), NextOf(current), done[n - 1].watermark.next);
    }
  }

  /** With a provider that is a function of the ID, only its retry accounting can stop a run. */
  lemma FunctionalProviderNeverFails(shard: ShardOf, store: set<PageId>, m: Manifest, respond: Provider,
                                     lookup: string -> LookupResult,
                                     p: RunParams, before: Option<Watermark>)
    requires Honest(shard, store, m) && Implements(respond, lookup) && GoodLookup(lookup, p.limits)
    requires WithinBounds(p) && Binds(before, m) && NextOf(before) <= m.idCount
    requires forall k: nat :: p.clock(k) >= p.clock(0)
    ensures NothingElseFails(shard, store, m, respond, p, before)
  {
    forall current: Option<Watermark>, size: nat | Binds(current, m) && NextOf(current) <= m.idCount
        && 0 < size <= MAX_LOOKUP_BATCH_IDS
      ensures BatchSucceeds(shard, store, m, respond, p.limits, current, size)
    {
      var end := Min(m.idCount, NextOf(current) + size);
      HonestSlices(shard, store, m, NextOf(current), end);
      LookupsAccepted(respond, lookup, Selection(m.pages, |m.pages|, NextOf(current), end), p.limits);
    }
  }

  /** One retry per extra attempt balances every batch, so such a run always ends with a valid manifest. */
  lemma PacedProviderBalances(shard: ShardOf, store: set<PageId>, m: Manifest, respond: Provider,
                              lookup: string -> LookupResult, limits: Limits,
                              p: RunParams, before: Option<Watermark>, done: seq<BatchResult>)
    requires Honest(shard, store, m) && Implements(respond, lookup) && GoodLookup(lookup, limits)
    requires forall id :: lookup(id).retries == lookup(id).attempts - 1
    requires RunOf(m, respond, p, before, done)
    ensures forall b :: b in done ==> Balanced(b.receipt.items)
  {
    hide Committed, Honest, Implements, GoodLookup;
    forall n | 0 <= n < |done|
      ensures Balanced(done[n].receipt.items)
    {
      RunProgress(m, respond, p, before, done, n);
      assert Continues(m, respond, p, before, done, n);
      var current := After(before, done, n);
      BatchLooksUp(shard, store, m, respond, lookup, limits, current, NextSize(m, p, NextOf(before), NextOf(current)),
                   done[n]);
      OneRetryPerExtraAttempt(done[n].receipt.items);
    }
  }

  /** A lookup that took more attempts than its retries explain; `EidrExactLookupResult` allows it. */
  predicate Underreports(r: LookupResult) { r.retries < r.attempts - 1 }

  /** The item at ordinal `k` of a run is the lookup of the ID listed there. */
  lemma RunItem(shard: ShardOf, store: set<PageId>, m: Manifest, respond: Provider, lookup: string -> LookupResult,
                limits: Limits,
                p: RunParams, before: Option<Watermark>, done: seq<BatchResult>, k: nat)
    returns (n: nat)
    requires Honest(shard, store, m) && Implements(respond, lookup) && GoodLookup(lookup, limits)
    requires RunOf(m, respond, p, before, done)
    requires NextOf(before) <= k < NextOf(After(before, done, |done|))
    ensures k < m.idCount == |Listed(m)| && n < |done| && lookup(Listed(m)[k]) in done[n].receipt.items
  {
    hide Committed, Honest, Implements, GoodLookup;
    RunLooksUp(shard, store, m, respond, lookup, limits, p, before, done, |done|);
    assert LookupAll(lookup, Listed(m)[NextOf(before)..NextOf(After(before, done, |done|))])[k - NextOf(before)]
           == lookup(Listed(m)[k]);
    n := ItemFrom(done, |done|, lookup(Listed(m)[k]));
  }

  lemma {:induction false} ItemFrom(done: seq<BatchResult>, n: nat, r: LookupResult) returns (i: nat)
    requires n <= |done| && r in ItemsOf(done, n)
    ensures i < n && r in done[i].receipt.items
  {
    if r in ItemsOf(done, n - 1) {
      i := ItemFrom(done, n - 1, r);
    } else {
      i := n - 1;
    }
  }

  lemma BatchBalances(m: Manifest, respond: Provider, p: RunParams, before: Option<Watermark>, done: seq<BatchResult>,
                      n: nat)
    requires RunOf(m, respond, p, before, done) && n < |done|
    ensures Balanced(done[n].receipt.items) <==> forall r :: r in done[n].receipt.items ==> !Underreports(r)
  {
    assert Continues(m, respond, p, before, done, n);
    BalancedIffEach(done[n].receipt.items);
    assert forall r :: r in done[n].receipt.items ==> ValidResult(r);
  }

  /** A run over stored pages with a provider that is a function of the ID fails exactly when some ID within its planned
      range has an underreporting lookup; by then it has published a watermark that later runs resume from. */
  lemma {:induction false} FailsIffUnderreportedInReach(
      shard: ShardOf, store: set<PageId>, m: Manifest, respond: Provider, lookup: string -> LookupResult,
      p: RunParams, before: Option<Watermark>, r: Result<RunManifest, BackfillError>, done: seq<BatchResult>)
    requires Honest(shard, store, m) && Implements(respond, lookup) && GoodLookup(lookup, p.limits)
    requires NextOf(before) <= m.idCount == |Listed(m)| && p.batchSize > 0
    requires RunEnds(m, respond, p, before, r, done)
    ensures r == Err(RetryMismatch) <==>
              exists k :: NextOf(before) <= k < PlannedEnd(m, p, NextOf(before), 0, NextOf(before))
                  && Underreports(lookup(Listed(m)[k]))
    ensures r.Err? ==> r.error == RetryMismatch && done != [] && After(before, done, |done|).Some?
                       && NextOf(After(before, done, |done|)) > NextOf(before)
  {
    hide Committed, Honest, Implements, GoodLookup, PlannedEnd, ItemsOf, Listed, Balanced, Underreports, RunOf;
    var planned := PlannedEnd(m, p, NextOf(before), 0, NextOf(before));
    RunProgress(m, respond, p, before, done, |done|);
    if r.Ok? {
      forall k | NextOf(before) <= k < planned
        ensures !Underreports(lookup(Listed(m)[k]))
      {
        var n := RunItem(shard, store, m, respond, lookup, p.limits, p, before, done, k);
        BatchBalances(m, respond, p, before, done, n);
      }
    } else {
      var k := UnbalancedOrdinal(shard, store, m, respond, lookup, p.limits, p, before, done);
    }
  }

  /** The last, unbalanced batch of a run holds an underreporting lookup of a listed ID. */
  lemma UnbalancedOrdinal(shard: ShardOf, store: set<PageId>, m: Manifest, respond: Provider,
                          lookup: string -> LookupResult,
                          limits: Limits, p: RunParams, before: Option<Watermark>, done: seq<BatchResult>)
    returns (k: nat)
    requires Honest(shard, store, m) && Implements(respond, lookup) && GoodLookup(lookup, limits)
    requires RunOf(m, respond, p, before, done) && done != [] && !Balanced(done[|done| - 1].receipt.items)
    ensures NextOf(before) <= k < NextOf(After(before, done, |done|)) <= m.idCount == |Listed(m)|
    ensures Underreports(lookup(Listed(m)[k]))
  {
    hide Committed, Honest, Implements, GoodLookup, Listed, Balanced, Underreports;
    var n := |done| - 1;
    var current := After(before, done, n);
    var size := NextSize(m, p, NextOf(before), NextOf(current));
    RunProgress(m, respond, p, before, done, n);
    RunProgress(m, respond, p, before, done, n + 1);
    assert Continues(m, respond, p, before, done, n);
    BatchLooksUp(shard, store, m, respond, lookup, limits, current, size, done[n]);
    BatchBalances(m, respond, p, before, done, n);
    var r :| r in done[n].receipt.items && Underreports(r);
    var i :| 0 <= i < |done[n].receipt.items| && done[n].receipt.items[i] == r;
    k := NextOf(current) + i;
  }

  /** Two attempts and no retry: a valid result. */
  function Silent(id: string): LookupResult { LookupResult(id, NotFound, None, 2, 0, 0) }

  lemma SilentIsGood(limits: Limits)
    ensures GoodLookup(Silent, limits)
  {
  }

  lemma PlannedAdvances(m: Manifest, p: RunParams, start: nat)
    requires WithinBounds(p) && start < m.idCount && p.clock(1) - p.clock(0) < p.duration
    ensures PlannedEnd(m, p, start, 0, start) > start
  {
    PlannedGoesOn(m, p, start, 0, start, start + NextSize(m, p, start, start));
  }

  /** With that provider every run that starts a batch fails, after publishing the batch's watermark. */
  lemma SilentRetriesFail(shard: ShardOf, store: set<PageId>, m: Manifest, respond: Provider, p: RunParams,
                          before: Option<Watermark>, r: Result<RunManifest, BackfillError>, done: seq<BatchResult>)
    requires Honest(shard, store, m) && Implements(respond, Silent) && WithinBounds(p)
    requires NextOf(before) < m.idCount && p.clock(1) - p.clock(0) < p.duration
    requires RunEnds(m, respond, p, before, r, done)
    ensures GoodLookup(Silent, p.limits)
    ensures r == Err(RetryMismatch) && done != [] && done[0].watermark.next > NextOf(before)
  {
    hide Honest, Implements, RunOf, GoodLookup, PlannedEnd;
    HonestSlices(shard, store, m, 0, m.idCount);
    SilentIsGood(p.limits);
    PlannedAdvances(m, p, NextOf(before));
    FailsIffUnderreportedInReach(shard, store, m, respond, Silent, p, before, r, done);
    assert Underreports(Silent(Listed(m)[NextOf(before)]));
    RunProgress(m, respond, p, before, done, 1);
  }

  // ---------------------------------------------------------------- chains of runs

  datatype BackfillRun = BackfillRun(params: RunParams, done: seq<BatchResult>)

  /** Each run starts from the watermark its predecessor ended with, under bounds of its own. */
  ghost predicate Chain(m: Manifest, respond: Provider, before: Option<Watermark>, runs: seq<BackfillRun>)
    decreases |runs|
  {
    runs == [] ||
    (&& RunOf(m, respond, runs[0].params, before, runs[0].done)
     && Chain(m, respond, After(before, runs[0].done, |runs[0].done|), runs[1..]))
  }

  function ChainEnd(before: Option<Watermark>, runs: seq<BackfillRun>): Option<Watermark>
    decreases |runs|
  {
    if runs == [] then before else ChainEnd(After(before, runs[0].done, |runs[0].done|), runs[1..])
  }

  function ChainItems(runs: seq<BackfillRun>): seq<LookupResult> {
    if runs == [] then [] else ItemsOf(runs[0].done, |runs[0].done|) + ChainItems(runs[1..])
  }

  lemma {:induction false} ChainLooksUp(shard: ShardOf, store: set<PageId>, m: Manifest, respond: Provider,
                                        lookup: string -> LookupResult, limits: Limits,
                                        before: Option<Watermark>, runs: seq<BackfillRun>)
    requires Honest(shard, store, m) && Implements(respond, lookup) && GoodLookup(lookup, limits)
    requires NextOf(before) <= m.idCount && Chain(m, respond, before, runs)
    ensures NextOf(before) <= NextOf(ChainEnd(before, runs)) <= m.idCount == |Listed(m)|
    ensures ChainItems(runs) == LookupAll(lookup, Listed(m)[NextOf(before)..NextOf(ChainEnd(before, runs))])
    decreases |runs|
  {
    hide Honest, GoodLookup, Implements, RunOf, ItemsOf;
    HonestSlices(shard, store, m, 0, m.idCount);
    if runs != [] {
      var run := runs[0];
      var middle := After(before, run.done, |run.done|);
      RunLooksUp(shard, store, m, respond, lookup, limits, run.params, before, run.done, |run.done|);
      ChainLooksUp(shard, store, m, respond, lookup, limits, middle, runs[1..]);
      LookupAllAppend(lookup, Listed(m), NextOf(before), NextOf(middle), NextOf(ChainEnd(middle, runs[1..])));
    }
  }

  /** Split invariance, end to end.  Take any IDs, any page size, the manifest published for them, and any chain of
      runs over it, however batched, bounded and stopped.  The receipts, joined, are the lookups of the first IDs in
      (shard, ID) order, each once; when the chain has exhausted the manifest, of all of them. */
  lemma BackfillIsMapOfLookup(shard: ShardOf, values: seq<string>, binding: nat, pageSize: nat, store: set<PageId>,
                              respond: Provider, lookup: string -> LookupResult, limits: Limits, runs: seq<BackfillRun>)
    requires 0 < pageSize <= MAX_DISCOVERED_PAGE_IDS && forall id :: IsShard(shard(id))
    requires Implements(respond, lookup) && GoodLookup(lookup, limits)
    requires var m := ManifestOf(binding, pageSize, RowsOf(shard, DiscoveredIds(shard, values), pageSize));
             (forall ref :: ref in m.pages ==> ref.stored in store) && Chain(m, respond, None, runs)
    ensures var ids := DiscoveredIds(shard, values);
            var reached := NextOf(ChainEnd(None, runs));
            && reached <= |ids|
            && ChainItems(runs) == LookupAll(lookup, ids[..reached])
            && (reached == |ids| ==> ChainItems(runs) == LookupAll(lookup, ids))
  {
    hide Implements, GoodLookup, DiscoveredIds, Chain, PagesOf, RefsOf, ValidManifest, ValidPageRef, Acceptable;
    var ids := DiscoveredIds(shard, values);
    var rows := RowsOf(shard, ids, pageSize);
    IteratedAreAcceptable(shard, values, pageSize);
    PublishedManifestValid(shard, binding, rows, pageSize);
    var m := ManifestOf(binding, pageSize, rows);
    assert IdsOf(rows) == ids;
    forall i | 0 <= i < |m.pages|
      ensures Readable(shard, store, m.pages[i], m.binding)
    {
      assert m.pages[i] in m.pages;
    }
    ChainLooksUp(shard, store, m, respond, lookup, limits, None, runs);
    assert ids[0..NextOf(ChainEnd(None, runs))] == ids[..NextOf(ChainEnd(None, runs))];
    assert ids[..|ids|] == ids;
  }
}
