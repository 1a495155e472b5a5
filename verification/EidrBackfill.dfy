/** Exact-ID lookups over a discovered manifest: one batch, one bounded run, and any chain of resumed runs. */
module EidrBackfill {
  import opened Prelude
  import opened Ordering
  import opened EidrPages

  const MAX_LOOKUP_BATCH_IDS := 1000
  const MAX_MAX_XML_BYTES := 64 * 1024 * 1024
  const MAX_RECORD_SHARD_BYTES := 128 * 1024 * 1024
  const MAX_BACKFILL_MAX_BATCHES := 4096
  const MAX_BACKFILL_MAX_IDS := MAX_BACKFILL_MAX_BATCHES * MAX_LOOKUP_BATCH_IDS
  const MAX_BACKFILL_MAX_DURATION_SECONDS := 604800.0

  // ---------------------------------------------------------------- provider results

  datatype LookupStatus = Found | NotFound

  /** A response body: its size, the one record it holds, if it holds exactly one, and the size of that record's
      envelope line. */
  datatype Xml = Xml(size: nat, record: Option<string>, line: nat)

  /** The byte bounds on one response and on one record shard. */
  datatype Limits = Limits(xml: nat, shard: nat)

  datatype LookupResult = LookupResult(id: string, status: LookupStatus, xml: Option<Xml>, attempts: int, retries: int,
                                       rateLimits: int)

  /** `EidrExactLookupResult.__post_init__`. */
  predicate ValidResult(r: LookupResult) {
    && r.attempts >= 1
    && 0 <= r.retries < r.attempts
    && 0 <= r.rateLimits <= r.retries
    && (r.status.Found? <==> r.xml.Some?)
    && (r.xml.Some? ==> r.xml.value.size > 0)
  }

  type Provider = seq<string> -> seq<LookupResult>

  datatype BackfillError =
    | BatchSizeBound | XmlBound | ShardBound | WrongWatermark | UnreadablePage | DuplicateIds
    | WrongResultCount | InvalidResult | DuplicateResult | XmlTooLarge | WrongResultIds | WrongRecord | RecordTooLarge
    | RunBounds | ClockWentBack | RetryMismatch | RunManifestInvalid

  function ResultIds(raw: seq<LookupResult>): seq<string> {
    seq(|raw|, i requires 0 <= i < |raw| => raw[i].id)
  }

  predicate WithinXmlBound(r: LookupResult, limits: Limits) { r.xml.Some? ==> r.xml.value.size <= limits.xml }

  /** One valid, bounded result for each requested ID and no other. */
  ghost predicate AnswersExactly(raw: seq<LookupResult>, items: seq<string>, limits: Limits) {
    && |raw| == |items|
    && (forall r :: r in raw ==> ValidResult(r) && WithinXmlBound(r, limits))
    && Distinct(ResultIds(raw))
    && (forall id :: id in items <==> id in ResultIds(raw))
  }

  /** The results in request order. */
  ghost predicate InRequestOrder(raw: seq<LookupResult>, items: seq<string>, results: seq<LookupResult>) {
    |results| == |items| && forall i :: 0 <= i < |items| ==> results[i] in raw && results[i].id == items[i]
  }

  lemma DuplicateRefutes(raw: seq<LookupResult>, n: nat, items: seq<string>, limits: Limits)
    requires n < |raw| && raw[n].id in ResultIds(raw[..n])
    ensures !AnswersExactly(raw, items, limits)
  {
    var j :| 0 <= j < n && ResultIds(raw[..n])[j] == raw[n].id;
    assert ResultIds(raw)[j] == ResultIds(raw)[n];
  }

  /** `_provider_results`: whatever order the provider answers in, the results come back in request order. */
  method ProviderResults(respond: Provider, items: seq<string>, limits: Limits)
    returns (r: Result<seq<LookupResult>, BackfillError>)
    ensures r.Ok? <==> AnswersExactly(respond(items), items, limits)
    ensures r.Ok? ==> InRequestOrder(respond(items), items, r.value)
    ensures r.Err? ==> r.error != RetryMismatch
  {
    var answered := respond(items);
    var raw := if |answered| <= |items| + 1 then answered else answered[..|items| + 1];
    if |raw| != |items| {
      return Err(WrongResultCount);
    }
    var byId: map<string, LookupResult> := map[];
    var n := 0;
    while n < |raw|
      invariant 0 <= n <= |raw|
      invariant forall j :: 0 <= j < n ==> ValidResult(raw[j]) && WithinXmlBound(raw[j], limits)
      invariant Distinct(ResultIds(raw[..n]))
      invariant forall id :: id in byId <==> id in ResultIds(raw[..n])
      invariant forall id :: id in byId ==> byId[id] in raw && byId[id].id == id
    {
      var result := raw[n];
      if !ValidResult(result) {
        return Err(InvalidResult);
      }
      if result.id in byId {
        DuplicateRefutes(raw, n, items, limits);
        return Err(DuplicateResult);
      }
      if !WithinXmlBound(result, limits) {
        return Err(XmlTooLarge);
      }
      assert ResultIds(raw[..n + 1]) == ResultIds(raw[..n]) + [result.id];
      byId := byId[result.id := result];
      n := n + 1;
    }
    assert raw[..n] == raw;
    if byId.Keys != (set id | id in items) {
      assert exists id :: !(id in items <==> id in ResultIds(raw));
      return Err(WrongResultIds);
    }
    var results := seq(|items|, i requires 0 <= i < |items| && items[i] in byId => byId[items[i]]);
    return Ok(results);
  }

  lemma {:induction false} OrderIsUnique(raw: seq<LookupResult>, items: seq<string>, a: seq<LookupResult>,
                                         b: seq<LookupResult>)
    requires Distinct(ResultIds(raw)) && InRequestOrder(raw, items, a) && InRequestOrder(raw, items, b)
    ensures a == b
  {
    forall i | 0 <= i < |items|
      ensures a[i] == b[i]
    {
      var j :| 0 <= j < |raw| && raw[j] == a[i];
      var k :| 0 <= k < |raw| && raw[k] == b[i];
      assert ResultIds(raw)[j] == ResultIds(raw)[k];
    }
  }

  // ---------------------------------------------------------------- batches, receipts and watermarks

  // Each record is identified by the digest of its contents, so the record itself stands for its ID.
  datatype LookupBatch = LookupBatch(manifest: Manifest, before: Option<Watermark>, start: nat, end: nat,
                                     items: seq<string>)

  datatype Capture = Capture(batch: LookupBatch)

  datatype Receipt = Receipt(batch: LookupBatch, start: nat, next: nat, items: seq<LookupResult>, retries: int,
                             rateLimits: int, capture: Option<Capture>)

  datatype Watermark = Watermark(manifest: Manifest, total: nat, next: nat, previous: Option<Watermark>,
                                 receipt: Receipt)

  datatype BatchResult = BatchResult(batch: LookupBatch, receipt: Receipt, watermark: Watermark)

  function SumOf(items: seq<LookupResult>, f: LookupResult -> int): int {
    if items == [] then 0 else f(items[0]) + SumOf(items[1..], f)
  }

  function Attempts(items: seq<LookupResult>): int { SumOf(items, (r: LookupResult) => r.attempts) }

  function Retries(items: seq<LookupResult>): int { SumOf(items, (r: LookupResult) => r.retries) }

  function RateLimits(items: seq<LookupResult>): int { SumOf(items, (r: LookupResult) => r.rateLimits) }

  function FoundCount(items: seq<LookupResult>): int {
    SumOf(items, (r: LookupResult) => if r.status.Found? then 1 else 0)
  }

  function NextOf(watermark: Option<Watermark>): nat {
    if watermark.None? then 0 else watermark.value.next
  }

  /** `EidrBackfillWatermark` as its own validator accepts it. */
  ghost predicate ValidWatermark(watermark: Option<Watermark>) {
    watermark.Some? ==> watermark.value.next <= watermark.value.total
  }

  predicate Binds(watermark: Option<Watermark>, m: Manifest) {
    watermark.Some? ==> watermark.value.manifest == m && watermark.value.total == m.idCount
  }

  predicate WellAnswered(r: LookupResult) { r.status.Found? ==> r.xml.Some? && r.xml.value.record == Some(r.id) }

  /** The record's line fits into a shard: what publishing it through the connector still demands. */
  predicate FitsShard(r: LookupResult, limits: Limits) {
    r.status.Found? && r.xml.Some? ==> r.xml.value.line <= limits.shard
  }

  predicate AnyFound(results: seq<LookupResult>) { exists r :: r in results && r.status.Found? }

  function ReceiptOf(batch: LookupBatch, results: seq<LookupResult>): Receipt {
    Receipt(batch, batch.start, batch.end, results, Retries(results), RateLimits(results),
            if AnyFound(results) then Some(Capture(batch)) else None)
  }

  /** The four counters of a list of results are plain sums. */
  lemma CountersAdd(r: LookupResult, rest: seq<LookupResult>)
    ensures Attempts([]) == 0 && Attempts([r] + rest) == r.attempts + Attempts(rest)
    ensures Retries([]) == 0 && Retries([r] + rest) == r.retries + Retries(rest)
    ensures RateLimits([]) == 0 && RateLimits([r] + rest) == r.rateLimits + RateLimits(rest)
    ensures FoundCount([]) == 0 && FoundCount([r] + rest) == FoundCount(rest) + (if r.status == Found then 1 else 0)
  {
    assert ([r] + rest)[1..] == rest;
  }

  /** A result that may be kept: counted attempts, and a body exactly if the ID was found, within both byte bounds and
      holding the record of that ID alone. */
  ghost predicate Proper(r: LookupResult, limits: Limits) {
    && r.attempts >= 1 && 0 <= r.retries < r.attempts && 0 <= r.rateLimits <= r.retries
    && match r.status
       case NotFound => r.xml == None
       case Found =>
         && r.xml.Some? && 0 < r.xml.value.size <= limits.xml
         && r.xml.value.record == Some(r.id) && r.xml.value.line <= limits.shard
  }

  /** What a batch hands on: a proper result for each ID of its range in order, and a receipt that sums them up and
      names a capture exactly if an ID was found. */
  ghost predicate Reports(b: BatchResult, limits: Limits) {
    var items := b.receipt.items;
    && |items| == |b.batch.items| == b.batch.end - b.batch.start
    && (forall i :: 0 <= i < |items| ==> items[i].id == b.batch.items[i] && Proper(items[i], limits))
    && b.receipt.batch == b.batch && b.receipt.start == b.batch.start && b.receipt.next == b.batch.end
    && b.receipt.retries == Retries(items) && b.receipt.rateLimits == RateLimits(items)
    && (if exists i :: 0 <= i < |items| && items[i].status == Found then b.receipt.capture == Some(Capture(b.batch))
        else b.receipt.capture == None)
  }

  /** Exact answers to a batch make its results proper. */
  lemma AnswersAreProper(raw: seq<LookupResult>, items: seq<string>, results: seq<LookupResult>, limits: Limits)
    requires AnswersExactly(raw, items, limits) && InRequestOrder(raw, items, results)
    requires forall r :: r in raw ==> WellAnswered(r) && FitsShard(r, limits)
    ensures forall i :: 0 <= i < |results| ==> results[i].id == items[i] && Proper(results[i], limits)
  {
  }

  lemma ReceiptReports(raw: seq<LookupResult>, batch: LookupBatch, results: seq<LookupResult>, limits: Limits,
                       watermark: Watermark)
    requires AnswersExactly(raw, batch.items, limits) && InRequestOrder(raw, batch.items, results)
    requires forall r :: r in raw ==> WellAnswered(r) && FitsShard(r, limits)
    requires |batch.items| == batch.end - batch.start
    ensures Reports(BatchResult(batch, ReceiptOf(batch, results), watermark), limits)
  {
    AnswersAreProper(raw, batch.items, results, limits);
    hide Proper, AnswersExactly, Retries, RateLimits;
    assert AnyFound(results) <==> exists i :: 0 <= i < |results| && results[i].status == Found;
  }

  /** A watermark lets the next batch go on over its own manifest, and over no other. */
  lemma ResumesOwnManifest(m: Manifest, respond: Provider, before: Option<Watermark>, size: nat, b: BatchResult,
                           other: Manifest)
    requires NextOf(before) <= m.idCount && Committed(m, respond, before, size, b)
    ensures Binds(None, other)
    ensures Binds(Some(b.watermark), other) <==> other == m
    ensures NextOf(Some(b.watermark)) == b.batch.end && b.batch.start == NextOf(before)
  {
  }

  /** What one committed batch is: the next range, looked up in order, with its receipt and watermark. */
  ghost predicate Committed(m: Manifest, respond: Provider, before: Option<Watermark>, size: nat, b: BatchResult)
    requires NextOf(before) <= m.idCount
  {
    var start := NextOf(before);
    var end := Min(m.idCount, start + size);
    && start < end
    && b.batch == LookupBatch(m, before, start, end, Selection(m.pages, |m.pages|, start, end))
    && |b.batch.items| == end - start
    && InRequestOrder(respond(b.batch.items), b.batch.items, b.receipt.items)
    && (forall r :: r in b.receipt.items ==> ValidResult(r) && WellAnswered(r))
    && b.receipt == ReceiptOf(b.batch, b.receipt.items)
    && b.watermark == Watermark(m, m.idCount, end, before, b.receipt)
  }

  /** The store holds every page of the manifest as its pointer describes it. */
  ghost predicate Honest(shard: ShardOf, store: set<PageId>, m: Manifest) {
    && ValidManifest(m)
    && (forall ref :: ref in m.pages ==> ValidPageRef(shard, ref))
    && forall i :: 0 <= i < |m.pages| ==> Readable(shard, store, m.pages[i], m.binding)
  }

  /** Request order loses no result. */
  lemma OrderKeepsResults(raw: seq<LookupResult>, items: seq<string>, results: seq<LookupResult>, limits: Limits)
    requires AnswersExactly(raw, items, limits) && InRequestOrder(raw, items, results)
    ensures forall r :: r in results <==> r in raw
  {
    forall r | r in raw
      ensures r in results
    {
      var j :| 0 <= j < |raw| && raw[j] == r;
      assert ResultIds(raw)[j] == r.id;
      assert r.id in items;
      var i :| 0 <= i < |items| && items[i] == r.id;
      var k :| 0 <= k < |raw| && raw[k] == results[i];
      assert ResultIds(raw)[k] == ResultIds(raw)[j];
    }
    forall r | r in results
      ensures r in raw
    {
      var i :| 0 <= i < |results| && results[i] == r;
    }
  }

  /** When one batch goes through: bounds, the right watermark, readable pages, distinct IDs, exact answers, and
      found records that a shard can hold. */
  ghost predicate BatchSucceeds(shard: ShardOf, store: set<PageId>, m: Manifest, respond: Provider, limits: Limits,
                                before: Option<Watermark>, size: nat) {
    && 0 < size <= MAX_LOOKUP_BATCH_IDS && 0 < limits.xml <= MAX_MAX_XML_BYTES
    && 0 < limits.shard <= MAX_RECORD_SHARD_BYTES
    && Binds(before, m) && NextOf(before) <= m.idCount
    && (NextOf(before) < m.idCount ==>
          var end := Min(m.idCount, NextOf(before) + size);
          var items := Selection(m.pages, |m.pages|, NextOf(before), end);
          && (forall i :: 0 <= i < |m.pages| && Overlaps(m.pages[i], NextOf(before), end) ==>
              Readable(shard, store, m.pages[i], m.binding))
          && Distinct(items)
          && AnswersExactly(respond(items), items, limits)
          && forall r :: r in respond(items) ==> WellAnswered(r) && FitsShard(r, limits))
  }

  /** `_run_eidr_exact_lookup_batch`; None when nothing is left. */
  method RunExactLookupBatch(shard: ShardOf, valid: Page -> bool, store: set<PageId>, m: Manifest, respond: Provider,
                             limits: Limits, before: Option<Watermark>, batchSize: nat)
    returns (r: Result<Option<BatchResult>, BackfillError>)
    requires forall page :: valid(page) <==> ValidPage(shard, page)
    requires ValidManifest(m) && ValidWatermark(before)
    ensures r.Ok? <==> BatchSucceeds(shard, store, m, respond, limits, before, batchSize)
    ensures r.Ok? ==> (r.value.None? <==> NextOf(before) == m.idCount)
    ensures r.Ok? && r.value.Some? ==> Committed(m, respond, before, batchSize, r.value.value)
    ensures r.Ok? && r.value.Some? ==> Reports(r.value.value, limits)
    ensures r.Err? ==> r.error != RetryMismatch
  {
    hide ValidPage, Readable, Distinct, ValidManifest, Selection, Overlaps, Retries, RateLimits, AnyFound, ValidResult,
      WellAnswered, FitsShard, Reports;
    if !(0 < batchSize <= MAX_LOOKUP_BATCH_IDS) {
      return Err(BatchSizeBound);
    }
    if !(0 < limits.xml <= MAX_MAX_XML_BYTES) {
      return Err(XmlBound);
    }
    if !(0 < limits.shard <= MAX_RECORD_SHARD_BYTES) {
      return Err(ShardBound);
    }
    if !Binds(before, m) {
      return Err(WrongWatermark);
    }
    var start := NextOf(before);
    if start == m.idCount {
      return Ok(None);
    }
    var selected := SelectLookupItems(shard, valid, store, m, start, batchSize);
    if selected.Err? {
      return Err(UnreadablePage);
    }
    var items := selected.value;
    var end := start + |items|;
    DistinctCount(items);
    if |set id | id in items| != |items| {
      return Err(DuplicateIds);
    }
    var batch := LookupBatch(m, before, start, end, items);
    var answered := ProviderResults(respond, items, limits);
    if answered.Err? {
      return Err(answered.error);
    }
    var results := answered.value;
    OrderKeepsResults(respond(items), items, results, limits);
    if exists r :: r in results && !WellAnswered(r) {
      return Err(WrongRecord);
    }
    if exists r :: r in results && !FitsShard(r, limits) {
      return Err(RecordTooLarge);
    }
    var receipt := ReceiptOf(batch, results);
    ReceiptReports(respond(items), batch, results, limits, Watermark(m, m.idCount, end, before, receipt));
    return Ok(Some(BatchResult(batch, receipt, Watermark(m, m.idCount, end, before, receipt))));
  }

  // ---------------------------------------------------------------- a provider that is a function of the ID

  function LookupAll(lookup: string -> LookupResult, ids: seq<string>): seq<LookupResult> {
    seq(|ids|, i requires 0 <= i < |ids| => lookup(ids[i]))
  }

  /** The provider answers each request with `lookup` of its IDs, in any order. */
  ghost predicate Implements(respond: Provider, lookup: string -> LookupResult) {
    forall ids :: Distinct(ids) ==> multiset(respond(ids)) == multiset(LookupAll(lookup, ids))
  }

  ghost predicate GoodLookup(lookup: string -> LookupResult, limits: Limits) {
    forall id :: lookup(id).id == id && Proper(lookup(id), limits)
  }

  lemma RespondsWithLookups(respond: Provider, lookup: string -> LookupResult, ids: seq<string>)
    requires Implements(respond, lookup) && Distinct(ids)
    ensures |respond(ids)| == |ids|
    ensures forall r :: r in respond(ids) <==> r in LookupAll(lookup, ids)
  {
    assert |multiset(respond(ids))| == |multiset(LookupAll(lookup, ids))|;
    forall r
      ensures r in respond(ids) <==> r in LookupAll(lookup, ids)
    {
      assert r in multiset(respond(ids)) <==> r in multiset(LookupAll(lookup, ids));
    }
  }

  lemma DistinctAnswers(raw: seq<LookupResult>, wanted: seq<LookupResult>)
    requires multiset(raw) == multiset(wanted) && Distinct(ResultIds(wanted))
    ensures Distinct(ResultIds(raw))
  {
    forall i, j | 0 <= i < j < |wanted|
      ensures wanted[i] != wanted[j]
    {
      assert ResultIds(wanted)[i] != ResultIds(wanted)[j];
    }
    DistinctMultiset(wanted);
    forall r | r in raw
      ensures multiset(raw)[r] == 1
    {
      assert r in multiset(raw);
      assert r in wanted;
    }
    MultisetDistinct(raw);
    forall i, j | 0 <= i < j < |raw|
      ensures raw[i].id != raw[j].id
    {
      assert raw[i] in multiset(raw) && raw[j] in multiset(raw);
      var a :| 0 <= a < |wanted| && wanted[a] == raw[i];
      var b :| 0 <= b < |wanted| && wanted[b] == raw[j];
      assert ResultIds(wanted)[a] == raw[i].id && ResultIds(wanted)[b] == raw[j].id;
    }
  }

  /** Such a provider's answers always pass the checks, and come back as the lookups themselves. */
  lemma LookupsAccepted(respond: Provider, lookup: string -> LookupResult, ids: seq<string>, limits: Limits)
    requires Implements(respond, lookup) && GoodLookup(lookup, limits) && Distinct(ids)
    ensures AnswersExactly(respond(ids), ids, limits)
    ensures forall r :: r in respond(ids) ==> WellAnswered(r) && FitsShard(r, limits)
    ensures forall results :: InRequestOrder(respond(ids), ids, results) ==> results == LookupAll(lookup, ids)
  {
    var raw, wanted := respond(ids), LookupAll(lookup, ids);
    RespondsWithLookups(respond, lookup, ids);
    assert ResultIds(wanted) == ids;
    DistinctAnswers(raw, wanted);
    forall r | r in raw
      ensures r == lookup(r.id) && r.id in ids
    {
      var i :| 0 <= i < |wanted| && wanted[i] == r;
    }
    forall id
      ensures id in ids <==> id in ResultIds(raw)
    {
      if id in ids {
        var i :| 0 <= i < |ids| && ids[i] == id;
        assert wanted[i] in raw;
        var j :| 0 <= j < |raw| && raw[j] == wanted[i];
        assert ResultIds(raw)[j] == id;
      }
      if id in ResultIds(raw) {
        var j :| 0 <= j < |raw| && ResultIds(raw)[j] == id;
        assert raw[j] in raw;
      }
    }
    forall results | InRequestOrder(raw, ids, results)
      ensures results == wanted
    {
      forall i | 0 <= i < |ids|
        ensures results[i] == wanted[i]
      {
        assert results[i] in raw;
      }
    }
  }

  // ---------------------------------------------------------------- a manifest lists every ID once

  lemma PageItemBounds(shard: ShardOf, store: set<PageId>, ref: PageRef, binding: nat, k: nat)
    requires Readable(shard, store, ref, binding) && k < |ref.stored.page.items|
    ensures StrLe(ref.first, ref.stored.page.items[k]) && StrLe(ref.stored.page.items[k], ref.last)
    ensures shard(ref.stored.page.items[k]) == ref.shard
  {
    var items := ref.stored.page.items;
    StrLeTotal(items[k], items[k]);
    assert items[k] in items;
    if k > 0 {
      assert StrLess(items[0], items[k]);
    }
    if k < |items| - 1 {
      assert StrLess(items[k], items[|items| - 1]);
    }
  }

  lemma PagesShareNoId(shard: ShardOf, store: set<PageId>, m: Manifest, i: nat, j: nat, a: nat, b: nat)
    requires Honest(shard, store, m) && i < j < |m.pages|
    requires a < |m.pages[i].stored.page.items| && b < |m.pages[j].stored.page.items|
    ensures m.pages[i].stored.page.items[a] != m.pages[j].stored.page.items[b]
  {
    PageItemBounds(shard, store, m.pages[i], m.binding, a);
    PageItemBounds(shard, store, m.pages[j], m.binding, b);
    if m.pages[i].shard == m.pages[j].shard {
      assert StrLess(m.pages[i].last, m.pages[j].first);
      StrLessTransitive(m.pages[i].stored.page.items[a], m.pages[i].last, m.pages[j].first);
      StrLessTransitive(m.pages[i].stored.page.items[a], m.pages[j].first, m.pages[j].stored.page.items[b]);
    }
  }

  lemma {:induction false} AllIdsFrom(pages: seq<PageRef>, n: nat, id: string) returns (i: nat, a: nat)
    requires n <= |pages| && id in AllIds(pages, n)
    ensures i < n && a < |pages[i].stored.page.items| && pages[i].stored.page.items[a] == id
  {
    if id in AllIds(pages, n - 1) {
      i, a := AllIdsFrom(pages, n - 1, id);
    } else {
      i := n - 1;
      a :| 0 <= a < |pages[i].stored.page.items| && pages[i].stored.page.items[a] == id;
    }
  }

  /** No ID occurs twice, within a page or across pages. */
  lemma {:induction false} AllIdsDistinct(shard: ShardOf, store: set<PageId>, m: Manifest, n: nat)
    requires Honest(shard, store, m) && n <= |m.pages|
    ensures Distinct(AllIds(m.pages, n))
  {
    hide ValidManifest, ValidPageRef, StrLess, Readable;
    if n > 0 {
      AllIdsDistinct(shard, store, m, n - 1);
      var before, items := AllIds(m.pages, n - 1), m.pages[n - 1].stored.page.items;
      ReadableDistinct(shard, store, m.pages[n - 1], m.binding);
      forall x, y | 0 <= x < |before| && 0 <= y < |items|
        ensures before[x] != items[y]
      {
        var i, a := AllIdsFrom(m.pages, n - 1, before[x]);
        PagesShareNoId(shard, store, m, i, n - 1, a, y);
      }
    }
  }

  lemma ReadableDistinct(shard: ShardOf, store: set<PageId>, ref: PageRef, binding: nat)
    requires Readable(shard, store, ref, binding)
    ensures Distinct(ref.stored.page.items)
  {
    var items := ref.stored.page.items;
    assert forall x, y :: 0 <= x < y < |items| ==> StrLess(items[x], items[y]);
  }
}
