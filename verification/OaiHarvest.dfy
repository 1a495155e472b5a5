/** The OAI-PMH resumption walk: one bounded capture, and chains of captures resumed from watermarks. */
module OaiHarvest {
  import opened Prelude

  type Token = string

  datatype Record = Record(id: string, bytes: nat, datestamp: nat)

  datatype Page = Page(bytes: nat, records: seq<Record>, token: Option<Token>, retries: nat, rateLimits: nat)

  datatype HarvestError =
    | BadBound | WrongWatermark | TerminalWatermark | FetchFailed
    | PageBytes | TotalBytes | TooManyRecords | DuplicateRecord | RecordBytes | RepeatedToken

  /** The repository: a fixed map from resumption token to page (section 3.5.1 of OAI-PMH 2.0). */
  type Fetch = Option<Token> -> Result<Page, HarvestError>

  datatype Bounds = Bounds(maxPages: nat, maxRecords: nat, maxPageBytes: nat, maxTotalBytes: nat, maxRecordBytes: nat)

  const MAX_PAGES := 1000
  const MAX_RECORDS := 10000
  const MAX_PAGE_BYTES := 64 * 1024 * 1024
  const MAX_TOTAL_BYTES := 1024 * 1024 * 1024
  const MAX_RECORD_BYTES := 16 * 1024 * 1024

  predicate ValidBounds(b: Bounds) {
    && 0 < b.maxPages <= MAX_PAGES && 0 < b.maxRecords <= MAX_RECORDS && 0 < b.maxPageBytes <= MAX_PAGE_BYTES
    && 0 < b.maxTotalBytes <= MAX_TOTAL_BYTES && 0 < b.maxRecordBytes <= MAX_RECORD_BYTES
  }

  /** The largest capture the bounds let through; one more of anything, or none of it, is refused. */
  lemma BoundsAreTight(more: Bounds)
    requires more.maxPages > 1000 || more.maxRecords > 10000 || more.maxPageBytes > 67108864
             || more.maxTotalBytes > 1073741824 || more.maxRecordBytes > 16777216
             || more.maxPages == 0 || more.maxRecords == 0 || more.maxPageBytes == 0 || more.maxTotalBytes == 0
             || more.maxRecordBytes == 0
    ensures ValidBounds(Bounds(1000, 10000, 67108864, 1073741824, 16777216)) && ValidBounds(Bounds(1, 1, 1, 1, 1))
    ensures !ValidBounds(more)
  {
  }

  /** The fields a watermark must share with the capture that resumes from it, and its cursor. */
  datatype Watermark = Watermark(window: (int, int), config: nat, image: nat, policy: nat, cursor: Option<Token>)

  // ---------------------------------------------------------------- the token walk

  /** The token that fetches page `i` of a walk from `token`. */
  function TokenAt(token: Option<Token>, pages: seq<Page>, i: nat): Option<Token>
    requires i <= |pages|
  {
    if i == 0 then token else pages[i - 1].token
  }

  /** Page `i` was fetched with the token of the page before. */
  ghost predicate FetchedAt(fetch: Fetch, token: Option<Token>, pages: seq<Page>, i: nat)
    requires i < |pages|
  {
    fetch(TokenAt(token, pages, i)) == Ok(pages[i]) && (i > 0 ==> pages[i - 1].token.Some?)
  }

  /** Page by page from a token; only the last page may end the list. */
  ghost predicate IsWalk(fetch: Fetch, token: Option<Token>, pages: seq<Page>) {
    forall i :: 0 <= i < |pages| ==> FetchedAt(fetch, token, pages, i)
  }

  function RecordsOf(pages: seq<Page>): seq<Record> {
    if pages == [] then [] else RecordsOf(pages[..|pages| - 1]) + pages[|pages| - 1].records
  }

  function BytesOf(pages: seq<Page>): nat {
    if pages == [] then 0 else BytesOf(pages[..|pages| - 1]) + pages[|pages| - 1].bytes
  }

  function Ids(records: seq<Record>): seq<string> {
    seq(|records|, i requires 0 <= i < |records| => records[i].id)
  }

  /** The tokens a capture has met after some pages: its own start, and every token the pages handed out. */
  ghost predicate TokensFresh(token: Option<Token>, pages: seq<Page>) {
    && (forall i, j :: 0 <= i < j < |pages| && pages[i].token.Some? ==> pages[i].token != pages[j].token)
    && (forall i :: 0 <= i < |pages| && token.Some? ==> pages[i].token != token)
  }

  /** The bounds and uniqueness checks of the capture loop. */
  ghost predicate Clean(b: Bounds, token: Option<Token>, pages: seq<Page>) {
    && (forall p :: p in pages ==> 0 < p.bytes <= b.maxPageBytes)
    && BytesOf(pages) <= b.maxTotalBytes
    && |RecordsOf(pages)| <= b.maxRecords
    && Distinct(Ids(RecordsOf(pages)))
    && (forall r :: r in RecordsOf(pages) ==> r.bytes <= b.maxRecordBytes)
    && TokensFresh(token, pages)
  }

  /** Where the capture loop ends: at the last page of the list, or at a page or record bound. */
  ghost predicate Stops(b: Bounds, pages: seq<Page>) {
    pages != [] && (pages[|pages| - 1].token.None? || |RecordsOf(pages)| >= b.maxRecords || |pages| == b.maxPages)
  }

  /** The pages one capture collects: a clean walk that stops where the loop first can. */
  ghost predicate Captures(fetch: Fetch, b: Bounds, token: Option<Token>, pages: seq<Page>) {
    && IsWalk(fetch, token, pages) && Clean(b, token, pages)
    && Stops(b, pages) && forall n :: 0 < n < |pages| ==> !Stops(b, pages[..n])
  }

  datatype Capture = Capture(pages: seq<Page>, records: seq<Record>, terminal: bool, next: Option<Token>, retries: nat,
                             rateLimits: nat, bytes: nat)

  function RetriesOf(pages: seq<Page>): nat {
    if pages == [] then 0 else RetriesOf(pages[..|pages| - 1]) + pages[|pages| - 1].retries
  }

  function RateLimitsOf(pages: seq<Page>): nat {
    if pages == [] then 0 else RateLimitsOf(pages[..|pages| - 1]) + pages[|pages| - 1].rateLimits
  }

  // ---------------------------------------------------------------- determinism of walks

  lemma {:induction false} WalksAgree(fetch: Fetch, token: Option<Token>, a: seq<Page>, b: seq<Page>, n: nat)
    requires IsWalk(fetch, token, a) && IsWalk(fetch, token, b) && n <= |a| && n <= |b|
    ensures a[..n] == b[..n]
  {
    if n > 0 {
      WalksAgree(fetch, token, a, b, n - 1);
      assert FetchedAt(fetch, token, a, n - 1) && FetchedAt(fetch, token, b, n - 1);
      if n > 1 {
        assert a[n - 2] == a[..n - 1][n - 2] == b[..n - 1][n - 2] == b[n - 2];
      }
    }
  }

  lemma WalkExtends(fetch: Fetch, token: Option<Token>, pages: seq<Page>, page: Page)
    requires IsWalk(fetch, token, pages) && fetch(TokenAt(token, pages, |pages|)) == Ok(page)
    requires pages != [] ==> pages[|pages| - 1].token.Some?
    ensures IsWalk(fetch, token, pages + [page])
  {
    var more := pages + [page];
    forall i | 0 <= i < |more|
      ensures FetchedAt(fetch, token, more, i)
    {
      assert i < |pages| ==> FetchedAt(fetch, token, pages, i);
    }
  }

  /** Two complete walks from one token are the same walk. */
  lemma TerminalWalkUnique(fetch: Fetch, token: Option<Token>, a: seq<Page>, b: seq<Page>)
    requires IsWalk(fetch, token, a) && IsWalk(fetch, token, b) && a != [] && b != []
    requires a[|a| - 1].token.None? && b[|b| - 1].token.None?
    ensures a == b
  {
    PrefixOfWhole(fetch, token, a, b);
    PrefixOfWhole(fetch, token, b, a);
  }

  /** No walk outruns the end of the list. */
  lemma PrefixOfWhole(fetch: Fetch, token: Option<Token>, pages: seq<Page>, whole: seq<Page>)
    requires IsWalk(fetch, token, pages)
    requires IsWalk(fetch, token, whole) && whole != [] && whole[|whole| - 1].token.None?
    ensures pages <= whole
  {
    var n := if |pages| <= |whole| then |pages| else |whole|;
    assert |pages| > |whole| ==> FetchedAt(fetch, token, pages, n);
    WalksAgree(fetch, token, pages, whole, n);
    assert pages[..n] == whole[..n];
    assert n > 0 ==> pages[..n][n - 1] == pages[n - 1];
  }

  lemma WalkSuffix(fetch: Fetch, token: Option<Token>, pages: seq<Page>, n: nat)
    requires IsWalk(fetch, token, pages) && n <= |pages|
    ensures IsWalk(fetch, TokenAt(token, pages, n), pages[n..])
  {
    forall i | 0 <= i < |pages[n..]|
      ensures FetchedAt(fetch, TokenAt(token, pages, n), pages[n..], i)
    {
      assert FetchedAt(fetch, token, pages, n + i);
    }
  }

  /** A walk that reaches the end of the list fetches every token once: no page is fetched twice. */
  lemma FinishedWalkNeverRepeats(fetch: Fetch, token: Option<Token>, pages: seq<Page>, i: nat, j: nat)
    requires IsWalk(fetch, token, pages) && pages != [] && pages[|pages| - 1].token.None?
    requires i < j < |pages|
    ensures TokenAt(token, pages, i) != TokenAt(token, pages, j)
  {
    hide IsWalk;
    WalkSuffix(fetch, token, pages, i);
    WalkSuffix(fetch, token, pages, j);
    if TokenAt(token, pages, i) == TokenAt(token, pages, j) {
      TerminalWalkUnique(fetch, TokenAt(token, pages, i), pages[i..], pages[j..]);
    }
  }

  // ---------------------------------------------------------------- one capture

  lemma CleanPrefix(b: Bounds, token: Option<Token>, pages: seq<Page>, n: nat)
    requires n <= |pages| && Clean(b, token, pages)
    ensures Clean(b, token, pages[..n])
    decreases |pages|
  {
    if n < |pages| {
      CleanShorter(b, token, pages);
      CleanPrefix(b, token, pages[..|pages| - 1], n);
      assert pages[..|pages| - 1][..n] == pages[..n];
    } else {
      assert pages[..n] == pages;
    }
  }

  lemma CleanShorter(b: Bounds, token: Option<Token>, pages: seq<Page>)
    requires pages != [] && Clean(b, token, pages)
    ensures Clean(b, token, pages[..|pages| - 1])
  {
    var front := pages[..|pages| - 1];
    var records, all := RecordsOf(front), RecordsOf(pages);
    assert all == records + pages[|pages| - 1].records;
    forall i, j | 0 <= i < j < |records|
      ensures Ids(records)[i] != Ids(records)[j]
    {
      assert Ids(all)[i] != Ids(all)[j];
    }
    forall r | r in records
      ensures r.bytes <= b.maxRecordBytes
    {
      assert r in all;
    }
  }

  /** One more page keeps the collected pages clean exactly when it passes its own checks. */
  ghost predicate PageChecks(b: Bounds, token: Option<Token>, pages: seq<Page>, page: Page) {
    && 0 < page.bytes <= b.maxPageBytes
    && BytesOf(pages) + page.bytes <= b.maxTotalBytes
    && |RecordsOf(pages)| + |page.records| <= b.maxRecords
    && Distinct(Ids(RecordsOf(pages) + page.records))
    && (forall r :: r in page.records ==> r.bytes <= b.maxRecordBytes)
    && (page.token.Some? ==> page.token != token && forall i :: 0 <= i < |pages| ==> pages[i].token != page.token)
  }

  lemma CleanNext(b: Bounds, token: Option<Token>, pages: seq<Page>, page: Page)
    requires Clean(b, token, pages)
    ensures Clean(b, token, pages + [page]) <==> PageChecks(b, token, pages, page)
    ensures RecordsOf(pages + [page]) == RecordsOf(pages) + page.records
    ensures BytesOf(pages + [page]) == BytesOf(pages) + page.bytes
    ensures RetriesOf(pages + [page]) == RetriesOf(pages) + page.retries
    ensures RateLimitsOf(pages + [page]) == RateLimitsOf(pages) + page.rateLimits
  {
    var more := pages + [page];
    assert more[..|pages|] == pages;
    if Clean(b, token, more) {
      assert page in more;
      forall r | r in page.records
        ensures r.bytes <= b.maxRecordBytes
      {
        assert r in RecordsOf(more);
      }
      if page.token.Some? {
        assert more[|pages|] == page;
        forall i | 0 <= i < |pages|
          ensures pages[i].token != page.token
        {
          assert more[i] == pages[i];
        }
      }
    }
  }

  /** The failing page rules out every capture from this token. */
  lemma BlockedAt(fetch: Fetch, b: Bounds, token: Option<Token>, pages: seq<Page>, other: seq<Page>)
    requires IsWalk(fetch, token, pages) && Captures(fetch, b, token, other)
    requires forall n :: 0 < n <= |pages| ==> !Stops(b, pages[..n])
    ensures |other| > |pages|
    ensures fetch(TokenAt(token, pages, |pages|)) == Ok(other[|pages|])
    ensures Clean(b, token, pages + [other[|pages|]])
  {
    hide Clean, Stops;
    if |other| <= |pages| {
      WalksAgree(fetch, token, pages, other, |other|);
      assert pages[..|other|] == other;
      StopsNonEmpty(b, other);
    } else {
      WalksAgree(fetch, token, pages, other, |pages|);
      assert other[..|pages|] == pages;
      assert FetchedAt(fetch, token, other, |pages|);
      if pages != [] {
        assert other[|pages| - 1] == other[..|pages|][|pages| - 1];
      }
      CleanPrefix(b, token, other, |pages| + 1);
      assert other[..|pages| + 1] == pages + [other[|pages|]];
    }
  }

  lemma StopsNonEmpty(b: Bounds, pages: seq<Page>)
    requires Stops(b, pages)
    ensures pages != []
  {
  }

  /** The per-record loop: new IDs, bounded sizes. */
  method AddRecords(records: seq<Record>, seen: set<string>, maxRecordBytes: nat, ghost earlier: seq<Record>)
    returns (r: Result<set<string>, HarvestError>)
    requires Distinct(Ids(earlier)) && forall id :: id in seen <==> id in Ids(earlier)
    ensures r.Ok? <==> Distinct(Ids(earlier + records)) && forall x :: x in records ==> x.bytes <= maxRecordBytes
    ensures r.Ok? ==> forall id :: id in r.value <==> id in Ids(earlier + records)
  {
    var now := seen;
    var i := 0;
    assert earlier + records[..0] == earlier;
    while i < |records|
      invariant 0 <= i <= |records|
      invariant Distinct(Ids(earlier + records[..i])) && forall k :: 0 <= k < i ==> records[k].bytes <= maxRecordBytes
      invariant forall id :: id in now <==> id in Ids(earlier + records[..i])
    {
      var record := records[i];
      assert Ids(earlier + records[..i + 1]) == Ids(earlier + records[..i]) + [record.id];
      if record.id in now {
        RepeatedId(earlier, records, i);
        return Err(DuplicateRecord);
      }
      now := now + {record.id};
      if record.bytes > maxRecordBytes {
        return Err(RecordBytes);
      }
      i := i + 1;
    }
    assert records[..i] == records;
    return Ok(now);
  }

  lemma RepeatedId(earlier: seq<Record>, records: seq<Record>, i: nat)
    requires i < |records| && records[i].id in Ids(earlier + records[..i])
    ensures !Distinct(Ids(earlier + records))
  {
    var all, before := Ids(earlier + records), Ids(earlier + records[..i]);
    var j :| 0 <= j < |before| && before[j] == records[i].id;
    assert all[j] == before[j] && all[|earlier| + i] == records[i].id;
  }

  ghost predicate IdsSeen(seen: set<string>, records: seq<Record>) {
    forall id :: id in seen <==> id in Ids(records)
  }

  /** The start token and every token the pages handed out. */
  ghost predicate TokensSeen(seen: set<Token>, token: Option<Token>, pages: seq<Page>) {
    && (forall t :: t in seen ==> token == Some(t) || exists i :: 0 <= i < |pages| && pages[i].token == Some(t))
    && (token.Some? ==> token.value in seen)
    && (forall i :: 0 <= i < |pages| && pages[i].token.Some? ==> pages[i].token.value in seen)
  }

  lemma TokensSeenNext(seen: set<Token>, token: Option<Token>, pages: seq<Page>, page: Page)
    requires TokensSeen(seen, token, pages) && page.token.Some?
    ensures TokensSeen(seen + {page.token.value}, token, pages + [page])
  {
    var more := pages + [page];
    forall t | t in seen + {page.token.value}
      ensures token == Some(t) || exists i :: 0 <= i < |more| && more[i].token == Some(t)
    {
      if t == page.token.value {
        assert more[|pages|].token == Some(t);
      } else if token != Some(t) {
        var i :| 0 <= i < |pages| && pages[i].token == Some(t);
        assert more[i].token == Some(t);
      }
    }
  }

  /** The checks of one fetched page, in the source's order; the record IDs seen so far on success. */
  method CheckPage(b: Bounds, token: Option<Token>, ghost pages: seq<Page>, page: Page, records: seq<Record>,
                   seenIds: set<string>, seenTokens: set<Token>, total: nat)
    returns (r: Result<set<string>, HarvestError>)
    requires records == RecordsOf(pages) && total == BytesOf(pages) && Distinct(Ids(records))
    requires IdsSeen(seenIds, records) && TokensSeen(seenTokens, token, pages)
    ensures r.Ok? <==> PageChecks(b, token, pages, page)
    ensures r.Ok? ==> IdsSeen(r.value, records + page.records)
  {
    if page.bytes == 0 || page.bytes > b.maxPageBytes {
      return Err(PageBytes);
    }
    if total + page.bytes > b.maxTotalBytes {
      return Err(TotalBytes);
    }
    if |records| + |page.records| > b.maxRecords {
      return Err(TooManyRecords);
    }
    var seen := AddRecords(page.records, seenIds, b.maxRecordBytes, records);
    if seen.Err? {
      return Err(seen.error);
    }
    if page.token.Some? && page.token.value in seenTokens {
      return Err(RepeatedToken);
    }
    return seen;
  }

  /** What one successful call collected: under valid bounds, from the first page or from where the resume watermark of
      this very window, configuration, image and policy points, and with totals over all of its pages. */
  ghost predicate Harvests(fetch: Fetch, b: Bounds, capture: Watermark, resume: Option<Watermark>, c: Capture) {
    && ValidBounds(b)
    && (match resume
        case None => Captures(fetch, b, None, c.pages) && fetch(None) == Ok(c.pages[0])
        case Some(w) =>
          && w.window == capture.window && w.config == capture.config && w.image == capture.image
          && w.policy == capture.policy && w.cursor.Some?
          && Captures(fetch, b, w.cursor, c.pages) && fetch(w.cursor) == Ok(c.pages[0]))
    && c.records == RecordsOf(c.pages)
    && c.next == c.pages[|c.pages| - 1].token && c.terminal == c.next.None?
    && c.bytes == BytesOf(c.pages) && c.retries == RetriesOf(c.pages) && c.rateLimits == RateLimitsOf(c.pages)
  }

  /** `capture_europeana_oai`'s page loop.  It succeeds exactly when some clean walk from the start token stops, and
      then returns that walk; a token met before ends it with an error, so no cycle can hold one capture. */
  method CaptureWindow(fetch: Fetch, b: Bounds, capture: Watermark, resume: Option<Watermark>)
    returns (r: Result<Capture, HarvestError>)
    ensures r.Ok? <==>
              && ValidBounds(b)
              && (resume.Some? ==>
                    && resume.value.window == capture.window && resume.value.config == capture.config
                    && resume.value.image == capture.image && resume.value.policy == capture.policy
                    && resume.value.cursor.Some?)
              && var start := if resume.None? then None else resume.value.cursor;
                 exists pages :: Captures(fetch, b, start, pages)
    ensures r.Ok? ==> r.value.pages != [] && fetch(if resume.None? then None else resume.value.cursor)
                                             == Ok(r.value.pages[0])
    ensures r.Ok? ==> Harvests(fetch, b, capture, resume, r.value)
  {
    hide Clean, Captures, IsWalk, PageChecks, Stops, IdsSeen, TokensSeen, Ids, RecordsOf, BytesOf, RetriesOf,
      RateLimitsOf;
    if !ValidBounds(b) {
      return Err(BadBound);
    }
    if resume.Some? {
      if resume.value.(cursor := None) != capture.(cursor := None) {
        return Err(WrongWatermark);
      }
      if resume.value.cursor.None? {
        return Err(TerminalWatermark);
      }
    }
    var token := if resume.None? then None else resume.value.cursor;
    var pages: seq<Page> := [];
    var records: seq<Record> := [];
    var seenIds: set<string> := {};
    var seenTokens: set<Token> := if token.None? then {} else {token.value};
    var total, retries, rateLimits := 0, 0, 0;
    var next := token;
    NothingCaptured(fetch, b, token);
    while |pages| < b.maxPages
      invariant |pages| <= b.maxPages && IsWalk(fetch, token, pages) && Clean(b, token, pages)
      invariant next == TokenAt(token, pages, |pages|) && (pages != [] ==> next.Some?)
      invariant records == RecordsOf(pages) && total == BytesOf(pages)
      invariant retries == RetriesOf(pages) && rateLimits == RateLimitsOf(pages)
      invariant Distinct(Ids(records)) && IdsSeen(seenIds, records) && TokensSeen(seenTokens, token, pages)
      invariant forall n :: 0 < n <= |pages| && n < b.maxPages ==> !Stops(b, pages[..n])
      decreases b.maxPages - |pages|
    {
      var fetched := fetch(next);
      if fetched.Err? {
        NoCapture(fetch, b, token, pages);
        return Err(FetchFailed);
      }
      var page := fetched.value;
      CleanNext(b, token, pages, page);
      var checked := CheckPage(b, token, pages, page, records, seenIds, seenTokens, total);
      if checked.Err? {
        NoCapture(fetch, b, token, pages);
        return Err(checked.error);
      }
      WalkExtends(fetch, token, pages, page);
      EarlierPrefixes(pages, page);
      if page.token.Some? {
        TokensSeenNext(seenTokens, token, pages, page);
      }
      pages := pages + [page];
      records := records + page.records;
      seenIds := checked.value;
      total := total + page.bytes;
      retries := retries + page.retries;
      rateLimits := rateLimits + page.rateLimits;
      next := page.token;
      CleanIds(b, token, pages);
      StopsWhen(b, pages);
      if next.None? {
        break;
      }
      seenTokens := seenTokens + {next.value};
      if |records| >= b.maxRecords {
        break;
      }
    }
    StopsWhen(b, pages);
    CaptureFound(fetch, b, token, pages);
    CaptureStarts(fetch, b, token, pages);
    return Ok(Capture(pages, records, next.None?, next, retries, rateLimits, total));
  }

  lemma NothingCaptured(fetch: Fetch, b: Bounds, token: Option<Token>)
    ensures IsWalk(fetch, token, []) && Clean(b, token, [])
    ensures RecordsOf([]) == [] && BytesOf([]) == 0 && RetriesOf([]) == 0 && RateLimitsOf([]) == 0
    ensures Distinct(Ids([])) && IdsSeen({}, []) && TokensSeen(if token.None? then {} else {token.value}, token, [])
  {
  }

  lemma EarlierPrefixes(pages: seq<Page>, page: Page)
    ensures forall n :: 0 <= n <= |pages| ==> (pages + [page])[..n] == pages[..n]
    ensures (pages + [page])[..|pages| + 1] == pages + [page]
  {
  }

  lemma CleanIds(b: Bounds, token: Option<Token>, pages: seq<Page>)
    requires Clean(b, token, pages)
    ensures Distinct(Ids(RecordsOf(pages)))
  {
  }

  lemma StopsWhen(b: Bounds, pages: seq<Page>)
    requires pages != []
    ensures Stops(b, pages) <==>
              pages[|pages| - 1].token.None? || |RecordsOf(pages)| >= b.maxRecords || |pages| == b.maxPages
    ensures pages[..|pages|] == pages
  {
  }

  lemma NoCapture(fetch: Fetch, b: Bounds, token: Option<Token>, pages: seq<Page>)
    requires IsWalk(fetch, token, pages) && forall n :: 0 < n <= |pages| ==> !Stops(b, pages[..n])
    requires var fetched := fetch(TokenAt(token, pages, |pages|));
             fetched.Err? || !Clean(b, token, pages + [fetched.value])
    ensures !exists other :: Captures(fetch, b, token, other)
  {
    forall other | Captures(fetch, b, token, other)
      ensures false
    {
      BlockedAt(fetch, b, token, pages, other);
    }
  }

  lemma CaptureFound(fetch: Fetch, b: Bounds, token: Option<Token>, pages: seq<Page>)
    requires IsWalk(fetch, token, pages) && Clean(b, token, pages) && Stops(b, pages)
    requires forall n :: 0 < n < |pages| ==> !Stops(b, pages[..n])
    ensures Captures(fetch, b, token, pages)
  {
  }

  lemma CaptureStarts(fetch: Fetch, b: Bounds, token: Option<Token>, pages: seq<Page>)
    requires Captures(fetch, b, token, pages)
    ensures pages != [] && fetch(token) == Ok(pages[0])
  {
    assert FetchedAt(fetch, token, pages, 0);
  }

  // ---------------------------------------------------------------- chains of captures

  /** Captures that all succeed, each resumed from the cursor its predecessor published. */
  ghost predicate Chain(fetch: Fetch, token: Option<Token>, captures: seq<(Bounds, seq<Page>)>)
    decreases |captures|
  {
    captures == [] ||
    (&& Captures(fetch, captures[0].0, token, captures[0].1)
     && (|captures| > 1 ==> captures[0].1[|captures[0].1| - 1].token.Some?)
     && Chain(fetch, captures[0].1[|captures[0].1| - 1].token, captures[1..]))
  }

  lemma CaptureIsWalk(fetch: Fetch, b: Bounds, token: Option<Token>, pages: seq<Page>)
    requires Captures(fetch, b, token, pages)
    ensures pages != [] && IsWalk(fetch, token, pages)
  {
  }

  function ChainPages(captures: seq<(Bounds, seq<Page>)>): seq<Page> {
    if captures == [] then [] else captures[0].1 + ChainPages(captures[1..])
  }

  lemma JoinWalks(fetch: Fetch, token: Option<Token>, a: seq<Page>, b: seq<Page>)
    requires a != [] && IsWalk(fetch, token, a) && IsWalk(fetch, a[|a| - 1].token, b)
    requires b != [] ==> a[|a| - 1].token.Some?
    ensures IsWalk(fetch, token, a + b)
  {
    var all := a + b;
    forall i | 0 <= i < |all|
      ensures FetchedAt(fetch, token, all, i)
    {
      if i < |a| {
        assert FetchedAt(fetch, token, a, i);
      } else {
        assert FetchedAt(fetch, a[|a| - 1].token, b, i - |a|);
      }
    }
  }

  /** Joined, the pages of any chain of captures are one walk from its first token: none skipped, none twice. */
  lemma {:induction false} ChainIsWalk(fetch: Fetch, token: Option<Token>, captures: seq<(Bounds, seq<Page>)>)
    requires Chain(fetch, token, captures)
    ensures IsWalk(fetch, token, ChainPages(captures))
    ensures captures != [] ==> ChainPages(captures) != []
    decreases |captures|
  {
    hide Captures;
    if captures != [] {
      var first := captures[0].1;
      CaptureIsWalk(fetch, captures[0].0, token, first);
      ChainIsWalk(fetch, first[|first| - 1].token, captures[1..]);
      if |captures| > 1 {
        assert first[|first| - 1].token.Some?;
      } else {
        assert ChainPages(captures[1..]) == [];
      }
      JoinWalks(fetch, token, first, ChainPages(captures[1..]));
    }
  }

  /** Split harvest equals one harvest: when the chain reaches the end of the list, it has collected the pages and the
      records of the one complete walk, with every page fetched once. */
  lemma SplitHarvestIsOneHarvest(fetch: Fetch, captures: seq<(Bounds, seq<Page>)>, whole: seq<Page>)
    requires Chain(fetch, None, captures) && captures != []
    requires IsWalk(fetch, None, whole) && whole != [] && whole[|whole| - 1].token.None?
    ensures ChainPages(captures) <= whole
    ensures ChainPages(captures) != [] && (ChainPages(captures)[|ChainPages(captures)| - 1].token.None? ==>
              ChainPages(captures) == whole && RecordsOf(ChainPages(captures)) == RecordsOf(whole))
    ensures forall i, j :: 0 <= i < j < |ChainPages(captures)| ==>
              TokenAt(None, ChainPages(captures), i) != TokenAt(None, ChainPages(captures), j)
  {
    hide IsWalk, Chain;
    ChainIsWalk(fetch, None, captures);
    var pages := ChainPages(captures);
    PrefixOfWhole(fetch, None, pages, whole);
    if pages[|pages| - 1].token.None? {
      TerminalWalkUnique(fetch, None, pages, whole);
    }
    forall i, j | 0 <= i < j < |pages|
      ensures TokenAt(None, pages, i) != TokenAt(None, pages, j)
    {
      FinishedWalkNeverRepeats(fetch, None, whole, i, j);
    }
  }

  /** One call: its bounds, the watermark it was resumed from, and what it returned. */
  datatype Call = Call(bounds: Bounds, resume: Option<Watermark>, result: Capture)

  /** Calls that all succeed, the first without a watermark and each other one resumed from the token that its
      predecessor returned. */
  ghost predicate ResumedCalls(fetch: Fetch, capture: Watermark, calls: seq<Call>)
    decreases |calls|
  {
    calls == [] ||
    (var last, earlier := calls[|calls| - 1], calls[..|calls| - 1];
     && Harvests(fetch, last.bounds, capture, last.resume, last.result)
     && (if earlier == [] then last.resume == None
         else last.resume.Some? && last.resume.value.cursor == earlier[|earlier| - 1].result.next)
     && ResumedCalls(fetch, capture, earlier))
  }

  function CallPages(calls: seq<Call>): seq<Page>
    decreases |calls|
  {
    if calls == [] then [] else CallPages(calls[..|calls| - 1]) + calls[|calls| - 1].result.pages
  }

  function CallRecords(calls: seq<Call>): seq<Record>
    decreases |calls|
  {
    if calls == [] then [] else CallRecords(calls[..|calls| - 1]) + calls[|calls| - 1].result.records
  }

  lemma {:induction false} RecordsAppend(a: seq<Page>, b: seq<Page>)
    ensures RecordsOf(a + b) == RecordsOf(a) + RecordsOf(b)
    decreases |b|
  {
    if b == [] {
      assert a + b == a;
    } else {
      RecordsAppend(a, b[..|b| - 1]);
      assert (a + b)[..|a + b| - 1] == a + b[..|b| - 1];
    }
  }

  lemma HarvestWalks(fetch: Fetch, b: Bounds, capture: Watermark, resume: Option<Watermark>, c: Capture)
    requires Harvests(fetch, b, capture, resume, c)
    ensures c.pages != [] && c.records == RecordsOf(c.pages) && c.next == c.pages[|c.pages| - 1].token
    ensures IsWalk(fetch, if resume.None? then None else resume.value.cursor, c.pages)
    ensures resume.Some? ==> resume.value.cursor.Some?
  {
    CaptureIsWalk(fetch, b, if resume.None? then None else resume.value.cursor, c.pages);
  }

  /** The joined pages and records of calls resumed one from the other are those of one walk from the first page. */
  lemma {:induction false} ResumedCallsAreOneWalk(fetch: Fetch, capture: Watermark, calls: seq<Call>)
    requires ResumedCalls(fetch, capture, calls)
    ensures IsWalk(fetch, None, CallPages(calls)) && CallRecords(calls) == RecordsOf(CallPages(calls))
    ensures calls != [] ==> CallPages(calls) != []
                            && CallPages(calls)[|CallPages(calls)| - 1].token == calls[|calls| - 1].result.next
    decreases |calls|
  {
    hide Harvests, IsWalk;
    if calls == [] {
      EmptyWalk(fetch, None);
    } else {
      var n := |calls| - 1;
      var earlier, last := calls[..n], calls[n];
      ResumedCallsAreOneWalk(fetch, capture, earlier);
      HarvestWalks(fetch, last.bounds, capture, last.resume, last.result);
      RecordsAppend(CallPages(earlier), last.result.pages);
      if n > 0 {
        JoinWalks(fetch, None, CallPages(earlier), last.result.pages);
      } else {
        assert earlier == [] && CallPages(earlier) + last.result.pages == last.result.pages;
      }
    }
  }

  /** So calls of which the last reports the end of the list have together harvested what one walk over the whole list
      yields: the same pages and records, each page fetched by one of the calls alone. */
  lemma {:induction false} ResumedCallsHarvestAll(fetch: Fetch, capture: Watermark, calls: seq<Call>, whole: seq<Page>)
    requires ResumedCalls(fetch, capture, calls) && calls != [] && calls[|calls| - 1].result.terminal
    requires IsWalk(fetch, None, whole) && whole != [] && whole[|whole| - 1].token.None?
    ensures CallPages(calls) == whole && CallRecords(calls) == RecordsOf(whole)
  {
    hide IsWalk;
    ResumedCallsAreOneWalk(fetch, capture, calls);
    TerminalWalkUnique(fetch, None, CallPages(calls), whole);
  }

  // ---------------------------------------------------------------- which chains of captures end

  /** A walk to the end of the list. */
  ghost predicate IsWhole(fetch: Fetch, token: Option<Token>, pages: seq<Page>) {
    IsWalk(fetch, token, pages) && pages != [] && pages[|pages| - 1].token.None?
  }

  /** The source serves this page, and the page alone passes the checks of a capture that starts with it. */
  ghost predicate ServesPage(fetch: Fetch, b: Bounds, token: Option<Token>) {
    fetch(token).Ok? && Clean(b, token, [fetch(token).value])
  }

  /** The source serves every page that a walk from `token` asks for. */
  ghost predicate Serves(fetch: Fetch, b: Bounds, token: Option<Token>) {
    forall pages: seq<Page> :: IsWalk(fetch, token, pages) && (pages != [] ==> pages[|pages| - 1].token.Some?) ==>
                      ServesPage(fetch, b, TokenAt(token, pages, |pages|))
  }

  /** Some chain of `k` captures, under bounds the capture accepts, all succeeds. */
  ghost predicate ChainOfLength(fetch: Fetch, token: Option<Token>, k: nat) {
    exists captures: seq<(Bounds, seq<Page>)> :: Chain(fetch, token, captures) && |captures| == k && forall c ::
        c in captures ==> ValidBounds(c.0)
  }

  function OnePage(b: Bounds): Bounds { b.(maxPages := 1) }

  lemma OnePageCaptures(fetch: Fetch, b: Bounds, token: Option<Token>)
    requires ServesPage(fetch, b, token)
    ensures Captures(fetch, OnePage(b), token, [fetch(token).value])
  {
    var pages := [fetch(token).value];
    assert FetchedAt(fetch, token, pages, 0);
    assert Clean(OnePage(b), token, pages);
  }

  /** While no walk has ended, one more one-page capture succeeds. */
  lemma {:induction false} ChainGoesOn(fetch: Fetch, b: Bounds, token: Option<Token>, pages: seq<Page>, k: nat)
    returns (captures: seq<(Bounds, seq<Page>)>)
    requires ValidBounds(b) && Serves(fetch, b, token) && !exists whole :: IsWhole(fetch, token, whole)
    requires IsWalk(fetch, token, pages) && (pages != [] ==> pages[|pages| - 1].token.Some?)
    ensures Chain(fetch, TokenAt(token, pages, |pages|), captures) && |captures| == k
    ensures forall c :: c in captures ==> ValidBounds(c.0)
    decreases k
  {
    hide Captures, Clean, IsWalk;
    captures := [];
    if k > 0 {
      var next := TokenAt(token, pages, |pages|);
      assert ServesPage(fetch, b, next);
      var page := fetch(next).value;
      OnePageCaptures(fetch, b, next);
      WalkExtends(fetch, token, pages, page);
      assert page.token.None? ==> IsWhole(fetch, token, pages + [page]);
      var rest := ChainGoesOn(fetch, b, token, pages + [page], k - 1);
      captures := [(OnePage(b), [page])] + rest;
      assert captures[1..] == rest;
    }
  }

  lemma {:induction false} ChainHasPages(fetch: Fetch, token: Option<Token>, captures: seq<(Bounds, seq<Page>)>)
    requires Chain(fetch, token, captures)
    ensures |ChainPages(captures)| >= |captures|
    decreases |captures|
  {
    hide Captures;
    if captures != [] {
      CaptureIsWalk(fetch, captures[0].0, token, captures[0].1);
      ChainHasPages(fetch, captures[0].1[|captures[0].1| - 1].token, captures[1..]);
    }
  }

  /** Over a source that serves its pages, resumed captures can go on without end exactly if no walk reaches the end of
      the list: the bounds of the captures and the check for repeated tokens make no difference. */
  lemma {:induction false} ChainsGoOnIffNoEnd(fetch: Fetch, b: Bounds, token: Option<Token>)
    requires ValidBounds(b) && Serves(fetch, b, token)
    ensures (forall k: nat :: ChainOfLength(fetch, token, k)) <==> !exists whole :: IsWhole(fetch, token, whole)
  {
    hide Serves, Chain, IsWalk;
    if whole :| IsWhole(fetch, token, whole) {
      forall captures | Chain(fetch, token, captures) && |captures| == |whole| + 1
        ensures false
      {
        ChainIsWalk(fetch, token, captures);
        ChainHasPages(fetch, token, captures);
        PrefixOfWhole(fetch, token, ChainPages(captures), whole);
      }
      assert !ChainOfLength(fetch, token, |whole| + 1);
    } else {
      EmptyWalk(fetch, token);
      forall k: nat
        ensures ChainOfLength(fetch, token, k)
      {
        var captures := ChainGoesOn(fetch, b, token, [], k);
      }
    }
  }

  lemma EmptyWalk(fetch: Fetch, token: Option<Token>)
    ensures IsWalk(fetch, token, [])
  {
  }

  /** A walk that comes back to a token it has used never reaches the end of the list. */
  lemma {:induction false} RepeatedTokenNeverEnds(fetch: Fetch, token: Option<Token>, pages: seq<Page>, i: nat, j: nat)
    requires IsWalk(fetch, token, pages) && i < j <= |pages|
    requires TokenAt(token, pages, i) == TokenAt(token, pages, j) && TokenAt(token, pages, j).Some?
    ensures !exists whole :: IsWhole(fetch, token, whole)
  {
    hide IsWalk;
    forall whole | IsWhole(fetch, token, whole)
      ensures false
    {
      PrefixOfWhole(fetch, token, pages, whole);
      assert pages[j - 1] == whole[j - 1];
      assert i > 0 ==> pages[i - 1] == whole[i - 1];
      FinishedWalkNeverRepeats(fetch, token, whole, i, j);
    }
  }

  /** A single capture is always saved from it: if its bounds reach the page whose token was met before, it fails. */
  lemma {:induction false} RepeatStopsCapture(fetch: Fetch, b: Bounds, token: Option<Token>, pages: seq<Page>, i: nat,
                                              j: nat)
    requires IsWalk(fetch, token, pages) && i < j <= |pages|
    requires TokenAt(token, pages, i) == TokenAt(token, pages, j) && TokenAt(token, pages, j).Some?
    requires forall n :: 0 < n < j ==> !Stops(b, pages[..n])
    ensures !exists other :: Captures(fetch, b, token, other)
  {
    hide Stops, Captures;
    var before := pages[..j - 1];
    assert IsWalk(fetch, token, before) by {
      forall k | 0 <= k < |before|
        ensures FetchedAt(fetch, token, before, k)
      {
        assert FetchedAt(fetch, token, pages, k);
      }
    }
    forall n | 0 < n <= |before|
      ensures !Stops(b, before[..n])
    {
      assert before[..n] == pages[..n];
    }
    forall other | Captures(fetch, b, token, other)
      ensures false
    {
      BlockedAt(fetch, b, token, before, other);
      assert FetchedAt(fetch, token, pages, j - 1);
      assert j > 1 ==> before[j - 2] == pages[j - 2];
      assert other[j - 1] == pages[j - 1];
      assert before + [other[j - 1]] == pages[..j];
      RepeatIsNotFresh(b, token, pages[..j], i);
    }
  }

  lemma RepeatIsNotFresh(b: Bounds, token: Option<Token>, pages: seq<Page>, i: nat)
    requires i < |pages| && TokenAt(token, pages, i) == pages[|pages| - 1].token && pages[|pages| - 1].token.Some?
    ensures !Clean(b, token, pages)
  {
  }

  const TO_A := Page(1, [], Some("a"), 0, 0)
  const TO_B := Page(1, [], Some("b"), 0, 0)

  /** A source whose tokens go round in a circle of two. */
  function Circling(token: Option<Token>): Result<Page, HarvestError> {
    if token == Some("a") then Ok(TO_B) else Ok(TO_A)
  }

  lemma {:induction false} CircleWalkTokens(pages: seq<Page>, n: nat)
    requires IsWalk(Circling, None, pages) && 0 < n <= |pages|
    ensures pages[n - 1] == if n % 2 == 1 then TO_A else TO_B
  {
    assert FetchedAt(Circling, None, pages, n - 1);
    if n > 1 {
      CircleWalkTokens(pages, n - 1);
    }
  }

  lemma CirclePageServed(b: Bounds, token: Option<Token>)
    requires ValidBounds(b)
    ensures ServesPage(Circling, b, token)
  {
    var page := Circling(token).value;
    assert RecordsOf([page]) == RecordsOf([page][..0]) + [] == [];
    assert BytesOf([page]) == BytesOf([page][..0]) + 1 == 1;
  }

  /** Two tokens in a circle: resumed captures succeed any number of times, whatever the bounds allow, but a capture
      that may take three pages fails. */
  lemma {:induction false} CircleEscapesResumedCaptures(b: Bounds)
    requires ValidBounds(b)
    ensures forall k: nat :: ChainOfLength(Circling, None, k)
    ensures b.maxPages >= 3 ==> !exists pages :: Captures(Circling, b, None, pages)
  {
    hide Captures, ServesPage, ChainOfLength;
    forall pages: seq<Page> | IsWalk(Circling, None, pages) && (pages != [] ==> pages[|pages| - 1].token.Some?)
      ensures ServesPage(Circling, b, TokenAt(None, pages, |pages|))
    {
      CirclePageServed(b, TokenAt(None, pages, |pages|));
    }
    forall whole | IsWhole(Circling, None, whole)
      ensures false
    {
      CircleWalkTokens(whole, |whole|);
    }
    ChainsGoOnIffNoEnd(Circling, b, None);
    if b.maxPages >= 3 {
      var pages := [TO_A, TO_B, TO_A];
      assert FetchedAt(Circling, None, pages, 0) && FetchedAt(Circling, None, pages, 1)
             && FetchedAt(Circling, None, pages, 2);
      assert RecordsOf(pages[..1]) == [] && RecordsOf(pages[..2]) == [] by {
        assert pages[..1][..0] == [] && pages[..2][..1] == pages[..1];
      }
      RepeatStopsCapture(Circling, b, None, pages, 1, 3);
    }
  }
}
