/** Discovered EIDR IDs: sharded, paged, published and read back. */
module EidrDiscovery {
  import opened Prelude
  import opened Ordering
  import opened EidrPages

  const DISCOVERED_PAGE_MAX_BYTES := 4 * 1024 * 1024
  const CONTROL_MAX_BYTES := 16 * 1024 * 1024

  datatype DiscoveryRow = DiscoveryRow(shard: string, page: int, id: string)

  datatype DiscoveryError =
    | PageSizeBound | BadShard | BadPage | NotSorted | NotStable | PageBound | PageBytes | ManifestBytes

  // ---------------------------------------------------------------- the simple meaning

  /** Sort key (shard, ID). */
  function IdLe(shard: ShardOf): (string, string) -> bool {
    (a, b) => if shard(a) == shard(b) then StrLe(a, b) else StrLe(shard(a), shard(b))
  }

  lemma IdLeTotalOrder(shard: ShardOf)
    ensures TotalOrder(IdLe(shard))
  {
    StrLeTotalOrder();
  }

  /** Every distinct ID once, ordered by shard and then by ID. */
  function DiscoveredIds(shard: ShardOf, values: seq<string>): seq<string> {
    Sort(Dedup(values), IdLe(shard))
  }

  /** How many of the first `n` IDs fall into a shard. */
  function InShard(shard: ShardOf, ids: seq<string>, n: nat, s: string): nat
    requires n <= |ids|
  {
    if n == 0 then 0 else InShard(shard, ids, n - 1, s) + (if shard(ids[n - 1]) == s then 1 else 0)
  }

  function RowAt(shard: ShardOf, ids: seq<string>, i: nat, pageSize: nat): DiscoveryRow
    requires i < |ids| && pageSize > 0
  {
    DiscoveryRow(shard(ids[i]), InShard(shard, ids, i, shard(ids[i])) / pageSize, ids[i])
  }

  /** Each ID with its shard and its page, the position within the shard over the page size. */
  function RowsOf(shard: ShardOf, ids: seq<string>, pageSize: nat): (rows: seq<DiscoveryRow>)
    requires pageSize > 0
    ensures forall row :: row in rows ==> row.page >= 0
  {
    seq(|ids|, i requires 0 <= i < |ids| => RowAt(shard, ids, i, pageSize))
  }

  function IdsOf(rows: seq<DiscoveryRow>): seq<string> {
    seq(|rows|, i requires 0 <= i < |rows| => rows[i].id)
  }

  /** The dictionary of shard positions after `n` IDs. */
  ghost predicate Positions(shard: ShardOf, ids: seq<string>, n: nat, positions: map<string, nat>)
    requires n <= |ids|
  {
    forall s :: InShard(shard, ids, n, s) == (if s in positions then positions[s] else 0)
  }

  lemma NextPosition(shard: ShardOf, ids: seq<string>, n: nat, positions: map<string, nat>, position: nat)
    requires n < |ids| && Positions(shard, ids, n, positions)
    requires position == if shard(ids[n]) in positions then positions[shard(ids[n])] else 0
    ensures position == InShard(shard, ids, n, shard(ids[n]))
    ensures Positions(shard, ids, n + 1, positions[shard(ids[n]) := position + 1])
  {
    assert position == InShard(shard, ids, n, shard(ids[n]));
  }

  /** `iter_discovered_eidr_rows`. */
  method IterDiscoveredRows(shard: ShardOf, values: seq<string>, pageSize: nat)
    returns (r: Result<seq<DiscoveryRow>, DiscoveryError>)
    ensures r.Ok? <==> 0 < pageSize <= MAX_DISCOVERED_PAGE_IDS
    ensures r.Ok? ==> r.value == RowsOf(shard, DiscoveredIds(shard, values), pageSize)
  {
    hide Positions, DiscoveredIds;
    if !(0 < pageSize <= MAX_DISCOVERED_PAGE_IDS) {
      return Err(PageSizeBound);
    }
    var normalized := DiscoveredIds(shard, values);
    var shardPosition: map<string, nat> := map[];
    var rows: seq<DiscoveryRow> := [];
    assert Positions(shard, normalized, 0, shardPosition) by { NoPositions(shard, normalized); }
    for i := 0 to |normalized|
      invariant rows == RowsOf(shard, normalized, pageSize)[..i]
      invariant Positions(shard, normalized, i, shardPosition)
    {
      var s := shard(normalized[i]);
      var position := if s in shardPosition then shardPosition[s] else 0;
      NextPosition(shard, normalized, i, shardPosition, position);
      var row := DiscoveryRow(s, position / pageSize, normalized[i]);
      assert row == RowAt(shard, normalized, i, pageSize);
      rows := rows + [row];
      shardPosition := shardPosition[s := position + 1];
    }
    return Ok(rows);
  }

  lemma NoPositions(shard: ShardOf, ids: seq<string>)
    ensures Positions(shard, ids, 0, map[])
  {
  }

  // ---------------------------------------------------------------- which rows the publisher accepts

  predicate OrderLess(a: DiscoveryRow, b: DiscoveryRow) {
    if a.shard != b.shard then StrLess(a.shard, b.shard)
    else if a.page != b.page then a.page < b.page
    else StrLess(a.id, b.id)
  }

  function Position(rows: seq<DiscoveryRow>, n: nat, s: string): nat
    requires n <= |rows|
  {
    if n == 0 then 0 else Position(rows, n - 1, s) + (if rows[n - 1].shard == s then 1 else 0)
  }

  /** The checks one row passes, given the rows before it. */
  ghost predicate RowAccepted(shard: ShardOf, rows: seq<DiscoveryRow>, i: nat, pageSize: nat)
    requires i < |rows| && pageSize > 0
  {
    && IsShard(rows[i].shard) && rows[i].shard == shard(rows[i].id)
    && rows[i].page == Position(rows, i, rows[i].shard) / pageSize
    && (forall j :: 0 <= j < i && rows[j].shard == rows[i].shard ==> StrLess(rows[j].id, rows[i].id))
    && (i > 0 ==> OrderLess(rows[i - 1], rows[i]))
  }

  ghost predicate Acceptable(shard: ShardOf, rows: seq<DiscoveryRow>, pageSize: nat)
    requires pageSize > 0
  {
    forall i :: 0 <= i < |rows| ==> RowAccepted(shard, rows, i, pageSize)
  }

  lemma {:induction false} PositionIsInShard(shard: ShardOf, rows: seq<DiscoveryRow>, n: nat, s: string)
    requires n <= |rows| && forall i :: 0 <= i < n ==> rows[i].shard == shard(rows[i].id)
    ensures Position(rows, n, s) == InShard(shard, IdsOf(rows), n, s)
  {
    if n > 0 {
      PositionIsInShard(shard, rows, n - 1, s);
    }
  }

  lemma OrderLessTransitive(a: DiscoveryRow, b: DiscoveryRow, c: DiscoveryRow)
    requires OrderLess(a, b) && OrderLess(b, c)
    ensures OrderLess(a, c)
  {
    StrLeTotalOrder();
  }

  lemma {:induction false} OrderedPairs(shard: ShardOf, rows: seq<DiscoveryRow>, pageSize: nat, j: nat, i: nat)
    requires pageSize > 0 && Acceptable(shard, rows, pageSize) && j < i < |rows|
    ensures OrderLess(rows[j], rows[i])
  {
    assert RowAccepted(shard, rows, i, pageSize);
    if j < i - 1 {
      OrderedPairs(shard, rows, pageSize, j, i - 1);
      OrderLessTransitive(rows[j], rows[i - 1], rows[i]);
    }
  }

  /** Accepted rows list their IDs in (shard, ID) order without repetition. */
  lemma AcceptedIdsSorted(shard: ShardOf, rows: seq<DiscoveryRow>, pageSize: nat)
    requires pageSize > 0 && Acceptable(shard, rows, pageSize)
    ensures Sorted(IdsOf(rows), IdLe(shard)) && Distinct(IdsOf(rows))
  {
    var ids := IdsOf(rows);
    forall j, i | 0 <= j < i < |ids|
      ensures IdLe(shard)(ids[j], ids[i]) && ids[j] != ids[i]
    {
      OrderedPairs(shard, rows, pageSize, j, i);
      assert RowAccepted(shard, rows, i, pageSize) && RowAccepted(shard, rows, j, pageSize);
    }
  }

  lemma {:induction false} DistinctDedup(s: seq<string>)
    requires Distinct(s)
    ensures multiset(Dedup(s)) == multiset(s)
  {
    DistinctSameElements(Dedup(s), s);
  }

  lemma SortedIdsAreDiscovered(shard: ShardOf, ids: seq<string>)
    requires Sorted(ids, IdLe(shard)) && Distinct(ids)
    ensures DiscoveredIds(shard, ids) == ids
  {
    IdLeTotalOrder(shard);
    DistinctDedup(ids);
    SortIgnoresOrder(Dedup(ids), ids, IdLe(shard));
    SortedIsFixed(ids, IdLe(shard));
  }

  lemma DiscoveredAreSorted(shard: ShardOf, values: seq<string>)
    ensures var ids := DiscoveredIds(shard, values);
            Sorted(ids, IdLe(shard)) && Distinct(ids) && forall id :: id in ids <==> id in values
  {
    IdLeTotalOrder(shard);
    SortSorts(Dedup(values), IdLe(shard));
    SortKeepsElements(Dedup(values), IdLe(shard));
  }

  lemma {:induction false} InShardGrows(shard: ShardOf, ids: seq<string>, i: nat, j: nat, s: string)
    requires i <= j <= |ids|
    ensures InShard(shard, ids, i, s) <= InShard(shard, ids, j, s)
  {
    if i < j {
      InShardGrows(shard, ids, i, j - 1, s);
    }
  }

  lemma SortedRowsOrdered(shard: ShardOf, ids: seq<string>, pageSize: nat, i: nat)
    requires pageSize > 0 && Sorted(ids, IdLe(shard)) && Distinct(ids) && 0 < i < |ids|
    ensures OrderLess(RowAt(shard, ids, i - 1, pageSize), RowAt(shard, ids, i, pageSize))
  {
    var s := shard(ids[i]);
    assert IdLe(shard)(ids[i - 1], ids[i]);
    InShardGrows(shard, ids, i - 1, i, s);
    DivGrows(InShard(shard, ids, i - 1, s), InShard(shard, ids, i, s), pageSize);
  }

  lemma SortedIdsLess(shard: ShardOf, ids: seq<string>, j: nat, i: nat)
    requires Sorted(ids, IdLe(shard)) && Distinct(ids) && j < i < |ids| && shard(ids[j]) == shard(ids[i])
    ensures StrLess(ids[j], ids[i])
  {
    assert IdLe(shard)(ids[j], ids[i]);
  }

  lemma {:induction false} RowsPosition(shard: ShardOf, ids: seq<string>, pageSize: nat, i: nat)
    requires pageSize > 0 && i < |ids|
    ensures Position(RowsOf(shard, ids, pageSize), i, shard(ids[i])) == InShard(shard, ids, i, shard(ids[i]))
  {
    assert IdsOf(RowsOf(shard, ids, pageSize)) == ids;
    PositionIsInShard(shard, RowsOf(shard, ids, pageSize), i, shard(ids[i]));
  }

  lemma SortedRowAccepted(shard: ShardOf, ids: seq<string>, pageSize: nat, i: nat)
    requires pageSize > 0 && Sorted(ids, IdLe(shard)) && Distinct(ids) && i < |ids|
    requires IsShard(shard(ids[i]))
    ensures RowAccepted(shard, RowsOf(shard, ids, pageSize), i, pageSize)
  {
    hide OrderLess, StrLess, IdLe, Sorted, InShard, Position;
    var rows := RowsOf(shard, ids, pageSize);
    RowsPosition(shard, ids, pageSize, i);
    forall j | 0 <= j < i && rows[j].shard == rows[i].shard
      ensures StrLess(rows[j].id, rows[i].id)
    {
      SortedIdsLess(shard, ids, j, i);
    }
    if i > 0 {
      SortedRowsOrdered(shard, ids, pageSize, i);
    }
  }

  /** The publisher accepts a row list exactly when it is what the iterator yields for its own IDs. */
  lemma AcceptsExactlyIterated(shard: ShardOf, rows: seq<DiscoveryRow>, pageSize: nat)
    requires pageSize > 0 && forall id :: IsShard(shard(id))
    ensures Acceptable(shard, rows, pageSize) <==> rows == RowsOf(shard, DiscoveredIds(shard, IdsOf(rows)), pageSize)
  {
    var ids := IdsOf(rows);
    if Acceptable(shard, rows, pageSize) {
      AcceptedIdsSorted(shard, rows, pageSize);
      SortedIdsAreDiscovered(shard, ids);
      forall i | 0 <= i < |rows|
        ensures rows[i] == RowAt(shard, ids, i, pageSize)
      {
        assert RowAccepted(shard, rows, i, pageSize);
        forall j | 0 <= j < i
          ensures rows[j].shard == shard(rows[j].id)
        {
          assert RowAccepted(shard, rows, j, pageSize);
        }
        PositionIsInShard(shard, rows, i, rows[i].shard);
      }
    }
    if rows == RowsOf(shard, DiscoveredIds(shard, ids), pageSize) {
      IteratedAreAcceptable(shard, ids, pageSize);
    }
  }

  lemma IteratedAreAcceptable(shard: ShardOf, values: seq<string>, pageSize: nat)
    requires pageSize > 0 && forall id :: IsShard(shard(id))
    ensures Acceptable(shard, RowsOf(shard, DiscoveredIds(shard, values), pageSize), pageSize)
  {
    DiscoveredAreSorted(shard, values);
    var ids := DiscoveredIds(shard, values);
    forall i | 0 <= i < |ids|
      ensures RowAccepted(shard, RowsOf(shard, ids, pageSize), i, pageSize)
    {
      SortedRowAccepted(shard, ids, pageSize, i);
    }
  }

  // ---------------------------------------------------------------- pages

  /** Consecutive rows with one (shard, page) key form a page that starts at the ordinal of its first row. */
  function PagesOf(binding: nat, rows: seq<DiscoveryRow>): (pages: seq<Page>)
    requires forall row :: row in rows ==> row.page >= 0
    ensures rows != [] ==> pages != [] && Last(pages).shard == Last(rows).shard && Last(pages).index == Last(rows).page
    ensures rows == [] ==> pages == []
  {
    if rows == [] then []
    else
      var n := |rows| - 1;
      var row := rows[n];
      var pages := PagesOf(binding, rows[..n]);
      if pages != [] && Last(pages).shard == row.shard && Last(pages).index == row.page
      then pages[..|pages| - 1] + [Last(pages).(items := Last(pages).items + [row.id])]
      else pages + [Page(binding, row.shard, row.page, n, [row.id])]
  }

  function RefOf(page: Page): PageRef
    requires page.items != []
  {
    PageRef(PageKey(page), page.shard, page.index, page.start, |page.items|, page.items[0], Last(page.items),
            PageKey(page))
  }

  function End(page: Page): nat { page.start + |page.items| }

  /** A page holds the IDs of a stretch of rows that all carry its key. */
  ghost predicate Covers(binding: nat, rows: seq<DiscoveryRow>, page: Page) {
    && page.binding == binding && page.items != [] && End(page) <= |rows|
    && forall k :: page.start <= k < End(page) ==>
                     rows[k].shard == page.shard && rows[k].page == page.index
                         && rows[k].id == page.items[k - page.start]
  }

  /** Page `i` starts where its predecessor ends, under another key. */
  ghost predicate Adjacent(pages: seq<Page>, i: nat)
    requires 0 < i < |pages|
  {
    && pages[i].start == End(pages[i - 1])
    && (pages[i - 1].shard != pages[i].shard || pages[i - 1].index != pages[i].index)
  }

  /** The pages tile the rows, and neighbours differ in key. */
  ghost predicate Tiles(binding: nat, rows: seq<DiscoveryRow>, pages: seq<Page>) {
    && (forall i :: 0 <= i < |pages| ==> Covers(binding, rows, pages[i]))
    && (pages == [] <==> rows == [])
    && (pages != [] ==> pages[0].start == 0 && End(Last(pages)) == |rows|)
    && (forall i :: 0 < i < |pages| ==> Adjacent(pages, i))
  }

  lemma CoversMore(binding: nat, rows: seq<DiscoveryRow>, n: nat, page: Page)
    requires n <= |rows| && Covers(binding, rows[..n], page)
    ensures Covers(binding, rows, page)
  {
    forall k | page.start <= k < End(page)
      ensures rows[k].shard == page.shard && rows[k].page == page.index && rows[k].id == page.items[k - page.start]
    {
      assert rows[k] == rows[..n][k];
    }
  }

  /** One more row with the last page's key goes into that page. */
  lemma ExtendedPagesTile(binding: nat, rows: seq<DiscoveryRow>, before: seq<Page>)
    requires rows != [] && before != [] && Tiles(binding, rows[..|rows| - 1], before)
    requires Last(before).shard == Last(rows).shard && Last(before).index == Last(rows).page
    ensures Tiles(binding, rows,
                  before[..|before| - 1] + [Last(before).(items := Last(before).items + [Last(rows).id])])
  {
    var n, m := |rows| - 1, |before| - 1;
    var pages := before[..m] + [before[m].(items := before[m].items + [rows[n].id])];
    forall i | 0 <= i < |pages|
      ensures Covers(binding, rows, pages[i])
    {
      CoversMore(binding, rows, n, before[i]);
    }
    forall i | 0 < i < |pages|
      ensures Adjacent(pages, i)
    {
      assert Adjacent(before, i);
    }
  }

  /** A row with a new key opens a page at its own ordinal. */
  lemma AppendedPagesTile(binding: nat, rows: seq<DiscoveryRow>, before: seq<Page>)
    requires rows != [] && Tiles(binding, rows[..|rows| - 1], before) && Last(rows).page >= 0
    requires before != [] ==> Last(before).shard != Last(rows).shard || Last(before).index != Last(rows).page
    ensures Tiles(binding, rows,
                  before + [Page(binding, Last(rows).shard, Last(rows).page, |rows| - 1, [Last(rows).id])])
  {
    var n := |rows| - 1;
    var pages := before + [Page(binding, rows[n].shard, rows[n].page, n, [rows[n].id])];
    forall i | 0 <= i < |pages|
      ensures Covers(binding, rows, pages[i])
    {
      if i < |before| {
        CoversMore(binding, rows, n, before[i]);
      }
    }
    forall i | 0 < i < |pages|
      ensures Adjacent(pages, i)
    {
      assert i < |before| ==> Adjacent(before, i);
    }
  }

  lemma {:induction false} PagesTile(binding: nat, rows: seq<DiscoveryRow>)
    requires forall row :: row in rows ==> row.page >= 0
    ensures Tiles(binding, rows, PagesOf(binding, rows))
    decreases |rows|
  {
    hide Tiles;
    if rows == [] {
      NoPagesTile(binding);
    } else {
      var before := PagesOf(binding, rows[..|rows| - 1]);
      PagesTile(binding, rows[..|rows| - 1]);
      if before != [] && Last(before).shard == Last(rows).shard && Last(before).index == Last(rows).page {
        ExtendedPagesTile(binding, rows, before);
      } else {
        AppendedPagesTile(binding, rows, before);
      }
    }
  }

  lemma NoPagesTile(binding: nat)
    ensures Tiles(binding, [], [])
  {
  }

  // ---------------------------------------------------------------- the published manifest is valid

  lemma {:induction false} RowsOfPageAdvance(rows: seq<DiscoveryRow>, start: nat, k: nat, s: string)
    requires start + k <= |rows| && forall i :: start <= i < start + k ==> rows[i].shard == s
    ensures Position(rows, start + k, s) == Position(rows, start, s) + k
    decreases k
  {
    if k > 0 {
      RowsOfPageAdvance(rows, start, k - 1, s);
    }
  }

  lemma SameQuotientSpan(a: nat, k: nat, d: nat)
    requires d > 0 && a / d == (a + k) / d
    ensures k < d
  {
    assert a == d * (a / d) + a % d && a + k == d * ((a + k) / d) + (a + k) % d;
  }

  /** The page size bounds every page. */
  lemma PageWithinSize(shard: ShardOf, binding: nat, rows: seq<DiscoveryRow>, pageSize: nat, page: Page)
    requires pageSize > 0 && Acceptable(shard, rows, pageSize) && Covers(binding, rows, page)
    ensures |page.items| <= pageSize
  {
    var k := |page.items| - 1;
    RowsOfPageAdvance(rows, page.start, k, page.shard);
    assert RowAccepted(shard, rows, page.start, pageSize) && RowAccepted(shard, rows, page.start + k, pageSize);
    SameQuotientSpan(Position(rows, page.start, page.shard), k, pageSize);
  }

  lemma CoveredPageValid(shard: ShardOf, binding: nat, rows: seq<DiscoveryRow>, pageSize: nat, page: Page)
    requires 0 < pageSize <= MAX_DISCOVERED_PAGE_IDS && Acceptable(shard, rows, pageSize) && Covers(binding, rows, page)
    ensures ValidPage(shard, page) && ValidPageRef(shard, RefOf(page)) && PageMatches(RefOf(page), binding)
  {
    PageWithinSize(shard, binding, rows, pageSize, page);
    assert RowAccepted(shard, rows, page.start, pageSize);
    forall i, j | 0 <= i < j < |page.items|
      ensures StrLess(page.items[i], page.items[j])
    {
      assert RowAccepted(shard, rows, page.start + j, pageSize);
      assert rows[page.start + i].shard == rows[page.start + j].shard;
    }
    forall i | 0 <= i < |page.items|
      ensures shard(page.items[i]) == page.shard
    {
      assert RowAccepted(shard, rows, page.start + i, pageSize);
    }
    if |page.items| == 1 {
      StrLeTotal(page.items[0], page.items[0]);
    }
  }

  lemma NextPageKeyLess(shard: ShardOf, binding: nat, rows: seq<DiscoveryRow>, pageSize: nat, pages: seq<Page>, i: nat)
    requires pageSize > 0 && Acceptable(shard, rows, pageSize) && Tiles(binding, rows, pages) && 0 < i < |pages|
    ensures KeyLess(RefOf(pages[i - 1]), RefOf(pages[i]))
  {
    var start := pages[i].start;
    assert Covers(binding, rows, pages[i]) && Covers(binding, rows, pages[i - 1]);
    assert Adjacent(pages, i);
    assert RowAccepted(shard, rows, start, pageSize);
    assert OrderLess(rows[start - 1], rows[start]);
  }

  lemma {:induction false} PagesKeyLess(shard: ShardOf, binding: nat, rows: seq<DiscoveryRow>, pageSize: nat,
                                        pages: seq<Page>, i: nat, j: nat)
    requires pageSize > 0 && Acceptable(shard, rows, pageSize) && Tiles(binding, rows, pages) && i < j < |pages|
    ensures KeyLess(RefOf(pages[i]), RefOf(pages[j]))
    decreases j
  {
    hide Acceptable, KeyLess;
    assert Covers(binding, rows, pages[i]) && Covers(binding, rows, pages[j - 1]) && Covers(binding, rows, pages[j]);
    NextPageKeyLess(shard, binding, rows, pageSize, pages, j);
    if i < j - 1 {
      PagesKeyLess(shard, binding, rows, pageSize, pages, i, j - 1);
      KeyLessTransitive(RefOf(pages[i]), RefOf(pages[j - 1]), RefOf(pages[j]));
    }
  }

  lemma {:induction false} StartsGrow(binding: nat, rows: seq<DiscoveryRow>, pages: seq<Page>, i: nat, j: nat)
    requires Tiles(binding, rows, pages) && i < j < |pages|
    ensures End(pages[i]) <= pages[j].start
    decreases j
  {
    assert Adjacent(pages, j);
    if i < j - 1 {
      StartsGrow(binding, rows, pages, i, j - 1);
    }
  }

  lemma PageRangesDisjoint(shard: ShardOf, binding: nat, rows: seq<DiscoveryRow>, pageSize: nat, pages: seq<Page>,
                           i: nat, j: nat)
    requires pageSize > 0 && Acceptable(shard, rows, pageSize) && Tiles(binding, rows, pages) && i < j < |pages|
    requires pages[i].shard == pages[j].shard
    ensures StrLess(RefOf(pages[i]).last, RefOf(pages[j]).first)
  {
    StartsGrow(binding, rows, pages, i, j);
    assert Covers(binding, rows, pages[i]) && Covers(binding, rows, pages[j]);
    var last := End(pages[i]) - 1;
    assert rows[last].id == Last(pages[i].items) && rows[pages[j].start].id == pages[j].items[0];
    assert RowAccepted(shard, rows, pages[j].start, pageSize);
  }

  function RefsOf(pages: seq<Page>): seq<PageRef>
    requires forall i :: 0 <= i < |pages| ==> pages[i].items != []
  {
    seq(|pages|, i requires 0 <= i < |pages| => RefOf(pages[i]))
  }

  lemma PagesNonEmpty(binding: nat, rows: seq<DiscoveryRow>, pages: seq<Page>)
    requires Tiles(binding, rows, pages)
    ensures forall i :: 0 <= i < |pages| ==> pages[i].items != []
  {
    assert forall i :: 0 <= i < |pages| ==> Covers(binding, rows, pages[i]);
  }

  lemma {:induction false} OrdinalIsStart(binding: nat, rows: seq<DiscoveryRow>, pages: seq<Page>, i: nat)
    requires Tiles(binding, rows, pages) && i <= |pages|
    ensures forall j :: 0 <= j < |pages| ==> pages[j].items != []
    ensures Ordinal(RefsOf(pages), i) == if i < |pages| then pages[i].start else |rows|
  {
    hide Covers;
    PagesNonEmpty(binding, rows, pages);
    if i > 0 {
      OrdinalIsStart(binding, rows, pages, i - 1);
      assert i < |pages| ==> Adjacent(pages, i);
      assert RefsOf(pages)[i - 1] == RefOf(pages[i - 1]);
    }
  }

  lemma CoveredIds(binding: nat, rows: seq<DiscoveryRow>, page: Page)
    requires Covers(binding, rows, page)
    ensures IdsOf(rows)[..page.start] + page.items == IdsOf(rows)[..End(page)]
  {
    var ids := IdsOf(rows);
    forall k | page.start <= k < End(page)
      ensures ids[k] == page.items[k - page.start]
    {
      assert rows[k].id == page.items[k - page.start];
    }
  }

  lemma {:induction false} AllIdsArePrefix(binding: nat, rows: seq<DiscoveryRow>, pages: seq<Page>, i: nat)
    requires Tiles(binding, rows, pages) && i <= |pages|
    ensures forall j :: 0 <= j < |pages| ==> pages[j].items != []
    ensures Ordinal(RefsOf(pages), i) <= |rows|
    ensures AllIds(RefsOf(pages), i) == IdsOf(rows)[..Ordinal(RefsOf(pages), i)]
  {
    hide Covers;
    OrdinalIsStart(binding, rows, pages, i);
    if i < |pages| {
      assert Covers(binding, rows, pages[i]);
      CoversBounds(binding, rows, pages[i]);
    }
    if i > 0 {
      AllIdsArePrefix(binding, rows, pages, i - 1);
      OrdinalIsStart(binding, rows, pages, i - 1);
      assert Covers(binding, rows, pages[i - 1]);
      CoveredIds(binding, rows, pages[i - 1]);
      assert RefsOf(pages)[i - 1] == RefOf(pages[i - 1]);
    }
  }

  lemma CoversBounds(binding: nat, rows: seq<DiscoveryRow>, page: Page)
    requires Covers(binding, rows, page)
    ensures page.start <= End(page) <= |rows|
  {
  }

  function ManifestOf(binding: nat, pageSize: nat, rows: seq<DiscoveryRow>): Manifest
    requires forall row :: row in rows ==> row.page >= 0
  {
    PagesTile(binding, rows);
    var pages := PagesOf(binding, rows);
    PagesNonEmpty(binding, rows, pages);
    Manifest(binding, pageSize, RefsOf(pages), |rows|, |pages|)
  }

  lemma AcceptedPagesNonNegative(shard: ShardOf, rows: seq<DiscoveryRow>, pageSize: nat)
    requires pageSize > 0 && Acceptable(shard, rows, pageSize)
    ensures forall row :: row in rows ==> row.page >= 0
  {
    forall i | 0 <= i < |rows|
      ensures rows[i].page >= 0
    {
      assert RowAccepted(shard, rows, i, pageSize);
      DivGrows(0, Position(rows, i, rows[i].shard), pageSize);
    }
  }

  /** Every published page can be read back through its pointer. */
  lemma PublishedRefsReadable(shard: ShardOf, binding: nat, rows: seq<DiscoveryRow>, pageSize: nat, pages: seq<Page>)
    requires 0 < pageSize <= MAX_DISCOVERED_PAGE_IDS && Acceptable(shard, rows, pageSize) && Tiles(binding, rows, pages)
    ensures forall i :: 0 <= i < |pages| ==> pages[i].items != []
    ensures forall ref :: ref in RefsOf(pages) ==>
              ValidPageRef(shard, ref) && Readable(shard, {ref.stored}, ref, binding) && CountsMatch(ref)
  {
    PagesNonEmpty(binding, rows, pages);
    forall i | 0 <= i < |pages|
      ensures ValidPageRef(shard, RefsOf(pages)[i])
              && Readable(shard, {RefsOf(pages)[i].stored}, RefsOf(pages)[i], binding)
      ensures CountsMatch(RefsOf(pages)[i])
    {
      CoveredPageValid(shard, binding, rows, pageSize, pages[i]);
    }
  }

  lemma PublishedRefsOrdered(shard: ShardOf, binding: nat, rows: seq<DiscoveryRow>, pageSize: nat, pages: seq<Page>)
    requires 0 < pageSize && Acceptable(shard, rows, pageSize) && Tiles(binding, rows, pages)
    ensures forall i :: 0 <= i < |pages| ==> pages[i].items != []
    ensures Contiguous(RefsOf(pages)) && Ordered(RefsOf(pages)) && Disjoint(RefsOf(pages))
  {
    hide Acceptable, Tiles, KeyLess, StrLess;
    PagesNonEmpty(binding, rows, pages);
    var refs := RefsOf(pages);
    forall i {:trigger Ordinal(refs, i)} | 0 <= i < |pages|
      ensures refs[i].start == Ordinal(refs, i)
    {
      OrdinalIsStart(binding, rows, pages, i);
    }
    forall i, j | 0 <= i < j < |pages|
      ensures KeyLess(refs[i], refs[j])
      ensures refs[i].shard == refs[j].shard ==> StrLess(refs[i].last, refs[j].first)
    {
      PagesKeyLess(shard, binding, rows, pageSize, pages, i, j);
      if pages[i].shard == pages[j].shard {
        PageRangesDisjoint(shard, binding, rows, pageSize, pages, i, j);
      }
    }
  }

  /** The manifest of accepted rows passes its own validator and lists exactly the rows' IDs. */
  lemma PublishedManifestValid(shard: ShardOf, binding: nat, rows: seq<DiscoveryRow>, pageSize: nat)
    requires 0 < pageSize <= MAX_DISCOVERED_PAGE_IDS && Acceptable(shard, rows, pageSize)
    ensures forall row :: row in rows ==> row.page >= 0
    ensures var m := ManifestOf(binding, pageSize, rows);
            && ValidManifest(m)
            && AllIds(m.pages, |m.pages|) == IdsOf(rows)
            && forall ref :: ref in m.pages ==>
                ValidPageRef(shard, ref) && Readable(shard, {ref.stored}, ref, binding) && CountsMatch(ref)
  {
    hide Acceptable, Tiles, Contiguous, Ordered, Disjoint, Readable;
    AcceptedPagesNonNegative(shard, rows, pageSize);
    PagesTile(binding, rows);
    var pages := PagesOf(binding, rows);
    PublishedRefsReadable(shard, binding, rows, pageSize, pages);
    PublishedRefsOrdered(shard, binding, rows, pageSize, pages);
    OrdinalIsStart(binding, rows, pages, |pages|);
    AllIdsArePrefix(binding, rows, pages, |pages|);
    assert IdsOf(rows)[..|rows|] == IdsOf(rows);
  }

  // ---------------------------------------------------------------- pages are full

  lemma {:induction false} NoneBefore(rows: seq<DiscoveryRow>, n: nat, s: string)
    requires n <= |rows| && forall j :: 0 <= j < n ==> rows[j].shard != s
    ensures Position(rows, n, s) == 0
  {
    if n > 0 {
      NoneBefore(rows, n - 1, s);
    }
  }

  /** A row that follows one of another shard is the first of its shard. */
  lemma ShardStarts(shard: ShardOf, rows: seq<DiscoveryRow>, pageSize: nat, n: nat)
    requires pageSize > 0 && Acceptable(shard, rows, pageSize) && n < |rows|
    requires n > 0 ==> rows[n - 1].shard != rows[n].shard
    ensures Position(rows, n, rows[n].shard) == 0
  {
    if n > 0 {
      OrderedPairs(shard, rows, pageSize, n - 1, n);
      forall j | 0 <= j < n
        ensures rows[j].shard != rows[n].shard
      {
        if j < n - 1 {
          OrderedPairs(shard, rows, pageSize, j, n - 1);
          if rows[j].shard == rows[n].shard {
            StrLeTotalOrder();
          }
        }
      }
    }
    NoneBefore(rows, n, rows[n].shard);
  }

  lemma QuotientIs(a: nat, d: nat, q: nat, r: nat)
    requires r < d && a == d * q + r
    ensures a / d == q && a % d == r
  {
    var y := a / d;
    assert a == d * y + a % d;
    if y > q {
      MulStep(d, y, q);
    } else if q > y {
      MulStep(d, q, y);
    }
  }

  lemma NewQuotient(a: nat, d: nat)
    requires d > 0 && a > 0 && a / d != (a - 1) / d
    ensures a % d == 0 && a / d == (a - 1) / d + 1
  {
    var x, r := a / d, a % d;
    if r > 0 {
      QuotientIs(a - 1, d, x, r - 1);
    } else {
      assert x > 0;
      MulPrevious(d, x);
      QuotientIs(a - 1, d, x - 1, d - 1);
    }
  }

  lemma MultiplesApart(a: nat, k: nat, d: nat)
    requires d > 0 && 0 < k <= d && a % d == 0 && (a + k) % d == 0
    ensures k == d
  {
    var x, y := a / d, (a + k) / d;
    assert a == d * x && a + k == d * y;
    if y > x {
      MulStep(d, y, x);
    } else if y < x {
      MulStep(d, x, y);
    }
  }

  /** A page starts at a multiple of the page size within its shard: at its beginning, or one page on. */
  lemma PageStart(shard: ShardOf, binding: nat, rows: seq<DiscoveryRow>, pageSize: nat, pages: seq<Page>, i: nat)
    requires pageSize > 0 && Acceptable(shard, rows, pageSize) && Tiles(binding, rows, pages) && i < |pages|
    ensures pages[i].start < |rows| && pages[i].items != []
    ensures var position := Position(rows, pages[i].start, pages[i].shard);
            && position % pageSize == 0 && pages[i].index == position / pageSize
            && (if i > 0 && pages[i - 1].shard == pages[i].shard then pages[i].index == pages[i - 1].index + 1
                else pages[i].index == 0)
  {
    hide Acceptable;
    var page := pages[i];
    assert Covers(binding, rows, page);
    AcceptedPage(shard, rows, pageSize, page.start);
    if i == 0 {
      ShardStarts(shard, rows, pageSize, 0);
    } else {
      assert Covers(binding, rows, pages[i - 1]) && Adjacent(pages, i);
      if pages[i - 1].shard == page.shard {
        AcceptedPage(shard, rows, pageSize, page.start - 1);
        NewQuotient(Position(rows, page.start, page.shard), pageSize);
      } else {
        ShardStarts(shard, rows, pageSize, page.start);
      }
    }
  }

  lemma AcceptedPage(shard: ShardOf, rows: seq<DiscoveryRow>, pageSize: nat, i: nat)
    requires pageSize > 0 && Acceptable(shard, rows, pageSize) && i < |rows|
    ensures rows[i].page == Position(rows, i, rows[i].shard) / pageSize
  {
    assert RowAccepted(shard, rows, i, pageSize);
  }

  lemma PageFull(shard: ShardOf, binding: nat, rows: seq<DiscoveryRow>, pageSize: nat, pages: seq<Page>, i: nat)
    requires pageSize > 0 && Acceptable(shard, rows, pageSize) && Tiles(binding, rows, pages) && 0 < i < |pages|
    requires pages[i - 1].shard == pages[i].shard
    ensures |pages[i - 1].items| == pageSize
  {
    hide Acceptable;
    var before := pages[i - 1];
    assert Covers(binding, rows, before) && Adjacent(pages, i);
    PageWithinSize(shard, binding, rows, pageSize, before);
    PageStart(shard, binding, rows, pageSize, pages, i - 1);
    PageStart(shard, binding, rows, pageSize, pages, i);
    RowsOfPageAdvance(rows, before.start, |before.items|, before.shard);
    MultiplesApart(Position(rows, before.start, before.shard), |before.items|, pageSize);
  }

  /** Within a shard pages are numbered from zero without a gap, and every page that another one follows holds exactly
      `pageSize` IDs. */
  lemma {:induction false} PublishedPagesAreFull(shard: ShardOf, binding: nat, rows: seq<DiscoveryRow>, pageSize: nat,
                                                 i: nat)
    requires 0 < pageSize && Acceptable(shard, rows, pageSize)
    requires forall row :: row in rows ==> row.page >= 0
    requires i < |ManifestOf(binding, pageSize, rows).pages|
    ensures var m := ManifestOf(binding, pageSize, rows);
            && m.binding == binding && m.pageSize == pageSize
            && 0 < m.pages[i].count <= pageSize
            && (if i > 0 && m.pages[i - 1].shard == m.pages[i].shard
                then m.pages[i].index == m.pages[i - 1].index + 1 && m.pages[i - 1].count == pageSize
                else m.pages[i].index == 0)
  {
    hide Acceptable, PagesOf;
    PagesTile(binding, rows);
    var pages := PagesOf(binding, rows);
    assert Covers(binding, rows, pages[i]);
    PageWithinSize(shard, binding, rows, pageSize, pages[i]);
    PageStart(shard, binding, rows, pageSize, pages, i);
    hide Tiles, Covers, Position;
    if i > 0 && pages[i - 1].shard == pages[i].shard {
      PageFull(shard, binding, rows, pageSize, pages, i);
    }
  }

  // ---------------------------------------------------------------- the publisher

  /** What the per-shard position dictionary holds after `n` rows. */
  ghost predicate SeenPositions(rows: seq<DiscoveryRow>, n: nat, positions: map<string, nat>)
    requires n <= |rows|
  {
    forall s :: Position(rows, n, s) == (if s in positions then positions[s] else 0)
  }

  /** What the dictionary of previous IDs holds after `n` rows. */
  ghost predicate SeenIds(rows: seq<DiscoveryRow>, n: nat, lasts: map<string, string>)
    requires n <= |rows|
  {
    && (forall s :: s in lasts ==> exists j :: 0 <= j < n && rows[j].shard == s && rows[j].id == lasts[s])
    && (forall j :: 0 <= j < n ==> rows[j].shard in lasts && StrLe(rows[j].id, lasts[rows[j].shard]))
  }

  lemma NothingSeen(rows: seq<DiscoveryRow>)
    ensures SeenPositions(rows, 0, map[]) && SeenIds(rows, 0, map[])
  {
  }

  lemma SeenPositionsNext(rows: seq<DiscoveryRow>, n: nat, positions: map<string, nat>, position: nat)
    requires n < |rows| && SeenPositions(rows, n, positions)
    requires position == if rows[n].shard in positions then positions[rows[n].shard] else 0
    ensures position == Position(rows, n, rows[n].shard)
    ensures SeenPositions(rows, n + 1, positions[rows[n].shard := position + 1])
  {
    assert position == Position(rows, n, rows[n].shard);
  }

  lemma EarlierIdsLess(rows: seq<DiscoveryRow>, n: nat, lasts: map<string, string>)
    requires n < |rows| && SeenIds(rows, n, lasts)
    requires rows[n].shard in lasts ==> StrLess(lasts[rows[n].shard], rows[n].id)
    ensures forall j :: 0 <= j < n && rows[j].shard == rows[n].shard ==> StrLess(rows[j].id, rows[n].id)
  {
    forall j | 0 <= j < n && rows[j].shard == rows[n].shard
      ensures StrLess(rows[j].id, rows[n].id)
    {
      StrLessTransitive(rows[j].id, lasts[rows[n].shard], rows[n].id);
    }
  }

  lemma SeenIdsNext(rows: seq<DiscoveryRow>, n: nat, lasts: map<string, string>)
    requires n < |rows| && SeenIds(rows, n, lasts)
    requires forall j :: 0 <= j < n && rows[j].shard == rows[n].shard ==> StrLess(rows[j].id, rows[n].id)
    ensures SeenIds(rows, n + 1, lasts[rows[n].shard := rows[n].id])
  {
    hide StrLe;
    var next := lasts[rows[n].shard := rows[n].id];
    StrLeTotal(rows[n].id, rows[n].id);
    forall s | s in next
      ensures exists j :: 0 <= j < n + 1 && rows[j].shard == s && rows[j].id == next[s]
    {
      if s == rows[n].shard {
        assert rows[n].id == next[s];
      } else {
        var j :| 0 <= j < n && rows[j].shard == s && rows[j].id == lasts[s];
        assert rows[j].id == next[s];
      }
    }
  }

  lemma SeenIdRefutes(shard: ShardOf, rows: seq<DiscoveryRow>, n: nat, pageSize: nat, lasts: map<string, string>)
    requires pageSize > 0 && n < |rows| && SeenIds(rows, n, lasts)
    requires rows[n].shard in lasts && !StrLess(lasts[rows[n].shard], rows[n].id)
    ensures !RowAccepted(shard, rows, n, pageSize)
  {
    var j :| 0 <= j < n && rows[j].shard == rows[n].shard && rows[j].id == lasts[rows[n].shard];
    assert !StrLess(rows[j].id, rows[n].id);
  }

  lemma OneMoreRow(binding: nat, rows: seq<DiscoveryRow>, m: nat)
    requires m < |rows| && forall row :: row in rows ==> row.page >= 0
    ensures var early, next := PagesOf(binding, rows[..m]), PagesOf(binding, rows[..m + 1]);
            |early| <= |next| && (early != [] ==> early[..|early| - 1] == next[..|early| - 1])
  {
    assert rows[..m + 1][..m] == rows[..m];
  }

  lemma PrefixesChain<T>(a: seq<T>, b: seq<T>, c: seq<T>)
    requires |a| <= |b| <= |c|
    requires (a != [] ==> a[..|a| - 1] == b[..|a| - 1]) && (b != [] ==> b[..|b| - 1] == c[..|b| - 1])
    ensures a != [] ==> a[..|a| - 1] == c[..|a| - 1]
  {
    if a != [] {
      assert b[..|a| - 1] == b[..|b| - 1][..|a| - 1];
      assert c[..|a| - 1] == c[..|b| - 1][..|a| - 1];
    }
  }

  /** Pages already closed are not touched by later rows. */
  lemma {:induction false} ClosedPagesStay(binding: nat, rows: seq<DiscoveryRow>, m: nat)
    requires m <= |rows| && forall row :: row in rows ==> row.page >= 0
    ensures var early, all := PagesOf(binding, rows[..m]), PagesOf(binding, rows);
            |early| <= |all| && (early != [] ==> early[..|early| - 1] == all[..|early| - 1])
    decreases |rows| - m
  {
    hide PagesOf;
    if m == |rows| {
      assert rows[..m] == rows;
    } else {
      ClosedPagesStay(binding, rows, m + 1);
      OneMoreRow(binding, rows, m);
      PrefixesChain(PagesOf(binding, rows[..m]), PagesOf(binding, rows[..m + 1]), PagesOf(binding, rows));
    }
  }

  /** Once a row with another key arrives, all earlier pages are final. */
  lemma NewKeyClosesPages(binding: nat, rows: seq<DiscoveryRow>, m: nat)
    requires m < |rows| && forall row :: row in rows ==> row.page >= 0
    requires var early := PagesOf(binding, rows[..m]);
             early != [] ==> Last(early).shard != rows[m].shard || Last(early).index != rows[m].page
    ensures var early, all := PagesOf(binding, rows[..m]), PagesOf(binding, rows);
            |early| < |all| && early == all[..|early|]
  {
    var early, next := PagesOf(binding, rows[..m]), PagesOf(binding, rows[..m + 1]);
    assert rows[..m + 1][..m] == rows[..m];
    assert next == early + [Page(binding, rows[m].shard, rows[m].page, m, [rows[m].id])];
    ClosedPagesStay(binding, rows, m + 1);
    assert next[..|next| - 1] == early;
  }

  /** The page bounds of one publication. */
  ghost predicate PagesFit(pages: seq<Page>, pageBytes: Page -> nat) {
    |pages| <= MAX_DISCOVERED_PAGES && forall page :: page in pages ==> pageBytes(page) <= DISCOVERED_PAGE_MAX_BYTES
  }

  ghost predicate Publishable(shard: ShardOf, rows: seq<DiscoveryRow>, binding: nat, pageSize: nat,
                              pageBytes: Page -> nat, manifestBytes: Manifest -> nat) {
    && 0 < pageSize <= MAX_DISCOVERED_PAGE_IDS
    && Acceptable(shard, rows, pageSize)
    && (AcceptedPagesNonNegative(shard, rows, pageSize);
        && PagesFit(PagesOf(binding, rows), pageBytes)
        && manifestBytes(ManifestOf(binding, pageSize, rows)) <= CONTROL_MAX_BYTES)
  }

  lemma RejectedRowBlocks(shard: ShardOf, rows: seq<DiscoveryRow>, n: nat, binding: nat, pageSize: nat,
                          pageBytes: Page -> nat, manifestBytes: Manifest -> nat)
    requires pageSize > 0 && n < |rows| && !RowAccepted(shard, rows, n, pageSize)
    ensures !Publishable(shard, rows, binding, pageSize, pageBytes, manifestBytes)
  {
    hide RowAccepted;
  }

  /** `flush`: closes the current page within the page-count and byte bounds. */
  method Flush(pointers: seq<PageRef>, page: Page, pageBytes: Page -> nat, store: set<PageId>)
    returns (r: Result<seq<PageRef>, DiscoveryError>, stored: set<PageId>)
    requires page.items != []
    ensures r.Ok? <==> |pointers| < MAX_DISCOVERED_PAGES && pageBytes(page) <= DISCOVERED_PAGE_MAX_BYTES
    ensures r.Ok? ==> r.value == pointers + [RefOf(page)] && stored == store + {PageKey(page)}
    ensures r.Err? ==> stored == store
  {
    if |pointers| >= MAX_DISCOVERED_PAGES {
      return Err(PageBound), store;
    }
    if pageBytes(page) > DISCOVERED_PAGE_MAX_BYTES {
      return Err(PageBytes), store;
    }
    return Ok(pointers + [RefOf(page)]), store + {PageKey(page)};
  }

  ghost predicate NonEmptyPages(pages: seq<Page>) {
    forall i :: 0 <= i < |pages| ==> pages[i].items != []
  }

  /** The pages built so far: closed ones stored and pointed to, the last one still open. */
  ghost predicate Building(pages: seq<Page>, pageBytes: Page -> nat, pointers: seq<PageRef>, stored: set<PageId>) {
    && NonEmptyPages(pages)
    && pointers == RefsOf(if pages == [] then [] else pages[..|pages| - 1])
    && |pointers| <= MAX_DISCOVERED_PAGES
    && (forall i :: 0 <= i < |pages| - 1 ==>
        pageBytes(pages[i]) <= DISCOVERED_PAGE_MAX_BYTES && PageKey(pages[i]) in stored)
  }

  lemma OpenPageGrows(binding: nat, rows: seq<DiscoveryRow>, n: nat)
    requires n < |rows| && forall i :: 0 <= i <= n ==> rows[i].page >= 0
    requires var pages := PagesOf(binding, rows[..n]);
             pages != [] && Last(pages).shard == rows[n].shard && Last(pages).index == rows[n].page
    ensures var pages := PagesOf(binding, rows[..n]);
            PagesOf(binding, rows[..n + 1])
                == pages[..|pages| - 1] + [Last(pages).(items := Last(pages).items + [rows[n].id])]
  {
    assert rows[..n + 1][..n] == rows[..n];
  }

  lemma OpenPageBuilds(pages: seq<Page>, pageBytes: Page -> nat, pointers: seq<PageRef>, stored: set<PageId>,
                       page: Page)
    requires pages != [] && Building(pages, pageBytes, pointers, stored) && page.items != []
    ensures Building(pages[..|pages| - 1] + [page], pageBytes, pointers, stored)
  {
    var next := pages[..|pages| - 1] + [page];
    assert next[..|next| - 1] == pages[..|pages| - 1];
  }

  lemma BuildsInto(binding: nat, rows: seq<DiscoveryRow>, n: nat, pageBytes: Page -> nat, pointers: seq<PageRef>,
                   stored: set<PageId>)
    requires n < |rows| && forall i :: 0 <= i <= n ==> rows[i].page >= 0
    requires var pages := PagesOf(binding, rows[..n]);
             Building(pages, pageBytes, pointers, stored)
             && pages != [] && Last(pages).shard == rows[n].shard && Last(pages).index == rows[n].page
    ensures var pages, next := PagesOf(binding, rows[..n]), PagesOf(binding, rows[..n + 1]);
            Building(next, pageBytes, pointers, stored)
                && Last(next) == Last(pages).(items := Last(pages).items + [rows[n].id])
  {
    hide Building, PagesOf;
    var pages := PagesOf(binding, rows[..n]);
    OpenPageGrows(binding, rows, n);
    OpenPageBuilds(pages, pageBytes, pointers, stored, Last(pages).(items := Last(pages).items + [rows[n].id]));
  }

  lemma NewPageOpens(binding: nat, rows: seq<DiscoveryRow>, n: nat)
    requires n < |rows| && forall i :: 0 <= i <= n ==> rows[i].page >= 0
    requires var pages := PagesOf(binding, rows[..n]);
             pages != [] ==> Last(pages).shard != rows[n].shard || Last(pages).index != rows[n].page
    ensures PagesOf(binding, rows[..n + 1])
         == PagesOf(binding, rows[..n]) + [Page(binding, rows[n].shard, rows[n].page, n, [rows[n].id])]
  {
    assert rows[..n + 1][..n] == rows[..n];
  }

  lemma FirstPageBuilds(pageBytes: Page -> nat, pointers: seq<PageRef>, stored: set<PageId>, page: Page)
    requires Building([], pageBytes, pointers, stored) && page.items != []
    ensures Building([] + [page], pageBytes, pointers, stored)
  {
    assert [] + [page] == [page] && [page][..0] == [];
  }

  lemma NextPageBuilds(pages: seq<Page>, pageBytes: Page -> nat, pointers: seq<PageRef>, stored: set<PageId>,
                       page: Page)
    requires pages != [] && Building(pages, pageBytes, pointers, stored) && page.items != []
    requires |pointers| < MAX_DISCOVERED_PAGES && pageBytes(Last(pages)) <= DISCOVERED_PAGE_MAX_BYTES
    ensures Last(pages).items != []
    ensures Building(pages + [page], pageBytes, pointers + [RefOf(Last(pages))], stored + {PageKey(Last(pages))})
  {
    var next := pages + [page];
    assert next[..|next| - 1] == pages;
    RefsSnoc(pages);
  }

  lemma RefsSnoc(pages: seq<Page>)
    requires pages != [] && NonEmptyPages(pages)
    ensures RefsOf(pages) == RefsOf(pages[..|pages| - 1]) + [RefOf(Last(pages))]
  {
  }

  lemma BuildsNew(binding: nat, rows: seq<DiscoveryRow>, n: nat, pageBytes: Page -> nat, pointers: seq<PageRef>,
                  stored: set<PageId>)
    requires n < |rows| && forall i :: 0 <= i <= n ==> rows[i].page >= 0
    requires var pages := PagesOf(binding, rows[..n]);
             Building(pages, pageBytes, pointers, stored)
             && (pages != [] ==>
                 |pointers| < MAX_DISCOVERED_PAGES && pageBytes(Last(pages)) <= DISCOVERED_PAGE_MAX_BYTES
                                 && (Last(pages).shard != rows[n].shard || Last(pages).index != rows[n].page))
    ensures var pages, next := PagesOf(binding, rows[..n]), PagesOf(binding, rows[..n + 1]);
            && Last(next) == Page(binding, rows[n].shard, rows[n].page, n, [rows[n].id])
            && (pages == [] ==> Building(next, pageBytes, pointers, stored))
            && (pages != [] ==> Last(pages).items != []
                                && Building(next, pageBytes, pointers + [RefOf(Last(pages))],
                                            stored + {PageKey(Last(pages))}))
  {
    hide Building, PagesOf;
    var pages := PagesOf(binding, rows[..n]);
    var page := Page(binding, rows[n].shard, rows[n].page, n, [rows[n].id]);
    NewPageOpens(binding, rows, n);
    if pages == [] {
      FirstPageBuilds(pageBytes, pointers, stored, page);
    } else {
      NextPageBuilds(pages, pageBytes, pointers, stored, page);
    }
  }

  lemma FlushBlocked(shard: ShardOf, rows: seq<DiscoveryRow>, n: nat, binding: nat, pageSize: nat,
                     pageBytes: Page -> nat, manifestBytes: Manifest -> nat, pages: seq<Page>, page: Page)
    requires pageSize > 0 && n < |rows| && forall i :: 0 <= i <= n ==> rows[i].page >= 0
    requires pages == PagesOf(binding, rows[..n]) && pages != [] && page == Last(pages)
    requires page.shard != rows[n].shard || page.index != rows[n].page
    requires |pages| - 1 >= MAX_DISCOVERED_PAGES || pageBytes(page) > DISCOVERED_PAGE_MAX_BYTES
    ensures !Publishable(shard, rows, binding, pageSize, pageBytes, manifestBytes)
  {
    if Acceptable(shard, rows, pageSize) {
      AcceptedPagesNonNegative(shard, rows, pageSize);
      NewKeyClosesPages(binding, rows, n);
      var all := PagesOf(binding, rows);
      assert page == all[|pages| - 1] && page in all;
    }
  }

  /** The last page is closed and the manifest written, when both fit. */
  lemma FinalFlush(shard: ShardOf, rows: seq<DiscoveryRow>, binding: nat, pageSize: nat, pageBytes: Page -> nat,
                   manifestBytes: Manifest -> nat,
                   pointers: seq<PageRef>, stored: set<PageId>)
    requires 0 < pageSize <= MAX_DISCOVERED_PAGE_IDS && Acceptable(shard, rows, pageSize)
    requires forall row :: row in rows ==> row.page >= 0
    requires Building(PagesOf(binding, rows), pageBytes, pointers, stored)
    ensures var pages, m := PagesOf(binding, rows), ManifestOf(binding, pageSize, rows);
            && (pages == [] ==>
                pointers == [] && rows == [] && PagesFit(pages, pageBytes)
                && m == Manifest(binding, pageSize, pointers, 0, 0))
            && (pages != [] ==>
                  && Last(pages).items != []
                  && m == Manifest(binding, pageSize, pointers + [RefOf(Last(pages))], |rows|, |pointers| + 1)
                  && (PagesFit(pages, pageBytes) <==>
                      |pointers| < MAX_DISCOVERED_PAGES && pageBytes(Last(pages)) <= DISCOVERED_PAGE_MAX_BYTES)
                  && forall ref :: ref in m.pages ==> ref.stored in stored + {PageKey(Last(pages))})
  {
    hide Acceptable, PagesOf, Tiles, RefOf;
    var pages := PagesOf(binding, rows);
    PagesTile(binding, rows);
    TilesEmpty(binding, rows, pages);
    if pages != [] {
      assert pages == pages[..|pages| - 1] + [Last(pages)];
      RefsSnoc(pages);
      assert RefsOf(pages) == pointers + [RefOf(Last(pages))];
      RefsStored(pages);
      forall page | page in pages && pageBytes(Last(pages)) <= DISCOVERED_PAGE_MAX_BYTES
        ensures pageBytes(page) <= DISCOVERED_PAGE_MAX_BYTES
      {
        var i :| 0 <= i < |pages| && pages[i] == page;
      }
      assert Last(pages) in pages;
    }
  }

  lemma TilesEmpty(binding: nat, rows: seq<DiscoveryRow>, pages: seq<Page>)
    requires Tiles(binding, rows, pages)
    ensures pages == [] <==> rows == []
  {
  }

  lemma RefsStored(pages: seq<Page>)
    requires NonEmptyPages(pages)
    ensures forall ref :: ref in RefsOf(pages) ==> exists i :: 0 <= i < |pages| && ref.stored == PageKey(pages[i])
  {
  }

  /** The checks of one row against what came before it. */
  method CheckRow(shard: ShardOf, rows: seq<DiscoveryRow>, n: nat, pageSize: nat, positions: map<string, nat>,
                  lasts: map<string, string>)
    returns (r: Result<nat, DiscoveryError>)
    requires pageSize > 0 && n < |rows| && SeenPositions(rows, n, positions) && SeenIds(rows, n, lasts)
    ensures r.Ok? <==> RowAccepted(shard, rows, n, pageSize)
    ensures r.Ok? ==> rows[n].page >= 0
    ensures r.Ok? ==> SeenPositions(rows, n + 1, positions[rows[n].shard := r.value + 1])
    ensures r.Ok? ==> SeenIds(rows, n + 1, lasts[rows[n].shard := rows[n].id])
  {
    hide SeenPositions, SeenIds, OrderLess, IsShard;
    var row := rows[n];
    if !IsShard(row.shard) || row.shard != shard(row.id) {
      return Err(BadShard);
    }
    var position := if row.shard in positions then positions[row.shard] else 0;
    SeenPositionsNext(rows, n, positions, position);
    DivGrows(0, position, pageSize);
    if row.page < 0 || row.page != position / pageSize {
      return Err(BadPage);
    }
    if row.shard in lasts && !StrLess(lasts[row.shard], row.id) {
      SeenIdRefutes(shard, rows, n, pageSize, lasts);
      return Err(NotSorted);
    }
    EarlierIdsLess(rows, n, lasts);
    if n > 0 && !OrderLess(rows[n - 1], row) {
      return Err(NotStable);
    }
    SeenIdsNext(rows, n, lasts);
    return Ok(position);
  }

  /** `publish_discovered_eidr_id_manifest`: pages as they close, the manifest last.  It succeeds exactly for rows
      in deterministic pages that fit the bounds, and then returns the manifest of those rows over stored pages. */
  method PublishDiscovered(shard: ShardOf, rows: seq<DiscoveryRow>, binding: nat, pageSize: nat,
                           pageBytes: Page -> nat, manifestBytes: Manifest -> nat, store: set<PageId>)
    returns (r: Result<Manifest, DiscoveryError>, stored: set<PageId>)
    ensures store <= stored
    ensures r.Ok? <==> Publishable(shard, rows, binding, pageSize, pageBytes, manifestBytes)
    ensures r.Ok? ==> (forall row :: row in rows ==> row.page >= 0) && r.value == ManifestOf(binding, pageSize, rows)
    ensures r.Ok? ==> forall ref :: ref in r.value.pages ==> ref.stored in stored
  {
    hide SeenPositions, SeenIds, RowAccepted, Building, PagesOf, ManifestOf, PagesFit;
    stored := store;
    if !(0 < pageSize <= MAX_DISCOVERED_PAGE_IDS) {
      return Err(PageSizeBound), stored;
    }
    var pointers: seq<PageRef> := [];
    var currentKey: Option<(string, int)> := None;
    var currentItems: seq<string> := [];
    var expectedPositionByShard: map<string, nat> := map[];
    var previousIdentifierByShard: map<string, string> := map[];
    var total := 0;
    NothingSeen(rows);
    NothingBuilt(binding, rows, pageBytes, store);
    while total < |rows|
      invariant 0 <= total <= |rows| && store <= stored
      invariant forall i :: 0 <= i < total ==> RowAccepted(shard, rows, i, pageSize) && rows[i].page >= 0
      invariant SeenPositions(rows, total, expectedPositionByShard) && SeenIds(rows, total, previousIdentifierByShard)
      invariant Building(PagesOf(binding, rows[..total]), pageBytes, pointers, stored)
      invariant |currentItems| <= total
      invariant currentKey.None? ==> total == 0 && PagesOf(binding, rows[..total]) == []
      invariant currentKey.Some? ==>
                  currentKey.value.1 >= 0 && PagesOf(binding, rows[..total]) != []
                  && Last(PagesOf(binding, rows[..total]))
                     == Page(binding, currentKey.value.0, currentKey.value.1, total - |currentItems|, currentItems)
    {
      var row := rows[total];
      var checked := CheckRow(shard, rows, total, pageSize, expectedPositionByShard, previousIdentifierByShard);
      if checked.Err? {
        RejectedRowBlocks(shard, rows, total, binding, pageSize, pageBytes, manifestBytes);
        return Err(checked.error), stored;
      }
      if currentKey.Some? && currentKey.value == (row.shard, row.page) {
        BuildsInto(binding, rows, total, pageBytes, pointers, stored);
      } else {
        if currentKey.Some? {
          var page := Page(binding, currentKey.value.0, currentKey.value.1, total - |currentItems|, currentItems);
          BuildingFacts(PagesOf(binding, rows[..total]), pageBytes, pointers, stored);
          var flushed;
          ghost var before := stored;
          flushed, stored := Flush(pointers, page, pageBytes, stored);
          if flushed.Err? {
            FlushBlocked(shard, rows, total, binding, pageSize, pageBytes, manifestBytes,
                         PagesOf(binding, rows[..total]), page);
            return Err(flushed.error), stored;
          }
          BuildsNew(binding, rows, total, pageBytes, pointers, before);
          pointers := flushed.value;
        } else {
          BuildsNew(binding, rows, total, pageBytes, pointers, stored);
        }
        currentItems := [];
      }
      currentKey := Some((row.shard, row.page));
      currentItems := currentItems + [row.id];
      expectedPositionByShard := expectedPositionByShard[row.shard := checked.value + 1];
      previousIdentifierByShard := previousIdentifierByShard[row.shard := row.id];
      total := total + 1;
    }
    assert rows[..total] == rows;
    AcceptedPagesNonNegative(shard, rows, pageSize);
    FinalFlush(shard, rows, binding, pageSize, pageBytes, manifestBytes, pointers, stored);
    if currentKey.Some? {
      var page := Page(binding, currentKey.value.0, currentKey.value.1, total - |currentItems|, currentItems);
      var flushed;
      flushed, stored := Flush(pointers, page, pageBytes, stored);
      if flushed.Err? {
        return Err(flushed.error), stored;
      }
      pointers := flushed.value;
    }
    var manifest := Manifest(binding, pageSize, pointers, total, |pointers|);
    if manifestBytes(manifest) > CONTROL_MAX_BYTES {
      return Err(ManifestBytes), stored;
    }
    return Ok(manifest), stored;
  }

  lemma NothingBuilt(binding: nat, rows: seq<DiscoveryRow>, pageBytes: Page -> nat, store: set<PageId>)
    ensures rows[..0] == [] && PagesOf(binding, rows[..0]) == []
            && Building(PagesOf(binding, rows[..0]), pageBytes, [], store)
  {
  }

  lemma BuildingFacts(pages: seq<Page>, pageBytes: Page -> nat, pointers: seq<PageRef>, stored: set<PageId>)
    requires Building(pages, pageBytes, pointers, stored) && pages != []
    ensures Last(pages).items != [] && |pointers| == |pages| - 1
  {
  }

  // ---------------------------------------------------------------- the round trip

  /** Over a valid manifest with readable pages, every selection is the matching slice of the listed IDs. */
  lemma ManifestSelection(m: Manifest, start: nat, limit: nat)
    requires ValidManifest(m) && start <= m.idCount && limit > 0
    requires forall ref :: ref in m.pages ==> CountsMatch(ref)
    ensures |AllIds(m.pages, |m.pages|)| == m.idCount
    ensures Selection(m.pages, |m.pages|, start, Min(m.idCount, start + limit))
         == AllIds(m.pages, |m.pages|)[start..Min(m.idCount, start + limit)]
  {
    SelectionIsSlice(m.pages, |m.pages|, start, Min(m.idCount, start + limit));
  }

  /** Whatever IDs are discovered, the iterator's rows are publishable but for the size bounds, the manifest is
      valid, and every range read back is that slice of the sorted, deduplicated IDs. */
  lemma PageRoundTrip(shard: ShardOf, values: seq<string>, binding: nat, pageSize: nat, start: nat, limit: nat)
    requires 0 < pageSize <= MAX_DISCOVERED_PAGE_IDS && forall id :: IsShard(shard(id))
    requires start <= |DiscoveredIds(shard, values)| && limit > 0
    ensures var ids := DiscoveredIds(shard, values);
            var rows := RowsOf(shard, ids, pageSize);
            && Acceptable(shard, rows, pageSize)
            && var m := ManifestOf(binding, pageSize, rows);
               && ValidManifest(m) && m.idCount == |ids|
               && (forall ref :: ref in m.pages ==> Readable(shard, {ref.stored}, ref, binding))
               && Selection(m.pages, |m.pages|, start, Min(m.idCount, start + limit))
                   == ids[start..Min(|ids|, start + limit)]
  {
    hide PagesOf, RefsOf, Acceptable, Readable, DiscoveredIds;
    var ids := DiscoveredIds(shard, values);
    var rows := RowsOf(shard, ids, pageSize);
    IteratedAreAcceptable(shard, values, pageSize);
    PublishedManifestValid(shard, binding, rows, pageSize);
    assert IdsOf(rows) == ids;
    ManifestSelection(ManifestOf(binding, pageSize, rows), start, limit);
  }
}
