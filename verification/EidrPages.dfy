/** Discovered-ID pages and their manifest: what the validator accepts, and what a range selection reads. */
module EidrPages {
  import opened Prelude
  import opened Ordering

  const MAX_DISCOVERED_PAGE_IDS := 16384
  const MAX_DISCOVERED_PAGES := 16384

  /** A shard function: the first two hex digits of the ID's SHA-256. */
  type ShardOf = string -> string

  predicate IsShard(s: string) { |s| == 2 && IsHex(s[0]) && IsHex(s[1]) }

  /** A shard is two lower-case hex digits. */
  lemma ShardShape(s: string)
    ensures IsShard(s) <==> |s| == 2 && s[0] in "0123456789abcdef" && s[1] in "0123456789abcdef"
  {
    if |s| == 2 {
      HexDigit(s[0]);
      HexDigit(s[1]);
    }
  }

  datatype Page = Page(binding: nat, shard: string, index: nat, start: nat, items: seq<string>)

  /** Pages are content-addressed: the digest stands for the page. */
  datatype PageId = PageKey(page: Page)

  datatype PageRef = PageRef(
    pageId: PageId,
    shard: string,
    index: nat,
    start: nat,
    count: nat,
    first: string,
    last: string,
    stored: PageId)

  datatype Manifest = Manifest(binding: nat, pageSize: nat, pages: seq<PageRef>, idCount: nat, pageCount: nat)

  datatype LookupError = MissingObject | InvalidPage | PageMismatch | RangeNotCovered

  ghost predicate StrictlySorted(ids: seq<string>) {
    forall i, j :: 0 <= i < j < |ids| ==> StrLess(ids[i], ids[j])
  }

  ghost predicate ValidPage(shard: ShardOf, page: Page) {
    && 0 < |page.items| <= MAX_DISCOVERED_PAGE_IDS
    && IsShard(page.shard)
    && StrictlySorted(page.items)
    && forall id :: id in page.items ==> shard(id) == page.shard
  }

  predicate ValidPageRef(shard: ShardOf, ref: PageRef) {
    && IsShard(ref.shard)
    && 0 < ref.count <= MAX_DISCOVERED_PAGE_IDS
    && StrLe(ref.first, ref.last)
    && shard(ref.first) == ref.shard == shard(ref.last)
  }

  // ---------------------------------------------------------------- the manifest validator

  predicate KeyLess(a: PageRef, b: PageRef) {
    StrLess(a.shard, b.shard) || (a.shard == b.shard && a.index < b.index)
  }

  /** The IDs before page `i`. */
  function Ordinal(pages: seq<PageRef>, i: nat): nat
    requires i <= |pages|
  {
    if i == 0 then 0 else Ordinal(pages, i - 1) + pages[i - 1].count
  }

  ghost predicate Contiguous(pages: seq<PageRef>) {
    forall i {:trigger Ordinal(pages, i)} :: 0 <= i < |pages| ==> pages[i].start == Ordinal(pages, i)
  }

  ghost predicate Ordered(pages: seq<PageRef>) {
    forall i, j :: 0 <= i < j < |pages| ==> KeyLess(pages[i], pages[j])
  }

  ghost predicate Disjoint(pages: seq<PageRef>) {
    forall i, j :: 0 <= i < j < |pages| && pages[i].shard == pages[j].shard ==> StrLess(pages[i].last, pages[j].first)
  }

  /** Contiguous ordinals, ordered pages, disjoint key ranges within each shard, and an honest total. */
  ghost predicate ValidManifest(m: Manifest) {
    && m.pageCount == |m.pages|
    && Contiguous(m.pages) && Ordered(m.pages) && Disjoint(m.pages)
    && Ordinal(m.pages, |m.pages|) == m.idCount
  }

  lemma StrLessTransitive(a: string, b: string, c: string)
    requires (StrLess(a, b) && StrLe(b, c)) || (StrLe(a, b) && StrLess(b, c))
    ensures StrLess(a, c)
  {
    StrLeTransitive(a, b, c);
    StrLeTotal(a, b);
    StrLeTotal(b, c);
  }

  lemma KeyLessTransitive(a: PageRef, b: PageRef, c: PageRef)
    requires KeyLess(a, b) && KeyLess(b, c)
    ensures KeyLess(a, c)
  {
    if StrLess(a.shard, b.shard) {
      assert StrLe(b.shard, c.shard) by { StrLeTotal(b.shard, c.shard); }
      StrLessTransitive(a.shard, b.shard, c.shard);
    }
  }

  lemma {:induction false} OrdinalOfPrefix(pages: seq<PageRef>, n: nat, i: nat)
    requires i <= n <= |pages|
    ensures Ordinal(pages[..n], i) == Ordinal(pages, i)
  {
    if i > 0 {
      OrdinalOfPrefix(pages, n, i - 1);
    }
  }

  /** The last key of each shard seen so far, as the validator's dictionary holds it. */
  ghost predicate TracksLasts(pages: seq<PageRef>, n: nat, lasts: map<string, string>)
    requires n <= |pages|
  {
    && (forall s :: s in lasts ==> exists j :: 0 <= j < n && pages[j].shard == s && pages[j].last == lasts[s])
    && (forall j :: 0 <= j < n ==> pages[j].shard in lasts && StrLe(pages[j].last, lasts[pages[j].shard]))
  }

  lemma NothingTracked(pages: seq<PageRef>)
    ensures TracksLasts(pages, 0, map[])
  {
  }

  lemma ExtendsLasts(shard: ShardOf, pages: seq<PageRef>, n: nat, lasts: map<string, string>)
    requires n < |pages| && TracksLasts(pages, n, lasts) && ValidPageRef(shard, pages[n])
    requires pages[n].shard in lasts ==> StrLess(lasts[pages[n].shard], pages[n].first)
    ensures TracksLasts(pages, n + 1, lasts[pages[n].shard := pages[n].last])
    ensures forall j :: 0 <= j < n && pages[j].shard == pages[n].shard ==> StrLess(pages[j].last, pages[n].first)
  {
    var next := lasts[pages[n].shard := pages[n].last];
    StrLeTotal(pages[n].last, pages[n].last);
    forall j | 0 <= j < n && pages[j].shard == pages[n].shard
      ensures StrLess(pages[j].last, pages[n].first) && StrLe(pages[j].last, pages[n].last)
    {
      StrLessTransitive(pages[j].last, lasts[pages[n].shard], pages[n].first);
      StrLessTransitive(pages[j].last, pages[n].first, pages[n].last);
    }
    forall s | s in next
      ensures exists j :: 0 <= j < n + 1 && pages[j].shard == s && pages[j].last == next[s]
    {
      if s == pages[n].shard {
        assert pages[n].last == next[s];
      } else {
        var j :| 0 <= j < n && pages[j].shard == s && pages[j].last == lasts[s];
        assert pages[j].last == next[s];
      }
    }
  }

  lemma ExtendsOrder(pages: seq<PageRef>, n: nat)
    requires 0 < n < |pages| && KeyLess(pages[n - 1], pages[n])
    requires forall i, j :: 0 <= i < j < n ==> KeyLess(pages[i], pages[j])
    ensures forall i :: 0 <= i < n ==> KeyLess(pages[i], pages[n])
  {
    forall i | 0 <= i < n
      ensures KeyLess(pages[i], pages[n])
    {
      if i < n - 1 {
        KeyLessTransitive(pages[i], pages[n - 1], pages[n]);
      }
    }
  }

  lemma OverlapRefutes(pages: seq<PageRef>, n: nat, lasts: map<string, string>)
    requires n < |pages| && TracksLasts(pages, n, lasts)
    requires pages[n].shard in lasts && !StrLess(lasts[pages[n].shard], pages[n].first)
    ensures !Disjoint(pages)
  {
    var j :| 0 <= j < n && pages[j].shard == pages[n].shard && pages[j].last == lasts[pages[n].shard];
    assert !StrLess(pages[j].last, pages[n].first);
  }

  /** `DiscoveredEidrIdManifest.validate_manifest`: one pass, comparing with the previous page only. */
  method ValidateManifest(shard: ShardOf, m: Manifest) returns (ok: bool)
    requires forall ref :: ref in m.pages ==> ValidPageRef(shard, ref)
    ensures ok <==> ValidManifest(m)
  {
    hide KeyLess, StrLess, TracksLasts, ValidPageRef;
    var pages := m.pages;
    if m.pageCount != |pages| {
      return false;
    }
    var expectedOrdinal := 0;
    var previousLastByShard: map<string, string> := map[];
    NothingTracked(pages);
    var n := 0;
    while n < |pages|
      invariant 0 <= n <= |pages|
      invariant expectedOrdinal == Ordinal(pages, n)
      invariant forall i {:trigger Ordinal(pages, i)} :: 0 <= i < n ==> pages[i].start == Ordinal(pages, i)
      invariant forall i, j :: 0 <= i < j < n ==> KeyLess(pages[i], pages[j])
      invariant forall i, j :: 0 <= i < j < n && pages[i].shard == pages[j].shard ==>
                StrLess(pages[i].last, pages[j].first)
      invariant TracksLasts(pages, n, previousLastByShard)
    {
      var page := pages[n];
      if n > 0 && !KeyLess(pages[n - 1], page) {
        return false;
      }
      if page.start != expectedOrdinal {
        assert pages[n].start != Ordinal(pages, n);
        return false;
      }
      if page.shard in previousLastByShard && !StrLess(previousLastByShard[page.shard], page.first) {
        OverlapRefutes(pages, n, previousLastByShard);
        return false;
      }
      if n > 0 {
        ExtendsOrder(pages, n);
      }
      ExtendsLasts(shard, pages, n, previousLastByShard);
      previousLastByShard := previousLastByShard[page.shard := page.last];
      expectedOrdinal := expectedOrdinal + page.count;
      n := n + 1;
    }
    return expectedOrdinal == m.idCount;
  }

  // ---------------------------------------------------------------- reading pages

  ghost predicate PageMatches(ref: PageRef, binding: nat) {
    var page := ref.stored.page;
    && ref.stored == ref.pageId
    && page.binding == binding
    && page.shard == ref.shard
    && page.index == ref.index
    && page.start == ref.start
    && |page.items| == ref.count > 0
    && page.items[0] == ref.first
    && page.items[|page.items| - 1] == ref.last
  }

  /** The pointer's object is stored, is a valid page, and is the page the pointer describes. */
  ghost predicate Readable(shard: ShardOf, store: set<PageId>, ref: PageRef, binding: nat) {
    ref.stored in store && ValidPage(shard, ref.stored.page) && PageMatches(ref, binding)
  }

  /** `_read_page`; `valid` is the page model's own validation. */
  function ReadPage(valid: Page -> bool, store: set<PageId>, ref: PageRef, binding: nat): Result<Page, LookupError> {
    if ref.stored !in store then Err(MissingObject)
    else
      var page := ref.stored.page;
      if !valid(page) || page.items == [] then Err(InvalidPage)
      else if ref.stored != ref.pageId || page.binding != binding || page.shard != ref.shard
        || page.index != ref.index || page.start != ref.start || |page.items| != ref.count
        || page.items[0] != ref.first || page.items[|page.items| - 1] != ref.last
      then Err(PageMismatch)
      else Ok(page)
  }

  lemma ReadPageReads(shard: ShardOf, valid: Page -> bool, store: set<PageId>, ref: PageRef, binding: nat)
    requires forall page :: valid(page) <==> ValidPage(shard, page)
    ensures ReadPage(valid, store, ref, binding).Ok? <==> Readable(shard, store, ref, binding)
    ensures ReadPage(valid, store, ref, binding).Ok? ==> ReadPage(valid, store, ref, binding).value == ref.stored.page
  {
  }

  ghost predicate Overlaps(ref: PageRef, start: nat, end: nat) {
    ref.start < end && start < ref.start + ref.count
  }

  lemma {:induction false} OrdinalGrows(pages: seq<PageRef>, i: nat, j: nat)
    requires i <= j <= |pages|
    ensures Ordinal(pages, i) <= Ordinal(pages, j)
  {
    if i < j {
      OrdinalGrows(pages, i, j - 1);
    }
  }

  /** The stored items have the length the pointer claims. */
  predicate CountsMatch(ref: PageRef) { |ref.stored.page.items| == ref.count }

  /** The part of one page that lies in the range. */
  function PageSlice(ref: PageRef, start: nat, end: nat): seq<string>
    requires start <= end
  {
    if ref.start < end && start < ref.start + ref.count && CountsMatch(ref)
    then ref.stored.page.items[Max(0, start - ref.start)..Min(ref.count, end - ref.start)]
    else []
  }

  /** The part of the range that lies in the first `n` pages. */
  function Selection(pages: seq<PageRef>, n: nat, start: nat, end: nat): seq<string>
    requires n <= |pages| && start <= end
  {
    if n == 0 then [] else Selection(pages, n - 1, start, end) + PageSlice(pages[n - 1], start, end)
  }

  lemma PageSliceLength(ref: PageRef, start: nat, end: nat)
    requires start <= end && (Overlaps(ref, start, end) ==> CountsMatch(ref))
    ensures |PageSlice(ref, start, end)|
            == Max(0, Min(end, ref.start + ref.count) - start) - Max(0, Min(end, ref.start) - start)
  {
  }

  lemma {:induction false} SelectionLength(pages: seq<PageRef>, n: nat, start: nat, end: nat)
    requires n <= |pages| && start <= end && Contiguous(pages)
    requires forall i :: 0 <= i < n && Overlaps(pages[i], start, end) ==> CountsMatch(pages[i])
    ensures |Selection(pages, n, start, end)| == Max(0, Min(end, Ordinal(pages, n)) - start)
  {
    hide PageSlice, CountsMatch, Overlaps;
    if n > 0 {
      SelectionLength(pages, n - 1, start, end);
      assert pages[n - 1].start == Ordinal(pages, n - 1);
      assert Ordinal(pages, n) == pages[n - 1].start + pages[n - 1].count;
      PageSliceLength(pages[n - 1], start, end);
    }
  }

  lemma NoSlice(ref: PageRef, start: nat, end: nat)
    requires start <= end && !Overlaps(ref, start, end)
    ensures PageSlice(ref, start, end) == []
  {
  }

  /** Pages from `n` on lie past the range, so the first `n` already cover it. */
  lemma {:induction false} SelectionEnds(pages: seq<PageRef>, n: nat, start: nat, end: nat)
    requires n <= |pages| && start <= end && Contiguous(pages) && end <= Ordinal(pages, n)
    ensures Selection(pages, |pages|, start, end) == Selection(pages, n, start, end)
    ensures forall i :: n <= i < |pages| ==> !Overlaps(pages[i], start, end)
    decreases |pages| - n
  {
    hide PageSlice;
    if n < |pages| {
      assert pages[n].start == Ordinal(pages, n);
      assert Ordinal(pages, n + 1) == Ordinal(pages, n) + pages[n].count;
      NoSlice(pages[n], start, end);
      SelectionEnds(pages, n + 1, start, end);
      assert Selection(pages, n + 1, start, end) == Selection(pages, n, start, end) + PageSlice(pages[n], start, end);
    }
  }

  lemma SliceRead(shard: ShardOf, store: set<PageId>, ref: PageRef, binding: nat, start: nat, end: nat)
    requires start <= end && Overlaps(ref, start, end) && Readable(shard, store, ref, binding)
    ensures CountsMatch(ref)
    ensures 0 <= Max(0, start - ref.start) <= Min(ref.count, end - ref.start) <= |ref.stored.page.items|
    ensures PageSlice(ref, start, end)
            == ref.stored.page.items[Max(0, start - ref.start)..Min(ref.count, end - ref.start)]
  {
  }

  /** Enough items mean the range is covered. */
  lemma LimitReached(pages: seq<PageRef>, n: nat, start: nat, limit: nat, total: nat)
    requires n <= |pages| && start <= total && limit > 0 && Contiguous(pages)
    requires forall i :: 0 <= i < n && Overlaps(pages[i], start, Min(total, start + limit)) ==> CountsMatch(pages[i])
    requires |Selection(pages, n, start, Min(total, start + limit))| >= limit
    ensures Min(total, start + limit) <= Ordinal(pages, n)
  {
    SelectionLength(pages, n, start, Min(total, start + limit));
  }

  /** `_select_lookup_items`: reads the overlapping pages only, and returns exactly the range. */
  method SelectLookupItems(shard: ShardOf, valid: Page -> bool, store: set<PageId>, m: Manifest, start: nat, limit: nat)
    returns (r: Result<seq<string>, LookupError>)
    requires forall page :: valid(page) <==> ValidPage(shard, page)
    requires ValidManifest(m) && start <= m.idCount && limit > 0
    ensures r.Ok? <==> forall i :: 0 <= i < |m.pages| && Overlaps(m.pages[i], start, Min(m.idCount, start + limit)) ==>
                                     Readable(shard, store, m.pages[i], m.binding)
    ensures r.Ok? ==> r.value == Selection(m.pages, |m.pages|, start, Min(m.idCount, start + limit))
    ensures r.Ok? ==> |r.value| == Min(m.idCount, start + limit) - start
  {
    hide Readable, Ordered, Disjoint, CountsMatch, ReadPage, PageSlice, ValidPage;
    var pages := m.pages;
    var selected := [];
    var end := Min(m.idCount, start + limit);
    var n := 0;
    while n < |pages|
      invariant 0 <= n <= |pages|
      invariant selected == Selection(pages, n, start, end)
      invariant forall i :: 0 <= i < n && Overlaps(pages[i], start, end) ==>
                              Readable(shard, store, pages[i], m.binding) && CountsMatch(pages[i])
    {
      var pointer := pages[n];
      assert pages[n].start == Ordinal(pages, n);
      if pointer.start + pointer.count <= start {
        NoSlice(pointer, start, end);
        n := n + 1;
        continue;
      }
      if pointer.start >= end {
        break;
      }
      ReadPageReads(shard, valid, store, pointer, m.binding);
      var page := ReadPage(valid, store, pointer, m.binding);
      if page.Err? {
        assert Overlaps(pages[n], start, end);
        return Err(page.error);
      }
      SliceRead(shard, store, pointer, m.binding, start, end);
      selected := selected + page.value.items[Max(0, start - pointer.start)..Min(pointer.count, end - pointer.start)];
      n := n + 1;
      if |selected| >= limit {
        LimitReached(pages, n, start, limit, m.idCount);
        break;
      }
    }
    SelectionEnds(pages, n, start, end);
    SelectionLength(pages, n, start, end);
    if |selected| != end - start {
      return Err(RangeNotCovered);
    }
    return Ok(selected);
  }

  // ---------------------------------------------------------------- every discovered ID, in ordinal order

  function AllIds(pages: seq<PageRef>, n: nat): seq<string>
    requires n <= |pages|
  {
    if n == 0 then [] else AllIds(pages, n - 1) + pages[n - 1].stored.page.items
  }

  lemma {:induction false} AllIdsLength(pages: seq<PageRef>, n: nat)
    requires n <= |pages| && forall i :: 0 <= i < n ==> CountsMatch(pages[i])
    ensures |AllIds(pages, n)| == Ordinal(pages, n)
  {
    if n > 0 {
      AllIdsLength(pages, n - 1);
    }
  }

  /** A selection is a slice of the whole list: wherever the page boundaries fall, they leave no trace. */
  lemma {:induction false} SelectionIsSlice(pages: seq<PageRef>, n: nat, start: nat, end: nat)
    requires n <= |pages| && Contiguous(pages) && start <= end
    requires forall i :: 0 <= i < |pages| ==> CountsMatch(pages[i])
    ensures |AllIds(pages, n)| == Ordinal(pages, n)
    ensures Selection(pages, n, start, end)
         == AllIds(pages, n)[Min(start, Ordinal(pages, n))..Min(end, Ordinal(pages, n))]
  {
    AllIdsLength(pages, n);
    if n > 0 {
      SelectionIsSlice(pages, n - 1, start, end);
      var before := AllIds(pages, n - 1);
      var items := pages[n - 1].stored.page.items;
      assert pages[n - 1].start == Ordinal(pages, n - 1) == |before|;
      SliceOfJoin(before, items, start, end);
    }
  }

  lemma SliceOfJoin(a: seq<string>, b: seq<string>, start: nat, end: nat)
    requires start <= end
    ensures (a + b)[Min(start, |a + b|)..Min(end, |a + b|)]
         == a[Min(start, |a|)..Min(end, |a|)]
            + (if |a| < end && start < |a| + |b| then b[Max(0, start - |a|)..Min(|b|, end - |a|)] else [])
  {
  }
}
