/** The bucketed digest of a committed-run set: what it accepts, and that it decides set equality. */
module CommittedRuns {
  import opened Prelude
  import opened Ordering

  /** sha256:<64 lowercase hex>. */
  predicate IsDigest(s: string) {
    |s| == 71 && s[..7] == "sha256:" && forall i :: 7 <= i < 71 ==> IsHex(s[i])
  }

  /** A digest is the prefix and 64 lower-case hex digits. */
  lemma DigestShape(s: string)
    ensures IsDigest(s) <==>
              exists hex :: s == "sha256:" + hex && |hex| == 64 && forall c :: c in hex ==> c in "0123456789abcdef"
  {
    if IsDigest(s) {
      var hex := s[7..];
      assert s == "sha256:" + hex;
      forall c | c in hex
        ensures c in "0123456789abcdef"
      {
        var i :| 0 <= i < 64 && hex[i] == c;
        assert IsHex(s[i + 7]);
        HexDigit(c);
      }
    }
    if hex :| s == "sha256:" + hex && |hex| == 64 && forall c :: c in hex ==> c in "0123456789abcdef" {
      assert s[..7] == "sha256:";
      forall i | 7 <= i < 71
        ensures IsHex(s[i])
      {
        assert s[i] == hex[i - 7] && hex[i - 7] in hex;
        HexDigit(s[i]);
      }
    }
  }

  /** SUBSTRING(run_id, 8, 2), counted from one. */
  function BucketOf(id: string): (bucket: string)
    requires IsDigest(id)
    ensures |bucket| == 2 && "sha256:" + bucket <= id
  {
    id[7..9]
  }

  datatype Bucket = Bucket(name: string, count: int, digest: string)

  datatype SummaryError = InvalidRunId | DuplicateRunIds | NegativeCount | InvalidBucket | CountMismatch

  /** SHA-256 of a text, as the digest string it is stored as. */
  ghost predicate HashesToDigests(hash: string -> string) { forall s :: IsDigest(hash(s)) }

  // ---------------------------------------------------------------- building the digest

  /** Python's order on (bucket, count, digest) tuples. */
  predicate BucketLe(a: Bucket, b: Bucket) {
    if a.name != b.name then StrLe(a.name, b.name)
    else if a.count != b.count then a.count < b.count
    else StrLe(a.digest, b.digest)
  }

  lemma BucketLeTotalOrder()
    ensures TotalOrder(BucketLe)
  {
    StrLeTotalOrder();
  }

  predicate ValidBucket(b: Bucket) {
    |b.name| == 2 && IsHex(b.name[0]) && IsHex(b.name[1]) && b.count > 0 && IsDigest(b.digest)
  }

  function Names(buckets: seq<Bucket>): seq<string> {
    seq(|buckets|, i requires 0 <= i < |buckets| => buckets[i].name)
  }

  function CountSum(buckets: seq<Bucket>): int {
    if buckets == [] then 0 else CountSum(buckets[..|buckets| - 1]) + buckets[|buckets| - 1].count
  }

  ghost predicate WellFormedBuckets(buckets: seq<Bucket>) {
    (forall b :: b in buckets ==> ValidBucket(b)) && Distinct(Names(buckets))
  }

  /** `build_committed_run_digest`, as a property of the buckets. */
  ghost function DigestOf(key: (int, seq<Bucket>) -> string, runCount: int,
                          buckets: seq<Bucket>): Result<string, SummaryError> {
    var sorted := Sort(buckets, BucketLe);
    if runCount < 0 then Err(NegativeCount)
    else if !WellFormedBuckets(sorted) then Err(InvalidBucket)
    else if CountSum(sorted) != runCount then Err(CountMismatch)
    else Ok(key(runCount, sorted))
  }

  /** An accepted list of buckets: two-digit names that differ, positive counts that add up, and digests. */
  lemma AcceptedBuckets(key: (int, seq<Bucket>) -> string, runCount: int, buckets: seq<Bucket>)
    requires DigestOf(key, runCount, buckets).Ok?
    ensures runCount >= 0 && runCount == CountSum(Sort(buckets, BucketLe))
    ensures multiset(Sort(buckets, BucketLe)) == multiset(buckets)
    ensures forall b :: b in buckets ==>
              |b.name| == 2 && IsHex(b.name[0]) && IsHex(b.name[1]) && b.count > 0 && IsDigest(b.digest)
    ensures var sorted := Sort(buckets, BucketLe);
            forall i, j :: 0 <= i < j < |sorted| ==> sorted[i].name != sorted[j].name
  {
    hide IsDigest;
    var sorted := Sort(buckets, BucketLe);
    BucketLeTotalOrder();
    SortSorts(buckets, BucketLe);
    forall b | b in buckets
      ensures b in sorted
    {
      assert b in multiset(sorted);
    }
    forall i, j | 0 <= i < j < |sorted|
      ensures sorted[i].name != sorted[j].name
    {
      assert Names(sorted)[i] != Names(sorted)[j];
    }
  }

  lemma BadPrefix(sorted: seq<Bucket>, i: nat)
    requires i < |sorted|
    requires !ValidBucket(sorted[i]) || sorted[i].name in Names(sorted[..i])
    ensures !WellFormedBuckets(sorted)
  {
    if sorted[i].name in Names(sorted[..i]) {
      var j :| 0 <= j < i && Names(sorted[..i])[j] == sorted[i].name;
      assert Names(sorted)[j] == Names(sorted)[i];
    }
  }

  lemma GoodPrefix(sorted: seq<Bucket>, i: nat)
    requires i < |sorted| && WellFormedBuckets(sorted[..i])
    requires ValidBucket(sorted[i]) && sorted[i].name !in Names(sorted[..i])
    ensures WellFormedBuckets(sorted[..i + 1])
    ensures CountSum(sorted[..i + 1]) == CountSum(sorted[..i]) + sorted[i].count
    ensures forall n :: n in Names(sorted[..i + 1]) <==> n in Names(sorted[..i]) || n == sorted[i].name
  {
    assert sorted[..i + 1][..i] == sorted[..i];
    assert Names(sorted[..i + 1]) == Names(sorted[..i]) + [sorted[i].name];
  }

  /** `build_committed_run_digest`: one pass over the sorted buckets. */
  method BuildCommittedRunDigest(key: (int, seq<Bucket>) -> string, runCount: int, buckets: seq<Bucket>)
    returns (r: Result<string, SummaryError>)
    ensures r == DigestOf(key, runCount, buckets)
  {
    if runCount < 0 {
      return Err(NegativeCount);
    }
    var sorted := Sort(buckets, BucketLe);
    var normalized: seq<Bucket> := [];
    var seen: set<string> := {};
    var total := 0;
    var i := 0;
    while i < |sorted|
      invariant 0 <= i <= |sorted|
      invariant normalized == sorted[..i] && WellFormedBuckets(sorted[..i])
      invariant total == CountSum(sorted[..i])
      invariant forall n :: n in seen <==> n in Names(sorted[..i])
    {
      var b := sorted[i];
      if !ValidBucket(b) || b.name in seen {
        BadPrefix(sorted, i);
        return Err(InvalidBucket);
      }
      GoodPrefix(sorted, i);
      seen := seen + {b.name};
      total := total + b.count;
      normalized := normalized + [b];
      i := i + 1;
    }
    assert sorted[..i] == sorted;
    if total != runCount {
      return Err(CountMismatch);
    }
    return Ok(key(runCount, normalized));
  }

  // ---------------------------------------------------------------- summarising run rows

  function Members(ids: seq<string>, name: string): seq<string>
    requires forall id :: id in ids ==> IsDigest(id)
  {
    if ids == [] then []
    else (if BucketOf(ids[0]) == name then [ids[0]] else []) + Members(ids[1..], name)
  }

  function BucketNames(ids: seq<string>): seq<string>
    requires forall id :: id in ids ==> IsDigest(id)
  {
    if ids == [] then []
    else
      var rest := BucketNames(ids[1..]);
      if BucketOf(ids[0]) in rest then rest else [BucketOf(ids[0])] + rest
  }

  function ConcatWs(separator: string, lines: seq<string>): string {
    if lines == [] then ""
    else if |lines| == 1 then lines[0]
    else lines[0] + separator + ConcatWs(separator, lines[1..])
  }

  /** What the summary hashes for one bucket. */
  function BucketText(ids: seq<string>, name: string): string
    requires forall id :: id in ids ==> IsDigest(id)
  {
    ConcatWs("\n", Sort(Members(ids, name), StrLe))
  }

  function BucketRow(hash: string -> string, ids: seq<string>, name: string): Bucket
    requires forall id :: id in ids ==> IsDigest(id)
  {
    Bucket(name, |Members(ids, name)|, hash(BucketText(ids, name)))
  }

  function BucketRows(hash: string -> string, ids: seq<string>, names: seq<string>): seq<Bucket>
    requires forall id :: id in ids ==> IsDigest(id)
  {
    seq(|names|, i requires 0 <= i < |names| => BucketRow(hash, ids, names[i]))
  }

  /** The bucket rows of a column, in the order in which they are hashed. */
  function HashedRows(hash: string -> string, ids: seq<string>): seq<Bucket>
    requires forall id :: id in ids ==> IsDigest(id)
  {
    BucketRows(hash, ids, Sort(BucketNames(ids), StrLe))
  }

  function SetOf(ids: seq<string>): set<string> { set id | id in ids }

  ghost predicate ValidIds(ids: seq<string>) {
    (forall id :: id in ids ==> IsDigest(id)) && Distinct(ids)
  }

  /** `committed_run_summary` over the run_id column. */
  ghost function Summary(hash: string -> string, key: (int, seq<Bucket>) -> string,
                         ids: seq<string>): Result<(nat, string), SummaryError> {
    if exists id :: id in ids && !IsDigest(id) then Err(InvalidRunId)
    else if !Distinct(ids) then Err(DuplicateRunIds)
    else
      var digest :- DigestOf(key, |ids|, HashedRows(hash, ids));
      Ok((|ids|, digest))
  }

  // ---------------------------------------------------------------- an honest summary is accepted

  lemma {:induction false} MembersAre(ids: seq<string>, name: string)
    requires forall id :: id in ids ==> IsDigest(id)
    ensures forall id :: id in Members(ids, name) <==> id in ids && BucketOf(id) == name
    ensures Distinct(ids) ==> Distinct(Members(ids, name))
  {
    if ids != [] {
      MembersAre(ids[1..], name);
      assert ids == [ids[0]] + ids[1..];
    }
  }

  lemma {:induction false} BucketNamesAre(ids: seq<string>)
    requires forall id :: id in ids ==> IsDigest(id)
    ensures Distinct(BucketNames(ids))
    ensures forall name :: name in BucketNames(ids) <==> exists id :: id in ids && BucketOf(id) == name
  {
    if ids != [] {
      BucketNamesAre(ids[1..]);
      forall name
        ensures name in BucketNames(ids) <==> exists id :: id in ids && BucketOf(id) == name
      {
        if id :| id in ids && BucketOf(id) == name {
          assert id == ids[0] || id in ids[1..];
        }
        if name in BucketNames(ids[1..]) {
          var id :| id in ids[1..] && BucketOf(id) == name;
          assert id in ids;
        }
        if name == BucketOf(ids[0]) {
          assert ids[0] in ids;
        }
      }
    }
  }

  function CountedIn(ids: seq<string>, names: seq<string>): nat
    requires forall id :: id in ids ==> IsDigest(id)
  {
    if names == [] then 0 else CountedIn(ids, names[..|names| - 1]) + |Members(ids, names[|names| - 1])|
  }

  lemma {:induction false} CountedInCons(id: string, rest: seq<string>, names: seq<string>)
    requires IsDigest(id) && (forall x :: x in rest ==> IsDigest(x)) && Distinct(names)
    ensures forall x :: x in [id] + rest ==> IsDigest(x)
    ensures CountedIn([id] + rest, names) == CountedIn(rest, names) + (if BucketOf(id) in names then 1 else 0)
    decreases |names|
  {
    assert forall x :: x in [id] + rest ==> IsDigest(x);
    if names != [] {
      var n := |names| - 1;
      CountedInCons(id, rest, names[..n]);
      assert ([id] + rest)[1..] == rest;
      assert names == names[..n] + [names[n]];
    }
  }

  /** Every row falls into exactly one bucket. */
  lemma {:induction false} BucketsPartition(ids: seq<string>, names: seq<string>)
    requires (forall id :: id in ids ==> IsDigest(id)) && Distinct(names)
    requires forall id :: id in ids ==> BucketOf(id) in names
    ensures CountedIn(ids, names) == |ids|
    decreases |ids|
  {
    if ids == [] {
      NoneCounted(names);
    } else {
      BucketsPartition(ids[1..], names);
      assert ids == [ids[0]] + ids[1..];
      CountedInCons(ids[0], ids[1..], names);
    }
  }

  lemma {:induction false} NoneCounted(names: seq<string>)
    ensures CountedIn([], names) == 0
  {
    if names != [] {
      NoneCounted(names[..|names| - 1]);
    }
  }

  lemma {:induction false} CountSumIsCountedIn(hash: string -> string, ids: seq<string>, names: seq<string>)
    requires forall id :: id in ids ==> IsDigest(id)
    ensures CountSum(BucketRows(hash, ids, names)) == CountedIn(ids, names)
    decreases |names|
  {
    if names != [] {
      var n := |names| - 1;
      CountSumIsCountedIn(hash, ids, names[..n]);
      assert BucketRows(hash, ids, names)[..n] == BucketRows(hash, ids, names[..n]);
    }
  }

  lemma RowsAreSorted(hash: string -> string, ids: seq<string>, names: seq<string>)
    requires (forall id :: id in ids ==> IsDigest(id)) && Distinct(names) && Sorted(names, StrLe)
    ensures Sort(BucketRows(hash, ids, names), BucketLe) == BucketRows(hash, ids, names)
    ensures Names(BucketRows(hash, ids, names)) == names
  {
    BucketLeTotalOrder();
    SortedIsFixed(BucketRows(hash, ids, names), BucketLe);
  }

  lemma RowsAreWellFormed(hash: string -> string, ids: seq<string>, names: seq<string>)
    requires HashesToDigests(hash) && ValidIds(ids) && Distinct(names)
    requires forall name :: name in names ==> exists id :: id in ids && BucketOf(id) == name
    ensures WellFormedBuckets(BucketRows(hash, ids, names))
  {
    var rows := BucketRows(hash, ids, names);
    assert Names(rows) == names;
    forall i | 0 <= i < |rows|
      ensures ValidBucket(rows[i])
    {
      assert names[i] in names;
      MembersAre(ids, names[i]);
      var id :| id in ids && BucketOf(id) == names[i];
      assert id in Members(ids, names[i]);
    }
  }

  /** The bucket checks, including the sum against the run count, accept every honest summary. */
  lemma {:induction false} HonestSummaryAccepted(hash: string -> string, key: (int, seq<Bucket>) -> string,
                                                 ids: seq<string>)
    requires HashesToDigests(hash)
    ensures Summary(hash, key, ids).Ok? <==> ValidIds(ids)
    ensures ValidIds(ids) ==>
              Summary(hash, key, ids).value == (|ids|, key(|ids|, HashedRows(hash, ids)))
  {
    hide WellFormedBuckets, BucketRows, TotalOrder, CountSum, CountedIn, HashesToDigests;
    if ValidIds(ids) {
      StrLeTotalOrder();
      var names := Sort(BucketNames(ids), StrLe);
      BucketNamesAre(ids);
      SortSorts(BucketNames(ids), StrLe);
      SortKeepsElements(BucketNames(ids), StrLe);
      RowsAreSorted(hash, ids, names);
      RowsAreWellFormed(hash, ids, names);
      CountSumIsCountedIn(hash, ids, names);
      BucketsPartition(ids, names);
    }
  }

  // ---------------------------------------------------------------- the digest decides set equality

  /** Run IDs all have 71 characters, so they can be read back from their concatenation. */
  lemma {:induction false} ConcatWsInjective(a: seq<string>, b: seq<string>)
    requires (forall line :: line in a ==> |line| == 71) && (forall line :: line in b ==> |line| == 71)
    requires ConcatWs("\n", a) == ConcatWs("\n", b)
    ensures a == b
    decreases |a|
  {
    ConcatWsLength(a);
    ConcatWsLength(b);
    if a != [] {
      var text := ConcatWs("\n", a);
      assert a[0] == text[..71] && b[0] == text[..71];
      if |a| > 1 {
        assert ConcatWs("\n", a[1..]) == text[72..] == ConcatWs("\n", b[1..]);
        ConcatWsInjective(a[1..], b[1..]);
      }
      assert a == [a[0]] + a[1..] && b == [b[0]] + b[1..];
    }
  }

  lemma {:induction false} ConcatWsLength(lines: seq<string>)
    requires forall line :: line in lines ==> |line| == 71
    ensures |ConcatWs("\n", lines)| == if lines == [] then 0 else |lines| * 72 - 1
  {
    if |lines| > 1 {
      ConcatWsLength(lines[1..]);
    }
  }

  /** Two different bucket texts of the two columns, in one bucket, with one digest. */
  ghost predicate TextCollision(hash: string -> string, a: seq<string>, b: seq<string>)
    requires ValidIds(a) && ValidIds(b)
  {
    exists name :: name in BucketNames(a) && name in BucketNames(b) && BucketText(a, name) != BucketText(b, name)
                   && hash(BucketText(a, name)) == hash(BucketText(b, name))
  }

  /** Different rows or run counts of the two columns with one `deterministic_key`. */
  ghost predicate KeyCollision(hash: string -> string, key: (int, seq<Bucket>) -> string, a: seq<string>,
                               b: seq<string>)
    requires ValidIds(a) && ValidIds(b)
  {
    && (|a|, HashedRows(hash, a)) != (|b|, HashedRows(hash, b))
    && key(|a|, HashedRows(hash, a)) == key(|b|, HashedRows(hash, b))
  }

  lemma EqualRowsEqualMembers(hash: string -> string, a: seq<string>, b: seq<string>, name: string)
    requires ValidIds(a) && ValidIds(b) && !TextCollision(hash, a, b)
    requires name in BucketNames(a) && name in BucketNames(b)
    requires BucketRow(hash, a, name) == BucketRow(hash, b, name)
    ensures forall id :: id in a && BucketOf(id) == name ==> id in b
  {
    StrLeTotalOrder();
    MembersAre(a, name);
    MembersAre(b, name);
    SortKeepsElements(Members(a, name), StrLe);
    SortKeepsElements(Members(b, name), StrLe);
    assert BucketText(a, name) == BucketText(b, name);
    ConcatWsInjective(Sort(Members(a, name), StrLe), Sort(Members(b, name), StrLe));
  }

  lemma EqualSummariesEqualSets(hash: string -> string, a: seq<string>, b: seq<string>)
    requires ValidIds(a) && ValidIds(b) && !TextCollision(hash, a, b)
    requires HashedRows(hash, a) == HashedRows(hash, b)
    ensures forall id :: id in a ==> id in b
  {
    hide TextCollision;
    StrLeTotalOrder();
    var names, others := Sort(BucketNames(a), StrLe), Sort(BucketNames(b), StrLe);
    var rows := BucketRows(hash, a, names);
    SortKeepsElements(BucketNames(a), StrLe);
    SortKeepsElements(BucketNames(b), StrLe);
    BucketNamesAre(a);
    forall id | id in a
      ensures id in b
    {
      assert BucketOf(id) in names;
      var i :| 0 <= i < |names| && names[i] == BucketOf(id);
      assert rows[i] == BucketRow(hash, a, names[i]);
      assert rows[i] == BucketRow(hash, b, others[i]);
      assert others[i] == names[i];
      EqualRowsEqualMembers(hash, a, b, names[i]);
    }
  }

  lemma {:induction false} EqualSetsEqualRows(hash: string -> string, a: seq<string>, b: seq<string>)
    requires ValidIds(a) && ValidIds(b) && forall id :: id in a <==> id in b
    ensures |a| == |b|
    ensures HashedRows(hash, a) == HashedRows(hash, b)
  {
    StrLeTotalOrder();
    DistinctSameElements(a, b);
    assert |multiset(a)| == |multiset(b)|;
    BucketNamesAre(a);
    BucketNamesAre(b);
    DistinctSameElements(BucketNames(a), BucketNames(b));
    SortIgnoresOrder(BucketNames(a), BucketNames(b), StrLe);
    forall name
      ensures BucketRow(hash, a, name) == BucketRow(hash, b, name)
    {
      MembersAre(a, name);
      MembersAre(b, name);
      DistinctSameElements(Members(a, name), Members(b, name));
      SortIgnoresOrder(Members(a, name), Members(b, name), StrLe);
      assert |multiset(Members(a, name))| == |multiset(Members(b, name))|;
    }
  }

  /** Count and digest agree for two run columns, in whatever order their rows come, exactly when the run sets are
      equal or two different inputs of this very comparison have one digest. */
  lemma {:induction false} DigestDecidesSetEquality(
      hash: string -> string, key: (int, seq<Bucket>) -> string, a: seq<string>, b: seq<string>)
    requires HashesToDigests(hash) && ValidIds(a) && ValidIds(b)
    ensures SetOf(a) == SetOf(b) ==> Summary(hash, key, a) == Summary(hash, key, b)
    ensures Summary(hash, key, a) == Summary(hash, key, b) ==>
              SetOf(a) == SetOf(b) || TextCollision(hash, a, b) || KeyCollision(hash, key, a, b)
  {
    hide Summary, HashedRows, BucketNames, TextCollision;
    HonestSummaryAccepted(hash, key, a);
    HonestSummaryAccepted(hash, key, b);
    if Summary(hash, key, a) == Summary(hash, key, b) && !TextCollision(hash, a, b) && !KeyCollision(hash, key, a, b) {
      CollisionSymmetric(hash, a, b);
      EqualSummariesEqualSets(hash, a, b);
      EqualSummariesEqualSets(hash, b, a);
    }
    if SetOf(a) == SetOf(b) {
      assert forall id :: id in a <==> id in SetOf(a);
      assert forall id :: id in b <==> id in SetOf(b);
      EqualSetsEqualRows(hash, a, b);
    }
  }

  lemma CollisionSymmetric(hash: string -> string, a: seq<string>, b: seq<string>)
    requires ValidIds(a) && ValidIds(b)
    ensures TextCollision(hash, a, b) <==> TextCollision(hash, b, a)
  {
  }
}
