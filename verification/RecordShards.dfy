/** Connector publication: greedy byte-bounded shards, partitions in key namespaces, and the flat record set. */
module RecordShards {
  import opened Prelude

  const MAX_RECORD_SHARDS_PER_PARTITION := 4096

  type Bytes = seq<bv8>

  /** `_envelope_identity` under an injective digest: the record ID and every other hashed field. */
  datatype EnvelopeKey = EnvelopeKey(recordId: string, rest: nat)

  /** A record envelope and its NDJSON line. */
  datatype Envelope = Envelope(key: EnvelopeKey, line: Bytes)

  /** An uploaded shard object, addressed by partition, shard index and content. */
  datatype RecordUri = RecordUri(partition: Option<(nat, string)>, shard: nat, payload: Bytes)

  datatype RecordShard = RecordShard(index: nat, uri: RecordUri, records: seq<Envelope>, first: EnvelopeKey,
                                     last: EnvelopeKey)

  datatype PublishError =
    | BadArgument | UnboundEnvelope | OutsideNamespace | DuplicateKey | RecordTooLarge | TooManyShards | WrongCount
    | NoPartitions | IndexGap | DuplicateLabel | OverlappingNamespaces | TooManyObjects | DuplicateUri | DivergentReplay
    | WrongBinding | MissingObject

  // ---------------------------------------------------------------- greedy sharding

  function Payload(group: seq<Envelope>): Bytes {
    if group == [] then [] else Payload(group[..|group| - 1]) + group[|group| - 1].line
  }

  /** Append to the open shard while it fits, otherwise open the next one. */
  function Greedy(envelopes: seq<Envelope>, limit: nat): (groups: seq<seq<Envelope>>)
    ensures envelopes != [] ==> groups != [] && Last(groups) != []
  {
    if envelopes == [] then []
    else
      var n := |envelopes| - 1;
      var groups := Greedy(envelopes[..n], limit);
      var e := envelopes[n];
      if groups != [] && |Payload(Last(groups))| + |e.line| <= limit
      then groups[..|groups| - 1] + [Last(groups) + [e]]
      else groups + [[e]]
  }

  function Join(groups: seq<seq<Envelope>>): seq<Envelope> {
    if groups == [] then [] else Join(groups[..|groups| - 1]) + Last(groups)
  }

  /** A way to cut the records into consecutive shards within the byte limit. */
  ghost predicate Admissible(groups: seq<seq<Envelope>>, envelopes: seq<Envelope>, limit: nat) {
    Join(groups) == envelopes && forall g :: g in groups ==> |Payload(g)| <= limit
  }

  lemma PayloadSnoc(group: seq<Envelope>, e: Envelope)
    ensures Payload(group + [e]) == Payload(group) + e.line
  {
    assert (group + [e])[..|group|] == group;
  }

  /** The payload of one record is its line. */
  lemma PayloadOfOne(e: Envelope)
    ensures Payload([]) == [] && Payload([e]) == e.line
  {
    PayloadSnoc([], e);
    assert [] + [e] == [e];
  }

  lemma JoinSnoc(groups: seq<seq<Envelope>>, g: seq<Envelope>)
    ensures Join(groups + [g]) == Join(groups) + g
  {
    assert (groups + [g])[..|groups|] == groups;
  }

  lemma {:induction false} GreedyJoins(envelopes: seq<Envelope>, limit: nat)
    ensures Join(Greedy(envelopes, limit)) == envelopes
  {
    if envelopes != [] {
      var n := |envelopes| - 1;
      var e := envelopes[n];
      var groups := Greedy(envelopes[..n], limit);
      GreedyJoins(envelopes[..n], limit);
      assert envelopes == envelopes[..n] + [e];
      if groups != [] && |Payload(Last(groups))| + |e.line| <= limit {
        var front := groups[..|groups| - 1];
        JoinSnoc(front, Last(groups) + [e]);
        assert Join(front) + (Last(groups) + [e]) == (Join(front) + Last(groups)) + [e];
      } else {
        JoinSnoc(groups, [e]);
      }
    }
  }

  ghost predicate Fit(groups: seq<seq<Envelope>>, limit: nat) {
    forall i :: 0 <= i < |groups| ==> groups[i] != [] && |Payload(groups[i])| <= limit
  }

  lemma FitSnoc(groups: seq<seq<Envelope>>, g: seq<Envelope>, limit: nat)
    requires Fit(groups, limit) && g != [] && |Payload(g)| <= limit
    ensures Fit(groups + [g], limit)
    ensures groups != [] ==> Fit(groups[..|groups| - 1] + [g], limit)
  {
  }

  lemma {:induction false} GreedyFits(envelopes: seq<Envelope>, limit: nat)
    requires forall e :: e in envelopes ==> |e.line| <= limit
    ensures Fit(Greedy(envelopes, limit), limit)
  {
    hide Fit;
    if envelopes == [] {
      NothingFits(limit);
    } else {
      var n := |envelopes| - 1;
      var e := envelopes[n];
      var groups := Greedy(envelopes[..n], limit);
      GreedyFits(envelopes[..n], limit);
      if groups != [] && |Payload(Last(groups))| + |e.line| <= limit {
        PayloadSnoc(Last(groups), e);
        FitSnoc(groups, Last(groups) + [e], limit);
      } else {
        PayloadSnoc([], e);
        assert [] + [e] == [e];
        FitSnoc(groups, [e], limit);
      }
    }
  }

  /** A shard is closed only when the next record does not fit into it any more. */
  lemma {:induction false} GreedyIsMaximal(envelopes: seq<Envelope>, limit: nat, i: nat)
    requires i + 1 < |Greedy(envelopes, limit)|
    ensures var groups := Greedy(envelopes, limit);
            groups[i + 1] != [] && |Payload(groups[i])| + |groups[i + 1][0].line| > limit
  {
    hide Payload;
    var n := |envelopes| - 1;
    var groups := Greedy(envelopes[..n], limit);
    if i + 1 < |groups| {
      GreedyIsMaximal(envelopes[..n], limit, i);
    }
  }

  lemma NothingFits(limit: nat)
    ensures Fit([], limit)
  {
  }

  /** The shards hold exactly the input records in order, none empty, each within the limit. */
  lemma {:induction false} GreedyIsAdmissible(envelopes: seq<Envelope>, limit: nat)
    requires forall e :: e in envelopes ==> |e.line| <= limit
    ensures Admissible(Greedy(envelopes, limit), envelopes, limit)
    ensures forall g :: g in Greedy(envelopes, limit) ==> g != []
  {
    hide Payload, Greedy, Join;
    GreedyJoins(envelopes, limit);
    GreedyFits(envelopes, limit);
  }

  /** Greedy stays ahead: no admissible cut uses fewer shards, nor as many with less in the last one. */
  lemma {:induction false} GreedyStaysAhead(envelopes: seq<Envelope>, limit: nat, groups: seq<seq<Envelope>>)
    requires Admissible(groups, envelopes, limit) && envelopes != []
    ensures groups != [] && |Greedy(envelopes, limit)| <= |groups|
    ensures |Greedy(envelopes, limit)| == |groups| ==>
              |Payload(Last(Greedy(envelopes, limit)))| <= |Payload(Last(groups))|
    decreases |envelopes| + |groups|
  {
    assert groups == groups[..|groups| - 1] + [Last(groups)];
    if Last(groups) == [] {
      GreedyStaysAhead(envelopes, limit, groups[..|groups| - 1]);
    } else {
      var n := |envelopes| - 1;
      var e := envelopes[n];
      var tail := Last(groups);
      var shorter := tail[..|tail| - 1];
      var fewer := groups[..|groups| - 1] + [shorter];
      assert tail == shorter + [Last(tail)];
      JoinSnoc(groups[..|groups| - 1], shorter);
      assert envelopes == Join(fewer) + [Last(tail)];
      assert Last(tail) == e && Join(fewer) == envelopes[..n];
      PayloadSnoc(shorter, e);
      if n > 0 {
        AdmissibleShorter(groups, fewer, envelopes[..n], limit);
        GreedyStaysAhead(envelopes[..n], limit, fewer);
      }
      PayloadSnoc([], e);
      assert [] + [e] == [e];
      if n > 0 && |Payload(Last(Greedy(envelopes[..n], limit)))| + |e.line| <= limit {
        PayloadSnoc(Last(Greedy(envelopes[..n], limit)), e);
      }
    }
  }

  lemma AdmissibleShorter(groups: seq<seq<Envelope>>, fewer: seq<seq<Envelope>>, envelopes: seq<Envelope>, limit: nat)
    requires groups != [] && Last(groups) != [] && forall g :: g in groups ==> |Payload(g)| <= limit
    requires fewer == groups[..|groups| - 1] + [Last(groups)[..|Last(groups)| - 1]] && Join(fewer) == envelopes
    ensures Admissible(fewer, envelopes, limit)
  {
    assert |Payload(Last(groups)[..|Last(groups)| - 1])| <= |Payload(Last(groups))|;
  }

  /** No contiguous cut within the limit uses fewer shards. */
  lemma {:induction false} GreedyIsOptimal(envelopes: seq<Envelope>, limit: nat, groups: seq<seq<Envelope>>)
    requires Admissible(groups, envelopes, limit)
    ensures |Greedy(envelopes, limit)| <= |groups|
  {
    if envelopes != [] {
      GreedyStaysAhead(envelopes, limit, groups);
    }
  }

  /** So the shard bound is exceeded only when no admissible cut meets it. */
  lemma {:induction false} ShardBoundIsExact(envelopes: seq<Envelope>, limit: nat, maxShards: nat)
    requires forall e :: e in envelopes ==> |e.line| <= limit
    ensures |Greedy(envelopes, limit)| <= maxShards <==>
              exists groups :: Admissible(groups, envelopes, limit) && |groups| <= maxShards
  {
    hide Greedy, Admissible;
    GreedyIsAdmissible(envelopes, limit);
    forall groups | Admissible(groups, envelopes, limit)
      ensures |Greedy(envelopes, limit)| <= |groups|
    {
      GreedyIsOptimal(envelopes, limit, groups);
    }
  }

  lemma {:induction false} PayloadsJoin(groups: seq<seq<Envelope>>)
    ensures Payload(Join(groups)) == JoinedPayloads(groups)
  {
    if groups != [] {
      var front := groups[..|groups| - 1];
      PayloadsJoin(front);
      PayloadAppend(Join(front), Last(groups));
    }
  }

  function JoinedPayloads(groups: seq<seq<Envelope>>): Bytes {
    if groups == [] then [] else JoinedPayloads(groups[..|groups| - 1]) + Payload(Last(groups))
  }

  lemma {:induction false} PayloadAppend(a: seq<Envelope>, b: seq<Envelope>)
    ensures Payload(a + b) == Payload(a) + Payload(b)
    decreases |b|
  {
    if b == [] {
      assert a + b == a;
    } else {
      hide Payload;
      var front, e := b[..|b| - 1], Last(b);
      PayloadAppend(a, front);
      PayloadSnoc(front, e);
      PayloadSnoc(a + front, e);
      ConcatSplitsLast(a, b);
      ConcatAssociates(Payload(a), Payload(front), e.line);
    }
  }

  /** Read back in order, the shard payloads are the bytes of all record lines. */
  lemma {:induction false} ShardBytesAreRecordLines(envelopes: seq<Envelope>, limit: nat)
    requires forall e :: e in envelopes ==> |e.line| <= limit
    ensures JoinedPayloads(Greedy(envelopes, limit)) == Payload(envelopes)
  {
    GreedyIsAdmissible(envelopes, limit);
    PayloadsJoin(Greedy(envelopes, limit));
  }

  // ---------------------------------------------------------------- the shard writer

  predicate StartsWith(s: string, prefix: string) { prefix <= s }

  predicate InNamespace(e: Envelope, namespace: Option<string>) {
    namespace.Some? ==> StartsWith(e.key.recordId, namespace.value)
  }

  function Keys(envelopes: seq<Envelope>): seq<EnvelopeKey> {
    seq(|envelopes|, i requires 0 <= i < |envelopes| => envelopes[i].key)
  }

  /** `_EnvelopeKeyIndex`: a disposable table with a primary key. */
  class EnvelopeKeyIndex {
    var keys: set<EnvelopeKey>

    constructor ()
      ensures keys == {}
    {
      keys := {};
    }

    method Add(key: EnvelopeKey) returns (added: bool)
      modifies this
      ensures added <==> key !in old(keys)
      ensures keys == old(keys) + {key}
    {
      added := key !in keys;
      keys := keys + {key};
    }
  }

  function ShardOf(partition: Option<(nat, string)>, index: nat, group: seq<Envelope>): RecordShard
    requires group != []
  {
    RecordShard(index, RecordUri(partition, index, Payload(group)), group, group[0].key, Last(group).key)
  }

  function ShardsOf(partition: Option<(nat, string)>, groups: seq<seq<Envelope>>): seq<RecordShard>
    requires forall i :: 0 <= i < |groups| ==> groups[i] != []
  {
    seq(|groups|, i requires 0 <= i < |groups| => ShardOf(partition, i, groups[i]))
  }

  /** The uploaded objects, read back in order. */
  function ObjectBytes(shards: seq<RecordShard>): Bytes {
    if shards == [] then [] else ObjectBytes(shards[..|shards| - 1]) + Last(shards).uri.payload
  }

  function Records(shards: seq<RecordShard>): seq<Envelope> {
    if shards == [] then [] else Records(shards[..|shards| - 1]) + Last(shards).records
  }

  /** The objects hold the record lines in order, and each shard entry describes its own object: what it contains,
      where it lies, within which limit, and from which key to which. */
  ghost predicate Uploads(partition: Option<(nat, string)>, envelopes: seq<Envelope>, limit: int,
                          shards: seq<RecordShard>) {
    && ObjectBytes(shards) == Payload(envelopes)
    && Records(shards) == envelopes
    && forall i :: 0 <= i < |shards| ==>
                     var s := shards[i];
                     && s.index == i && s.uri.partition == partition && s.uri.shard == i
                     && s.records != [] && s.uri.payload == Payload(s.records) && |s.uri.payload| <= limit
                     && s.first == s.records[0].key && s.last == s.records[|s.records| - 1].key
  }

  lemma {:induction false} ShardsHoldGroups(partition: Option<(nat, string)>, groups: seq<seq<Envelope>>)
    requires forall i :: 0 <= i < |groups| ==> groups[i] != []
    ensures ObjectBytes(ShardsOf(partition, groups)) == JoinedPayloads(groups)
    ensures Records(ShardsOf(partition, groups)) == Join(groups)
    decreases |groups|
  {
    if groups != [] {
      var n := |groups| - 1;
      ShardsHoldGroups(partition, groups[..n]);
      assert ShardsOf(partition, groups)[..n] == ShardsOf(partition, groups[..n]);
    }
  }

  /** What the greedy cut uploads. */
  lemma {:induction false} GreedyUploads(partition: Option<(nat, string)>, envelopes: seq<Envelope>, limit: nat)
    requires forall e :: e in envelopes ==> |e.line| <= limit
    ensures forall i :: 0 <= i < |Greedy(envelopes, limit)| ==> Greedy(envelopes, limit)[i] != []
    ensures Uploads(partition, envelopes, limit, ShardsOf(partition, Greedy(envelopes, limit)))
  {
    hide Greedy, Payload, Join, ObjectBytes, Records, JoinedPayloads;
    GreedyIsAdmissible(envelopes, limit);
    ShardBytesAreRecordLines(envelopes, limit);
    var groups := Greedy(envelopes, limit);
    assert forall i :: 0 <= i < |groups| ==> groups[i] in groups;
    ShardsHoldGroups(partition, groups);
  }

  /** What `_publish_envelope_shards` demands of its records. */
  ghost predicate Shardable(bound: Envelope -> bool, envelopes: seq<Envelope>, limit: int, expected: int,
                            maxShards: Option<int>, namespace: Option<string>) {
    && limit >= 1 && expected >= 0 && (maxShards.Some? ==> maxShards.value >= 1)
    && (forall e :: e in envelopes ==>
          bound(e) && (namespace.Some? ==> namespace.value <= e.key.recordId) && |e.line| <= limit)
    && Distinct(Keys(envelopes))
    && |envelopes| == expected
    && (maxShards.Some? ==> |Greedy(envelopes, limit)| <= maxShards.value)
  }

  lemma {:induction false} GreedyGrows(envelopes: seq<Envelope>, limit: nat, n: nat)
    requires n <= |envelopes|
    ensures |Greedy(envelopes[..n], limit)| <= |Greedy(envelopes, limit)|
    decreases |envelopes| - n
  {
    if n == |envelopes| {
      assert envelopes[..n] == envelopes;
    } else {
      assert envelopes[..n + 1][..n] == envelopes[..n];
      GreedyGrows(envelopes, limit, n + 1);
    }
  }

  lemma RejectedEnvelope(bound: Envelope -> bool, envelopes: seq<Envelope>, limit: int, expected: int,
                         maxShards: Option<int>, namespace: Option<string>, n: nat)
    requires n < |envelopes|
    requires !bound(envelopes[n]) || !InNamespace(envelopes[n], namespace) || |envelopes[n].line| > limit
             || envelopes[n].key in Keys(envelopes[..n])
    ensures !Shardable(bound, envelopes, limit, expected, maxShards, namespace)
  {
    if envelopes[n].key in Keys(envelopes[..n]) {
      var j :| 0 <= j < n && Keys(envelopes[..n])[j] == envelopes[n].key;
      assert Keys(envelopes)[j] == Keys(envelopes)[n];
    }
  }

  /** The writer's state after some records: closed groups uploaded, the last group open. */
  ghost predicate Writing(partition: Option<(nat, string)>, groups: seq<seq<Envelope>>, open: seq<Envelope>,
                          shards: seq<RecordShard>) {
    if open == [] then groups == [] && shards == []
    else
      groups != [] && Last(groups) == open
      && (forall i :: 0 <= i < |groups| ==> groups[i] != [])
      && shards == ShardsOf(partition, groups[..|groups| - 1])
  }

  lemma GreedyStep(envelopes: seq<Envelope>, limit: nat, n: nat)
    requires n < |envelopes|
    ensures var groups, e := Greedy(envelopes[..n], limit), envelopes[n];
            Greedy(envelopes[..n + 1], limit)
            == if groups != [] && |Payload(Last(groups))| + |e.line| <= limit
               then groups[..|groups| - 1] + [Last(groups) + [e]]
               else groups + [[e]]
  {
    assert envelopes[..n + 1][..n] == envelopes[..n];
  }

  lemma WritingContinues(partition: Option<(nat, string)>, groups: seq<seq<Envelope>>, open: seq<Envelope>,
                         shards: seq<RecordShard>, e: Envelope)
    requires open != [] && Writing(partition, groups, open, shards)
    ensures Writing(partition, groups[..|groups| - 1] + [open + [e]], open + [e], shards)
    ensures |groups| == |shards| + 1
  {
    var next := groups[..|groups| - 1] + [open + [e]];
    assert next[..|next| - 1] == groups[..|groups| - 1];
  }

  lemma WritingRolls(partition: Option<(nat, string)>, groups: seq<seq<Envelope>>, open: seq<Envelope>,
                     shards: seq<RecordShard>, e: Envelope)
    requires open != [] && Writing(partition, groups, open, shards)
    ensures Writing(partition, groups + [[e]], [e], shards + [ShardOf(partition, |shards|, open)])
    ensures |groups| == |shards| + 1
  {
    WritingCloses(partition, groups, open, shards);
    var next := groups + [[e]];
    assert next[..|next| - 1] == groups;
  }

  lemma WritingStarts(partition: Option<(nat, string)>, e: Envelope)
    ensures Writing(partition, [] + [[e]], [] + [e], [])
  {
    hide ShardOf;
    var groups := [] + [[e]];
    assert groups[..|groups| - 1] == [];
    NoShards(partition);
  }

  lemma NoShards(partition: Option<(nat, string)>)
    ensures ShardsOf(partition, []) == []
  {
  }

  lemma WritingOpens(partition: Option<(nat, string)>, envelopes: seq<Envelope>, limit: nat, n: nat,
                     open: seq<Envelope>, shards: seq<RecordShard>)
    requires n < |envelopes| && Writing(partition, Greedy(envelopes[..n], limit), open, shards)
    ensures var next, e := Greedy(envelopes[..n + 1], limit), envelopes[n];
            if open != [] && |Payload(open)| + |e.line| > limit then
              && Writing(partition, next, [e], shards + [ShardOf(partition, |shards|, open)])
              && |next| == |shards| + 2
            else Writing(partition, next, open + [e], shards) && |next| == |shards| + 1
  {
    hide Greedy, Payload, ShardOf;
    var groups, e := Greedy(envelopes[..n], limit), envelopes[n];
    GreedyStep(envelopes, limit, n);
    WritingGroups(partition, groups, open, shards);
    hide Writing;
    if open == [] {
      WritingStarts(partition, e);
    } else if |Payload(open)| + |e.line| > limit {
      WritingRolls(partition, groups, open, shards, e);
    } else {
      WritingContinues(partition, groups, open, shards, e);
    }
  }

  lemma WritingGroups(partition: Option<(nat, string)>, groups: seq<seq<Envelope>>, open: seq<Envelope>,
                      shards: seq<RecordShard>)
    requires Writing(partition, groups, open, shards)
    ensures open == [] ==> groups == [] && shards == []
    ensures open != [] ==> groups != [] && Last(groups) == open
  {
  }

  /** The checks of one record, in the source's order; its key enters the index. */
  method CheckEnvelope(bound: Envelope -> bool, e: Envelope, limit: nat, namespace: Option<string>,
                       keys: EnvelopeKeyIndex)
    returns (error: Option<PublishError>)
    modifies keys
    ensures error.None? <==> bound(e) && InNamespace(e, namespace) && e.key !in old(keys.keys) && |e.line| <= limit
    ensures error.None? ==> keys.keys == old(keys.keys) + {e.key}
  {
    if !bound(e) {
      return Some(UnboundEnvelope);
    }
    if !InNamespace(e, namespace) {
      return Some(OutsideNamespace);
    }
    var added := keys.Add(e.key);
    if !added {
      return Some(DuplicateKey);
    }
    if |e.line| > limit {
      return Some(RecordTooLarge);
    }
    return None;
  }

  /** `_publish_envelope_shards`: one pass with an open shard buffer.  It succeeds exactly when every record is
      admissible, the keys are new, the count is as declared and the greedy cut meets the shard bound.  `shards` are
      the uploaded ones, also when it fails. */
  method PublishEnvelopeShards(partition: Option<(nat, string)>, bound: Envelope -> bool, envelopes: seq<Envelope>,
                               limit: int, expected: int, maxShards: Option<int>, namespace: Option<string>)
    returns (r: Result<seq<RecordShard>, PublishError>, shards: seq<RecordShard>)
    requires forall e :: e in envelopes ==> |e.line| > 0
    ensures r.Ok? ==> r.value == shards
    ensures r.Ok? <==> Shardable(bound, envelopes, limit, expected, maxShards, namespace)
    ensures r.Ok? ==> (forall i :: 0 <= i < |Greedy(envelopes, limit)| ==> Greedy(envelopes, limit)[i] != [])
                      && r.value == ShardsOf(partition, Greedy(envelopes, limit))
    ensures r.Ok? ==> Uploads(partition, envelopes, limit, r.value)
  {
    hide Uploads, Writing, Greedy, Payload, ShardOf, ShardsOf;
    shards := [];
    if limit < 1 || expected < 0 || (maxShards.Some? && maxShards.value < 1) {
      return Err(BadArgument), shards;
    }
    var open: seq<Envelope> := [];
    var shard: Bytes := [];
    var keys := new EnvelopeKeyIndex();
    var n := 0;
    NothingWritten(partition, envelopes, limit);
    while n < |envelopes|
      invariant 0 <= n <= |envelopes| && fresh(keys)
      invariant forall i :: 0 <= i < n ==>
                bound(envelopes[i]) && InNamespace(envelopes[i], namespace) && |envelopes[i].line| <= limit
      invariant Distinct(Keys(envelopes[..n])) && forall k :: k in keys.keys <==> k in Keys(envelopes[..n])
      invariant shard == Payload(open) && (open == [] <==> n == 0) && (open != [] ==> |shard| > 0)
      invariant Writing(partition, Greedy(envelopes[..n], limit), open, shards)
      invariant |Greedy(envelopes[..n], limit)| == |shards| + (if n == 0 then 0 else 1)
      invariant maxShards.Some? ==> |shards| <= maxShards.value
    {
      var e := envelopes[n];
      assert Keys(envelopes[..n + 1]) == Keys(envelopes[..n]) + [e.key];
      var rejected := CheckEnvelope(bound, e, limit, namespace, keys);
      if rejected.Some? {
        RejectedEnvelope(bound, envelopes, limit, expected, maxShards, namespace, n);
        return Err(rejected.value), shards;
      }
      WritingOpens(partition, envelopes, limit, n, open, shards);
      GreedyGrows(envelopes, limit, n + 1);
      if shard != [] && |shard| + |e.line| > limit {
        if maxShards.Some? && |shards| >= maxShards.value {
          return Err(TooManyShards), shards;
        }
        shards := shards + [ShardOf(partition, |shards|, open)];
        open := [];
        shard := [];
      }
      PayloadSnoc(open, e);
      assert [] + [e] == [e];
      open := open + [e];
      shard := shard + e.line;
      n := n + 1;
    }
    assert envelopes[..n] == envelopes;
    if open != [] {
      if maxShards.Some? && |shards| >= maxShards.value {
        return Err(TooManyShards), shards;
      }
      WritingCloses(partition, Greedy(envelopes, limit), open, shards);
      shards := shards + [ShardOf(partition, |shards|, open)];
    } else {
      NothingWritten(partition, envelopes, limit);
    }
    if |envelopes| != expected {
      return Err(WrongCount), shards;
    }
    GreedyUploads(partition, envelopes, limit);
    return Ok(shards), shards;
  }

  lemma NothingWritten(partition: Option<(nat, string)>, envelopes: seq<Envelope>, limit: nat)
    ensures envelopes[..0] == [] && Greedy(envelopes[..0], limit) == []
            && Writing(partition, Greedy(envelopes[..0], limit), [], [])
    ensures Keys(envelopes[..0]) == [] && Payload([]) == []
    ensures envelopes == [] ==> Greedy(envelopes, limit) == [] && ShardsOf(partition, []) == []
  {
  }

  lemma WritingCloses(partition: Option<(nat, string)>, groups: seq<seq<Envelope>>, open: seq<Envelope>,
                      shards: seq<RecordShard>)
    requires open != [] && Writing(partition, groups, open, shards)
    ensures forall i :: 0 <= i < |groups| ==> groups[i] != []
    ensures ShardsOf(partition, groups) == shards + [ShardOf(partition, |shards|, open)]
  {
    assert groups == groups[..|groups| - 1] + [open];
  }
}
