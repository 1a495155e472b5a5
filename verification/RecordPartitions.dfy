/** Connector partitions: published one by one, resumed from their checkpoints, and finalised as one flat record set. */
module RecordPartitions {
  import opened Prelude
  import opened Ordering
  import opened RecordShards

  /** What a batch declares and every partition must repeat. */
  datatype Batch = Batch(id: nat, policy: nat, acquiredAt: nat, recordCount: int)

  datatype Partition = Partition(
    name: string, namespace: string, index: int, batch: nat, policy: nat, createdAt: nat,
    shards: seq<RecordShard>, recordCount: int, first: EnvelopeKey, last: EnvelopeKey)

  /** Shard objects by their content-addressed URI, and checkpoints by the URI their index and name give them. */
  datatype PartitionStore = PartitionStore(objects: set<RecordUri>, checkpoints: map<(int, string), Partition>)

  function UriSet(shards: seq<RecordShard>): set<RecordUri> { set shard | shard in shards :: shard.uri }

  /** The partition's checkpoint and every shard it names are stored. */
  predicate Stored(store: PartitionStore, p: Partition) {
    && (p.index, p.name) in store.checkpoints && store.checkpoints[(p.index, p.name)] == p
    && UriSet(p.shards) <= store.objects
  }

  /** Nothing stored is replaced or dropped. */
  ghost predicate Keeps(store: PartitionStore, later: PartitionStore) {
    && store.objects <= later.objects
    && forall uri :: uri in store.checkpoints ==>
        uri in later.checkpoints && later.checkpoints[uri] == store.checkpoints[uri]
  }

  /** The manifest and checkpoint of one partition's shards. */
  function PartitionOf(batch: Batch, name: string, namespace: string, index: int, shards: seq<RecordShard>,
                       recordCount: int): Partition
    requires shards != []
  {
    Partition(name, namespace, index, batch.id, batch.policy, batch.acquiredAt, shards, recordCount, shards[0].first,
              Last(shards).last)
  }

  /** The first and last record of a list of shards are those of its first and last shard. */
  lemma {:induction false} RecordEnds(shards: seq<RecordShard>)
    requires shards != [] && forall i :: 0 <= i < |shards| ==> shards[i].records != []
    ensures Records(shards) != [] && Records(shards)[0] == shards[0].records[0]
    ensures Last(Records(shards)) == Last(Last(shards).records)
  {
    if |shards| > 1 {
      RecordEnds(shards[..|shards| - 1]);
    } else {
      assert shards[..0] == [];
    }
  }

  lemma UploadEnds(partition: Option<(nat, string)>, envelopes: seq<Envelope>, limit: int, shards: seq<RecordShard>)
    requires Uploads(partition, envelopes, limit, shards) && shards != []
    ensures envelopes != [] && shards[0].first == envelopes[0].key
            && Last(shards).last == envelopes[|envelopes| - 1].key
  {
    RecordEnds(shards);
  }

  /** What a published partition is, in terms of the records it was given. */
  ghost predicate Publishes(batch: Batch, bound: Envelope -> bool, envelopes: seq<Envelope>, limit: int, p: Partition) {
    && p.recordCount >= 1 && p.index >= 0 && 0 < |p.namespace| <= 256
    && Shardable(bound, envelopes, limit, p.recordCount, Some(MAX_RECORD_SHARDS_PER_PARTITION), Some(p.namespace))
    && (forall i :: 0 <= i < |Greedy(envelopes, limit)| ==> Greedy(envelopes, limit)[i] != [])
    && Greedy(envelopes, limit) != []
    && p == PartitionOf(batch, p.name, p.namespace, p.index,
                        ShardsOf(Some((p.index, p.name)), Greedy(envelopes, limit)), p.recordCount)
  }

  /** What the slot of a checkpoint allows: nothing there yet, or the replay of the same records. */
  ghost predicate SlotAdmits(batch: Batch, bound: Envelope -> bool, name: string, namespace: string, index: int,
                             envelopes: seq<Envelope>, expected: int, limit: int, store: PartitionStore) {
    (index, name) in store.checkpoints ==>
      var p := store.checkpoints[(index, name)];
      && Publishes(batch, bound, envelopes, limit, p)
      && p.namespace == namespace && p.recordCount == expected && p.index == index && p.name == name
  }

  /** `publish_connector_partition`: shards first, the checkpoint last; an identical replay is reused and a
      divergent one refused. */
  method PublishPartition(batch: Batch, bound: Envelope -> bool, name: string, namespace: string, index: int,
                          envelopes: seq<Envelope>, expected: int, limit: int, store: PartitionStore)
    returns (r: Result<Partition, PublishError>, after: PartitionStore)
    requires forall e :: e in envelopes ==> |e.line| > 0
    ensures Keeps(store, after)
    ensures r.Ok? ==> Publishes(batch, bound, envelopes, limit, r.value)
    ensures r.Ok? ==>
              r.value.name == name && r.value.namespace == namespace && r.value.index == index
              && r.value.recordCount == expected
    ensures r.Ok? ==> Uploads(Some((index, name)), envelopes, limit, r.value.shards) && r.value.shards != []
    ensures r.Ok? ==>
              && r.value.batch == batch.id && r.value.policy == batch.policy && r.value.createdAt == batch.acquiredAt
              && r.value.first == envelopes[0].key && r.value.last == envelopes[|envelopes| - 1].key
    ensures r.Ok? ==> Stored(after, r.value) && after.checkpoints == store.checkpoints[(index, name) := r.value]
    ensures r.Ok? ==> after.objects == store.objects + UriSet(r.value.shards)
    ensures r.Err? ==> after.checkpoints == store.checkpoints
    ensures r.Ok? <==>
              && expected >= 1 && index >= 0 && 0 < |namespace| <= 256
              && Shardable(bound, envelopes, limit, expected, Some(MAX_RECORD_SHARDS_PER_PARTITION), Some(namespace))
              && SlotAdmits(batch, bound, name, namespace, index, envelopes, expected, limit, store)
  {
    hide Shardable, Greedy, Uploads;
    after := store;
    if expected < 1 || !(0 < |namespace| <= 256) || index < 0 {
      return Err(BadArgument), after;
    }
    var published, shards := PublishEnvelopeShards(Some((index, name)), bound, envelopes, limit, expected,
                                                   Some(MAX_RECORD_SHARDS_PER_PARTITION), Some(namespace));
    after := store.(objects := store.objects + UriSet(shards));
    if published.Err? {
      return Err(published.error), after;
    }
    ShardableNonEmpty(bound, envelopes, limit, expected, namespace);
    UploadEnds(Some((index, name)), envelopes, limit, shards);
    var p := PartitionOf(batch, name, namespace, index, shards, expected);
    if (index, name) in store.checkpoints && store.checkpoints[(index, name)] != p {
      return Err(DivergentReplay), after;
    }
    after := after.(checkpoints := after.checkpoints[(index, name) := p]);
    return Ok(p), after;
  }

  lemma ShardableNonEmpty(bound: Envelope -> bool, envelopes: seq<Envelope>, limit: int, expected: int,
                          namespace: string)
    requires expected >= 1
             && Shardable(bound, envelopes, limit, expected, Some(MAX_RECORD_SHARDS_PER_PARTITION), Some(namespace))
    ensures Greedy(envelopes, limit) != []
  {
  }

  /** `load_connector_partition`: the checkpoint, if there is one, bound to this batch and slot, with every shard
      verified. */
  function LoadPartition(store: PartitionStore, batch: Batch, name: string, namespace: string,
                         index: int): Result<Option<Partition>, PublishError> {
    if (index, name) !in store.checkpoints then Ok(None)
    else
      var p := store.checkpoints[(index, name)];
      if p.name != name || p.namespace != namespace || p.batch != batch.id || p.policy != batch.policy
        || p.index != index || p.createdAt != batch.acquiredAt
      then Err(WrongBinding)
      else if exists shard :: shard in p.shards && shard.uri !in store.objects then Err(MissingObject)
      else Ok(Some(p))
  }

  /** A partition published once is found again by every later load, whatever is stored in between; and what a load
      finds is stored whole. */
  lemma ResumeFindsPublished(store: PartitionStore, later: PartitionStore, batch: Batch, bound: Envelope -> bool,
                             envelopes: seq<Envelope>, limit: int, p: Partition)
    requires Publishes(batch, bound, envelopes, limit, p) && Stored(store, p) && Keeps(store, later)
    ensures LoadPartition(later, batch, p.name, p.namespace, p.index) == Ok(Some(p)) && Stored(later, p)
    ensures forall other :: other != p.namespace ==>
              LoadPartition(later, batch, p.name, other, p.index) == Err(WrongBinding)
    ensures forall other: Batch :: other.id != batch.id || other.policy != batch.policy
                                   || other.acquiredAt != batch.acquiredAt ==>
              LoadPartition(later, other, p.name, p.namespace, p.index) == Err(WrongBinding)
    ensures forall missing :: missing in UriSet(p.shards) ==>
              LoadPartition(later.(objects := later.objects - {missing}), batch, p.name, p.namespace, p.index)
                  == Err(MissingObject)
  {
    hide Shardable, Greedy;
    forall missing | missing in UriSet(p.shards)
      ensures exists shard :: shard in p.shards && shard.uri !in later.objects - {missing}
    {
      var shard :| shard in p.shards && shard.uri == missing;
      assert shard.uri !in later.objects - {missing};
    }
    forall shard | shard in p.shards
      ensures shard.uri in later.objects
    {
      assert shard.uri in UriSet(p.shards);
    }
  }

  // ---------------------------------------------------------------- finalisation

  predicate PrefixFree(a: string, b: string) { !StartsWith(a, b) && !StartsWith(b, a) }

  /** A record ID that lies in both namespaces. */
  ghost predicate InBoth(id: string, a: string, b: string) { a <= id && b <= id }

  /** Two namespaces are prefix-free exactly when no record ID can lie in both. */
  lemma PrefixFreeIffNoCommonId(a: string, b: string)
    ensures PrefixFree(a, b) <==> forall id :: !InBoth(id, a, b)
  {
    if PrefixFree(a, b) {
      forall id | InBoth(id, a, b)
        ensures false
      {
        PrefixesOfOne(id, a, b);
      }
    } else {
      assert InBoth(if a <= b then b else a, a, b);
    }
  }

  predicate IndexLe(a: Partition, b: Partition) { a.index <= b.index }

  function Objects(ordered: seq<Partition>): seq<RecordShard> {
    if ordered == [] then [] else Objects(ordered[..|ordered| - 1]) + ordered[|ordered| - 1].shards
  }

  function Uris(shards: seq<RecordShard>): seq<RecordUri> {
    seq(|shards|, i requires 0 <= i < |shards| => shards[i].uri)
  }

  function CountOf(ordered: seq<Partition>): int {
    if ordered == [] then 0 else CountOf(ordered[..|ordered| - 1]) + ordered[|ordered| - 1].recordCount
  }

  predicate BoundTo(p: Partition, batch: Batch) {
    p.batch == batch.id && p.policy == batch.policy && p.createdAt == batch.acquiredAt
  }

  /** Contiguous indexes, unique labels and namespaces none of which is a prefix of another. */
  ghost predicate DisjointPartitions(ordered: seq<Partition>) {
    && (forall i :: 0 <= i < |ordered| ==> ordered[i].index == i)
    && (forall i, j :: 0 <= i < j < |ordered| ==> ordered[i].name != ordered[j].name)
    && (forall i, j :: 0 <= i < j < |ordered| ==> PrefixFree(ordered[i].namespace, ordered[j].namespace))
  }

  ghost predicate Finalizable(batch: Batch, ordered: seq<Partition>, maxObjects: int) {
    && maxObjects >= 1 && ordered != []
    && DisjointPartitions(ordered)
    && (forall i :: 0 <= i < |ordered| ==> BoundTo(ordered[i], batch))
    && |Objects(ordered)| <= maxObjects
    && Distinct(Uris(Objects(ordered)))
    && CountOf(ordered) == batch.recordCount
  }

  datatype RecordSet = RecordSet(batch: Batch, objects: seq<RecordShard>, count: int, first: EnvelopeKey,
                                 last: EnvelopeKey)

  /** The checks on indexes, labels and namespaces. */
  method CheckPartitions(ordered: seq<Partition>) returns (error: Option<PublishError>)
    ensures error.None? <==> DisjointPartitions(ordered)
  {
    var i := 0;
    while i < |ordered|
      invariant 0 <= i <= |ordered|
      invariant forall k :: 0 <= k < i ==> ordered[k].index == k
    {
      if ordered[i].index != i {
        return Some(IndexGap);
      }
      i := i + 1;
    }
    i := 0;
    while i < |ordered|
      invariant 0 <= i <= |ordered|
      invariant forall k, j :: 0 <= k < i && k < j < |ordered| ==>
                                 ordered[k].name != ordered[j].name
                                     && PrefixFree(ordered[k].namespace, ordered[j].namespace)
    {
      var j := i + 1;
      while j < |ordered|
        invariant i < j <= |ordered|
        invariant forall k :: i < k < j ==>
                  ordered[i].name != ordered[k].name && PrefixFree(ordered[i].namespace, ordered[k].namespace)
      {
        if ordered[i].name == ordered[j].name {
          return Some(DuplicateLabel);
        }
        if !PrefixFree(ordered[i].namespace, ordered[j].namespace) {
          return Some(OverlappingNamespaces);
        }
        j := j + 1;
      }
      i := i + 1;
    }
    return None;
  }

  /** `finalize_connector_partitions`: the shards of all partitions, in index order, as one flat record set. */
  method FinalizePartitions(batch: Batch, partitions: seq<Partition>, maxObjects: int)
    returns (r: Result<RecordSet, PublishError>)
    requires forall p :: p in partitions ==> p.shards != []
    ensures r.Ok? <==> Finalizable(batch, Sort(partitions, IndexLe), maxObjects)
    ensures r.Ok? ==> var ordered := Sort(partitions, IndexLe);
                      r.value == RecordSet(batch, Objects(ordered), CountOf(ordered), ordered[0].first,
                                           Last(ordered).last)
  {
    hide DisjointPartitions;
    if maxObjects < 1 {
      return Err(BadArgument);
    }
    var ordered := Sort(partitions, IndexLe);
    if ordered == [] {
      return Err(NoPartitions);
    }
    var disjoint := CheckPartitions(ordered);
    if disjoint.Some? {
      return Err(disjoint.value);
    }
    var objects: seq<RecordShard> := [];
    var count := 0;
    var i := 0;
    while i < |ordered|
      invariant 0 <= i <= |ordered|
      invariant forall k :: 0 <= k < i ==> BoundTo(ordered[k], batch)
      invariant objects == Objects(ordered[..i]) && count == CountOf(ordered[..i])
    {
      if !BoundTo(ordered[i], batch) {
        return Err(WrongBinding);
      }
      assert ordered[..i + 1][..i] == ordered[..i];
      objects := objects + ordered[i].shards;
      count := count + ordered[i].recordCount;
      i := i + 1;
    }
    assert ordered[..i] == ordered;
    if |objects| > maxObjects {
      return Err(TooManyObjects);
    }
    DistinctCount(Uris(objects));
    if |set u | u in Uris(objects)| != |Uris(objects)| {
      return Err(DuplicateUri);
    }
    if count != batch.recordCount {
      return Err(WrongCount);
    }
    return Ok(RecordSet(batch, objects, count, ordered[0].first, Last(ordered).last));
  }

  /** The order in which the caller lists the partitions does not matter. */
  lemma FinalizeIgnoresOrder(partitions: seq<Partition>, ordered: seq<Partition>)
    requires multiset(partitions) == multiset(ordered) && forall i :: 0 <= i < |ordered| ==> ordered[i].index == i
    ensures Sort(partitions, IndexLe) == ordered
  {
    SortSorts(partitions, IndexLe);
    var sorted := Sort(partitions, IndexLe);
    forall x, y | x in ordered && y in ordered && IndexLe(x, y) && IndexLe(y, x)
      ensures x == y
    {
      var i :| 0 <= i < |ordered| && ordered[i] == x;
      var j :| 0 <= j < |ordered| && ordered[j] == y;
    }
    SortedUnique(ordered, sorted, IndexLe);
  }

  /** What finalisation accepts, for partitions in index order: labels that differ, namespaces without a common record
      ID, the batch's own binding, and shard objects and records within what the caller and the batch declare. */
  ghost predicate FlatSet(batch: Batch, ordered: seq<Partition>, maxObjects: int) {
    && (forall i :: 0 <= i < |ordered| ==>
          && ordered[i].index == i
          && ordered[i].batch == batch.id && ordered[i].policy == batch.policy
          && ordered[i].createdAt == batch.acquiredAt)
    && (forall i, j :: 0 <= i < j < |ordered| ==>
          && ordered[i].name != ordered[j].name
          && forall id :: !InBoth(id, ordered[i].namespace, ordered[j].namespace))
    && |Objects(ordered)| <= maxObjects
    && (forall k, l :: 0 <= k < l < |Objects(ordered)| ==> Objects(ordered)[k].uri != Objects(ordered)[l].uri)
    && CountOf(ordered) == batch.recordCount
  }

  lemma FinalizableIsFlat(batch: Batch, ordered: seq<Partition>, maxObjects: int)
    ensures Finalizable(batch, ordered, maxObjects)
            <==> maxObjects >= 1 && ordered != [] && FlatSet(batch, ordered, maxObjects)
  {
    hide Objects, CountOf, PrefixFree, InBoth;
    forall i, j | 0 <= i < |ordered| && 0 <= j < |ordered|
      ensures PrefixFree(ordered[i].namespace, ordered[j].namespace)
              <==> forall id :: !InBoth(id, ordered[i].namespace, ordered[j].namespace)
    {
      PrefixFreeIffNoCommonId(ordered[i].namespace, ordered[j].namespace);
    }
    DistinctUris(Objects(ordered));
  }

  lemma DistinctUris(shards: seq<RecordShard>)
    ensures Distinct(Uris(shards)) <==> forall k, l :: 0 <= k < l < |shards| ==> shards[k].uri != shards[l].uri
  {
    var uris := Uris(shards);
    assert forall k :: 0 <= k < |shards| ==> uris[k] == shards[k].uri;
    if Distinct(uris) {
      forall k, l | 0 <= k < l < |shards|
        ensures shards[k].uri != shards[l].uri
      {
        assert uris[k] != uris[l];
      }
    }
  }

  /** Finalisation accepts a list of partitions exactly when some order of it is an acceptable flat set. */
  lemma {:induction false} FinalizesIff(batch: Batch, partitions: seq<Partition>, maxObjects: int)
    ensures Finalizable(batch, Sort(partitions, IndexLe), maxObjects)
            <==> maxObjects >= 1 && partitions != []
                 && exists ordered :: multiset(ordered) == multiset(partitions) && FlatSet(batch, ordered, maxObjects)
  {
    hide FlatSet, Finalizable, Sort;
    var sorted := Sort(partitions, IndexLe);
    SortSorts(partitions, IndexLe);
    FinalizableIsFlat(batch, sorted, maxObjects);
    forall ordered | multiset(ordered) == multiset(partitions) && FlatSet(batch, ordered, maxObjects)
      ensures sorted == ordered
    {
      FlatIsIndexed(batch, ordered, maxObjects);
      FinalizeIgnoresOrder(partitions, ordered);
    }
    assert multiset(sorted) == multiset(partitions);
  }

  lemma FlatIsIndexed(batch: Batch, ordered: seq<Partition>, maxObjects: int)
    requires FlatSet(batch, ordered, maxObjects)
    ensures forall i :: 0 <= i < |ordered| ==> ordered[i].index == i
  {
  }

  // ---------------------------------------------------------------- local checks imply global uniqueness

  /** The partitions came from the publisher: partition `i` from `inputs[i]`, under a shard limit of its own. */
  ghost predicate AllPublished(batch: Batch, bound: Envelope -> bool, limits: seq<int>, ordered: seq<Partition>,
                               inputs: seq<seq<Envelope>>) {
    |inputs| == |ordered| == |limits| && forall i :: 0 <= i < |ordered| ==>
        Publishes(batch, bound, inputs[i], limits[i], ordered[i])
  }

  lemma {:induction false} RecordsAppend(a: seq<RecordShard>, b: seq<RecordShard>)
    ensures Records(a + b) == Records(a) + Records(b)
  {
    if b == [] {
      assert a + b == a;
    } else {
      RecordsAppend(a, b[..|b| - 1]);
      var all := a + b;
      assert all[..|all| - 1] == a + b[..|b| - 1] && all[|all| - 1] == b[|b| - 1];
    }
  }

  function JoinInputs(inputs: seq<seq<Envelope>>): seq<Envelope> {
    if inputs == [] then [] else JoinInputs(inputs[..|inputs| - 1]) + inputs[|inputs| - 1]
  }

  lemma PublishedRecords(batch: Batch, bound: Envelope -> bool, limit: int, p: Partition, input: seq<Envelope>)
    requires Publishes(batch, bound, input, limit, p)
    ensures Records(p.shards) == input
    ensures Distinct(Keys(input)) && forall e :: e in input ==> StartsWith(e.key.recordId, p.namespace)
  {
    GreedyUploads(Some((p.index, p.name)), input, limit);
  }

  /** The flat record set holds every partition's records, in partition order. */
  lemma {:induction false} FlatSetKeepsRecords(batch: Batch, bound: Envelope -> bool, limits: seq<int>,
                                               ordered: seq<Partition>, inputs: seq<seq<Envelope>>)
    requires AllPublished(batch, bound, limits, ordered, inputs)
    ensures Records(Objects(ordered)) == JoinInputs(inputs)
    decreases |ordered|
  {
    hide Publishes;
    if ordered != [] {
      var n := |ordered| - 1;
      FlatSetKeepsRecords(batch, bound, limits[..n], ordered[..n], inputs[..n]);
      PublishedRecords(batch, bound, limits[n], ordered[n], inputs[n]);
      RecordsAppend(Objects(ordered[..n]), ordered[n].shards);
    }
  }

  lemma PrefixesOfOne(s: string, a: string, b: string)
    requires StartsWith(s, a) && StartsWith(s, b)
    ensures !PrefixFree(a, b)
  {
    if |a| <= |b| {
      assert a == s[..|a|] && b == s[..|b|] && a == b[..|a|];
    } else {
      assert b == s[..|b|] && a == s[..|a|] && b == a[..|b|];
    }
  }

  /** Prefix-free namespaces put a source record ID into one partition only. */
  lemma RecordIdInOnePartition(batch: Batch, bound: Envelope -> bool, limits: seq<int>, ordered: seq<Partition>,
                               inputs: seq<seq<Envelope>>,
                               i: nat, j: nat, x: Envelope, y: Envelope)
    requires AllPublished(batch, bound, limits, ordered, inputs) && DisjointPartitions(ordered)
    requires i < |ordered| && j < |ordered| && x in inputs[i] && y in inputs[j] && x.key.recordId == y.key.recordId
    ensures i == j
  {
    hide Publishes;
    PublishedRecords(batch, bound, limits[i], ordered[i], inputs[i]);
    PublishedRecords(batch, bound, limits[j], ordered[j], inputs[j]);
    PrefixesOfOne(x.key.recordId, ordered[i].namespace, ordered[j].namespace);
  }

  lemma {:induction false} JoinInputsFrom(inputs: seq<seq<Envelope>>, k: nat) returns (i: nat, a: nat)
    requires k < |JoinInputs(inputs)|
    ensures i < |inputs| && a < |inputs[i]| && JoinInputs(inputs)[k] == inputs[i][a]
    decreases |inputs|
  {
    var n := |inputs| - 1;
    if k < |JoinInputs(inputs[..n])| {
      i, a := JoinInputsFrom(inputs[..n], k);
    } else {
      i, a := n, k - |JoinInputs(inputs[..n])|;
    }
  }

  lemma {:induction false} JoinedKeysDistinct(inputs: seq<seq<Envelope>>)
    requires forall i :: 0 <= i < |inputs| ==> Distinct(Keys(inputs[i]))
    requires forall i, j, x, y :: 0 <= i < j < |inputs| && x in inputs[i] && y in inputs[j] ==> x.key != y.key
    ensures Distinct(Keys(JoinInputs(inputs)))
    decreases |inputs|
  {
    if inputs != [] {
      var n := |inputs| - 1;
      var front, last := JoinInputs(inputs[..n]), inputs[n];
      JoinedKeysDistinct(inputs[..n]);
      var keys := Keys(JoinInputs(inputs));
      forall a, b | 0 <= a < b < |keys|
        ensures keys[a] != keys[b]
      {
        if b < |front| {
          assert keys[a] == Keys(front)[a] && keys[b] == Keys(front)[b];
        } else if a >= |front| {
          assert keys[a] == Keys(last)[a - |front|] && keys[b] == Keys(last)[b - |front|];
        } else {
          var i, k := JoinInputsFrom(inputs[..n], a);
          assert inputs[i][k] in inputs[i] && last[b - |front|] in inputs[n];
        }
      }
    }
  }

  /** Per-partition key indexes, the namespace check on each record and pairwise prefix-free namespaces together
      make every envelope key of the flat record set distinct, and put every record ID into one partition. */
  lemma LocalChecksGiveGlobalUniqueness(batch: Batch, bound: Envelope -> bool, limits: seq<int>,
                                        ordered: seq<Partition>, inputs: seq<seq<Envelope>>)
    requires AllPublished(batch, bound, limits, ordered, inputs) && DisjointPartitions(ordered)
    ensures Records(Objects(ordered)) == JoinInputs(inputs)
    ensures Distinct(Keys(Records(Objects(ordered))))
    ensures forall i, j, x, y | 0 <= i < |ordered| && 0 <= j < |ordered| && x in inputs[i] && y in inputs[j] ::
              x.key.recordId == y.key.recordId ==> i == j
  {
    hide Publishes, DisjointPartitions;
    FlatSetKeepsRecords(batch, bound, limits, ordered, inputs);
    forall i, j, x, y | 0 <= i < |ordered| && 0 <= j < |ordered| && x in inputs[i] && y in inputs[j]
        && x.key.recordId == y.key.recordId
      ensures i == j
    {
      RecordIdInOnePartition(batch, bound, limits, ordered, inputs, i, j, x, y);
    }
    forall i | 0 <= i < |inputs|
      ensures Distinct(Keys(inputs[i]))
    {
      PublishedRecords(batch, bound, limits[i], ordered[i], inputs[i]);
    }
    JoinedKeysDistinct(inputs);
  }

  // ---------------------------------------------------------------- when finalisation succeeds

  lemma {:induction false} ObjectsCome(ordered: seq<Partition>, k: nat) returns (i: nat, a: nat)
    requires k < |Objects(ordered)|
    ensures i < |ordered| && a < |ordered[i].shards| && Objects(ordered)[k] == ordered[i].shards[a]
    ensures k == Offset(ordered, i) + a
    decreases |ordered|
  {
    var n := |ordered| - 1;
    if k < |Objects(ordered[..n])| {
      i, a := ObjectsCome(ordered[..n], k);
      OffsetOfPrefix(ordered, n, i);
    } else {
      i, a := n, k - |Objects(ordered[..n])|;
    }
  }

  lemma PublishedUri(batch: Batch, bound: Envelope -> bool, limit: int, p: Partition, input: seq<Envelope>, a: nat)
    requires Publishes(batch, bound, input, limit, p) && a < |p.shards|
    ensures p.index >= 0 && p.shards[a].uri.partition == Some((p.index, p.name)) && p.shards[a].uri.shard == a
  {
  }

  function Offset(ordered: seq<Partition>, i: nat): nat
    requires i <= |ordered|
  {
    |Objects(ordered[..i])|
  }

  lemma OffsetOfPrefix(ordered: seq<Partition>, n: nat, i: nat)
    requires i <= n <= |ordered|
    ensures Offset(ordered[..n], i) == Offset(ordered, i)
  {
    assert ordered[..n][..i] == ordered[..i];
  }

  /** Shard URIs carry the partition and the shard index, so published partitions never clash. */
  lemma PublishedUrisDistinct(batch: Batch, bound: Envelope -> bool, limits: seq<int>, ordered: seq<Partition>,
                              inputs: seq<seq<Envelope>>)
    requires AllPublished(batch, bound, limits, ordered, inputs) && DisjointPartitions(ordered)
    ensures Distinct(Uris(Objects(ordered)))
  {
    hide Publishes, Objects;
    var objects := Objects(ordered);
    forall k, l | 0 <= k < l < |objects|
      ensures objects[k].uri != objects[l].uri
    {
      var i, a := ObjectsCome(ordered, k);
      var j, b := ObjectsCome(ordered, l);
      PublishedUri(batch, bound, limits[i], ordered[i], inputs[i], a);
      PublishedUri(batch, bound, limits[j], ordered[j], inputs[j], b);
    }
  }

  /** So for published partitions only the disjointness, the object limit and the declared count decide. */
  lemma PublishedPartitionsFinalize(batch: Batch, bound: Envelope -> bool, limits: seq<int>, ordered: seq<Partition>,
                                    inputs: seq<seq<Envelope>>, maxObjects: int)
    requires AllPublished(batch, bound, limits, ordered, inputs) && ordered != [] && maxObjects >= 1
    ensures Finalizable(batch, ordered, maxObjects) <==>
              DisjointPartitions(ordered) && |Objects(ordered)| <= maxObjects
                  && |JoinInputs(inputs)| == batch.recordCount
  {
    CountsAreRecords(batch, bound, limits, ordered, inputs);
    forall i | 0 <= i < |ordered|
      ensures BoundTo(ordered[i], batch)
    {
      assert Publishes(batch, bound, inputs[i], limits[i], ordered[i]);
    }
    if DisjointPartitions(ordered) {
      PublishedUrisDistinct(batch, bound, limits, ordered, inputs);
    }
  }

  lemma {:induction false} CountsAreRecords(batch: Batch, bound: Envelope -> bool, limits: seq<int>,
                                            ordered: seq<Partition>, inputs: seq<seq<Envelope>>)
    requires AllPublished(batch, bound, limits, ordered, inputs)
    ensures CountOf(ordered) == |JoinInputs(inputs)|
    decreases |ordered|
  {
    if ordered != [] {
      var n := |ordered| - 1;
      CountsAreRecords(batch, bound, limits[..n], ordered[..n], inputs[..n]);
      assert Publishes(batch, bound, inputs[n], limits[n], ordered[n]);
    }
  }
}
