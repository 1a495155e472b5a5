/** The three-level record-set tree: root, epochs, partitions; what the resolver accepts and that it flattens back. */
module RecordSetTree {
  import opened Prelude

  const MAX_CHILDREN := 4096

  /** The five fields that every level repeats. */
  datatype Binding = Binding(batch: nat, product: nat, policy: nat, policyDigest: nat, createdAt: nat)

  datatype Totals = Totals(shards: int, records: int, bytes: int, first: nat, last: nat)

  datatype Shard = Shard(index: int, uri: string, records: int, bytes: int, first: nat, last: nat)

  datatype Partition = Partition(binding: Binding, epoch: int, index: int, shards: seq<Shard>, totals: Totals)

  // A reference pins its object by digest, so it carries the object's contents.
  datatype PartitionRef = PartitionRef(uri: nat, body: Partition)

  datatype Epoch = Epoch(binding: Binding, index: int, partitions: seq<PartitionRef>, partitionCount: int,
                         totals: Totals)

  datatype EpochRef = EpochRef(uri: nat, body: Epoch)

  datatype Root = Root(binding: Binding, epochs: seq<EpochRef>, epochCount: int, partitionCount: int, totals: Totals)

  datatype Store = Store(epochs: set<EpochRef>, partitions: set<PartitionRef>)

  datatype ResolveError =
    | Missing | Invalid | WrongBinding | WrongEpoch | PartitionOrder | WrongEpochTotals | EpochOrder | ShardOrder
    | DuplicateUri | WrongRootTotals

  datatype Resolved = Resolved(binding: Binding, shards: seq<Shard>, records: int, first: nat, last: nat)

  // ---------------------------------------------------------------- the manifests' own validators

  ghost predicate StrictlyIncreasing(s: seq<int>) {
    forall i, j :: 0 <= i < j < |s| ==> s[i] < s[j]
  }

  function Indexes(shards: seq<Shard>): seq<int> { seq(|shards|, i requires 0 <= i < |shards| => shards[i].index) }

  function Uris(shards: seq<Shard>): seq<string> { seq(|shards|, i requires 0 <= i < |shards| => shards[i].uri) }

  function RecordSum(shards: seq<Shard>): int {
    if shards == [] then 0 else RecordSum(shards[..|shards| - 1]) + shards[|shards| - 1].records
  }

  function ByteSum(shards: seq<Shard>): int {
    if shards == [] then 0 else ByteSum(shards[..|shards| - 1]) + shards[|shards| - 1].bytes
  }

  predicate ValidShard(s: Shard) { s.index >= 0 && s.records > 0 && s.bytes > 0 }

  /** The totals a list of shards must be declared with. */
  function TotalsOf(shards: seq<Shard>): Totals
    requires shards != []
  {
    Totals(|shards|, RecordSum(shards), ByteSum(shards), shards[0].first, shards[|shards| - 1].last)
  }

  /** `ConnectorRecordSetPartitionManifest.validate_partition`. */
  ghost predicate ValidPartition(p: Partition) {
    && 0 < |p.shards| <= MAX_CHILDREN && p.epoch >= 0 && p.index >= 0
    && (forall s :: s in p.shards ==> ValidShard(s))
    && StrictlyIncreasing(Indexes(p.shards))
    && Distinct(Uris(p.shards))
    && p.totals == TotalsOf(p.shards)
  }

  ghost predicate ValidEpoch(e: Epoch) {
    && 0 < |e.partitions| <= MAX_CHILDREN && e.index >= 0
    && e.partitionCount == |e.partitions|
    && (forall i, j :: 0 <= i < j < |e.partitions| ==> e.partitions[i].uri != e.partitions[j].uri)
    && e.totals.shards > 0 && e.totals.records > 0 && e.totals.bytes > 0
  }

  ghost predicate ValidRoot(r: Root) {
    && 0 < |r.epochs| <= MAX_CHILDREN
    && r.epochCount == |r.epochs|
    && (forall i, j :: 0 <= i < j < |r.epochs| ==> r.epochs[i].uri != r.epochs[j].uri)
    && r.partitionCount > 0 && r.totals.shards > 0 && r.totals.records > 0 && r.totals.bytes > 0
  }

  // ---------------------------------------------------------------- flattening

  function PartitionShards(partitions: seq<PartitionRef>): seq<Shard> {
    if partitions == [] then []
        else PartitionShards(partitions[..|partitions| - 1]) + partitions[|partitions| - 1].body.shards
  }

  function EpochShards(epochs: seq<EpochRef>): seq<Shard> {
    if epochs == [] then []
        else EpochShards(epochs[..|epochs| - 1]) + PartitionShards(epochs[|epochs| - 1].body.partitions)
  }

  function PartitionSum(epochs: seq<EpochRef>): nat {
    if epochs == [] then 0 else PartitionSum(epochs[..|epochs| - 1]) + |epochs[|epochs| - 1].body.partitions|
  }

  function AddTotals(a: Totals, b: Totals): Totals {
    Totals(a.shards + b.shards, a.records + b.records, a.bytes + b.bytes, a.first, b.last)
  }

  /** Declared totals of consecutive manifests: counts add up, bounds come from the ends. */
  function Combine(totals: seq<Totals>): Totals
    requires totals != []
  {
    if |totals| == 1 then totals[0] else AddTotals(Combine(totals[..|totals| - 1]), totals[|totals| - 1])
  }

  function PartitionTotals(partitions: seq<PartitionRef>): seq<Totals> {
    seq(|partitions|, i requires 0 <= i < |partitions| => partitions[i].body.totals)
  }

  function EpochTotals(epochs: seq<EpochRef>): seq<Totals> {
    seq(|epochs|, i requires 0 <= i < |epochs| => epochs[i].body.totals)
  }

  // ---------------------------------------------------------------- what the resolver accepts

  ghost predicate PartitionAccepted(store: Store, root: Root, epoch: Epoch, ref: PartitionRef) {
    && ref in store.partitions && ValidPartition(ref.body)
    && ref.body.binding == root.binding && ref.body.epoch == epoch.index
  }

  ghost predicate EpochAccepted(store: Store, root: Root, ref: EpochRef) {
    var e := ref.body;
    && ref in store.epochs && ValidEpoch(e) && e.binding == root.binding
    && (forall i :: 0 <= i < |e.partitions| ==> PartitionAccepted(store, root, e, e.partitions[i]))
    && (forall i, j :: 0 <= i < j < |e.partitions| ==> e.partitions[i].body.index < e.partitions[j].body.index)
    && e.totals == Combine(PartitionTotals(e.partitions))
  }

  ghost predicate Resolvable(store: Store, root: Root) {
    && (forall i :: 0 <= i < |root.epochs| ==> EpochAccepted(store, root, root.epochs[i]))
    && (forall i, j :: 0 <= i < j < |root.epochs| ==> root.epochs[i].body.index < root.epochs[j].body.index)
    && var shards := EpochShards(root.epochs);
       && shards != []
       && StrictlyIncreasing(Indexes(shards)) && Distinct(Uris(shards))
       && root.epochCount == |root.epochs| && root.partitionCount == PartitionSum(root.epochs)
       && root.totals == TotalsOf(shards)
  }

  /** `indexes == sorted(set(indexes))`. */
  method IsStrictlyIncreasing(s: seq<int>) returns (ok: bool)
    ensures ok <==> StrictlyIncreasing(s)
  {
    var i := 1;
    while i < |s|
      invariant 1 <= i
      invariant forall a, b :: 0 <= a < b < i && b < |s| ==> s[a] < s[b]
    {
      if s[i - 1] >= s[i] {
        return false;
      }
      i := i + 1;
    }
    return true;
  }

  /** One epoch of `_resolve_sharded_record_set`; `validPartition` is the partition model's own validation. */
  method ResolvePartitions(validPartition: Partition -> bool, store: Store, root: Root, epoch: Epoch)
    returns (r: Result<seq<Shard>, ResolveError>)
    requires forall p :: validPartition(p) <==> ValidPartition(p)
    requires ValidEpoch(epoch)
    ensures r.Ok? <==>
              && (forall i :: 0 <= i < |epoch.partitions| ==>
                  PartitionAccepted(store, root, epoch, epoch.partitions[i]))
              && (forall i, j :: 0 <= i < j < |epoch.partitions| ==>
                  epoch.partitions[i].body.index < epoch.partitions[j].body.index)
              && epoch.totals == Combine(PartitionTotals(epoch.partitions))
    ensures r.Ok? ==> r.value == PartitionShards(epoch.partitions)
  {
    hide ValidPartition;
    var refs := epoch.partitions;
    var indexes: seq<int> := [];
    var shards: seq<Shard> := [];
    var totals := Totals(0, 0, 0, 0, 0);
    var n := 0;
    while n < |refs|
      invariant 0 <= n <= |refs| && |indexes| == n
      invariant forall i :: 0 <= i < n ==>
                PartitionAccepted(store, root, epoch, refs[i]) && indexes[i] == refs[i].body.index
      invariant shards == PartitionShards(refs[..n])
      invariant n > 0 ==> totals == Combine(PartitionTotals(refs[..n]))
    {
      var ref := refs[n];
      if ref !in store.partitions {
        return Err(Missing);
      }
      if !validPartition(ref.body) {
        return Err(Invalid);
      }
      if ref.body.binding != root.binding {
        return Err(WrongBinding);
      }
      if ref.body.epoch != epoch.index {
        return Err(WrongEpoch);
      }
      assert refs[..n + 1][..n] == refs[..n];
      assert PartitionTotals(refs[..n + 1])[..n] == PartitionTotals(refs[..n]);
      indexes := indexes + [ref.body.index];
      shards := shards + ref.body.shards;
      totals := if n == 0 then ref.body.totals else AddTotals(totals, ref.body.totals);
      n := n + 1;
    }
    assert refs[..n] == refs;
    var increasing := IsStrictlyIncreasing(indexes);
    if !increasing {
      return Err(PartitionOrder);
    }
    if epoch.totals != totals {
      return Err(WrongEpochTotals);
    }
    return Ok(shards);
  }

  /** The checks on the flattened list and on the root's own counts. */
  method CheckFlatList(root: Root, shards: seq<Shard>, partitions: nat) returns (error: Option<ResolveError>)
    ensures error.None? <==>
              && shards != []
              && StrictlyIncreasing(Indexes(shards)) && Distinct(Uris(shards))
              && root.epochCount == |root.epochs| && root.partitionCount == partitions
              && root.totals == TotalsOf(shards)
  {
    var ordered := IsStrictlyIncreasing(Indexes(shards));
    if !ordered {
      return Some(ShardOrder);
    }
    DistinctCount(Uris(shards));
    if |set u | u in Uris(shards)| != |Uris(shards)| {
      return Some(DuplicateUri);
    }
    if shards == [] || root.epochCount != |root.epochs| || root.partitionCount != partitions
       || root.totals != TotalsOf(shards) {
      return Some(WrongRootTotals);
    }
    return None;
  }

  method ResolveEpoch(validEpoch: Epoch -> bool, validPartition: Partition -> bool, store: Store, root: Root,
                      ref: EpochRef)
    returns (r: Result<seq<Shard>, ResolveError>)
    requires (forall e :: validEpoch(e) <==> ValidEpoch(e)) && (forall p :: validPartition(p) <==> ValidPartition(p))
    ensures r.Ok? <==> EpochAccepted(store, root, ref)
    ensures r.Ok? ==> r.value == PartitionShards(ref.body.partitions)
  {
    hide ValidPartition, ValidEpoch, PartitionAccepted;
    if ref !in store.epochs {
      return Err(Missing);
    }
    if !validEpoch(ref.body) {
      return Err(Invalid);
    }
    if ref.body.binding != root.binding {
      return Err(WrongBinding);
    }
    r := ResolvePartitions(validPartition, store, root, ref.body);
  }

  /** `_resolve_sharded_record_set`: epochs, partitions and shards in order, every level checked against its
      children. */
  method ResolveRecordSet(validEpoch: Epoch -> bool, validPartition: Partition -> bool, store: Store, root: Root)
    returns (r: Result<Resolved, ResolveError>)
    requires (forall e :: validEpoch(e) <==> ValidEpoch(e)) && (forall p :: validPartition(p) <==> ValidPartition(p))
    requires ValidRoot(root)
    ensures r.Ok? <==> Resolvable(store, root)
    ensures r.Ok? ==>
              r.value == Resolved(root.binding, EpochShards(root.epochs), root.totals.records, root.totals.first,
              root.totals.last)
  {
    hide ValidPartition, ValidEpoch, EpochAccepted, TotalsOf;
    var refs := root.epochs;
    var indexes: seq<int> := [];
    var shards: seq<Shard> := [];
    var partitions := 0;
    var n := 0;
    while n < |refs|
      invariant 0 <= n <= |refs| && |indexes| == n
      invariant forall i :: 0 <= i < n ==> EpochAccepted(store, root, refs[i]) && indexes[i] == refs[i].body.index
      invariant shards == EpochShards(refs[..n]) && partitions == PartitionSum(refs[..n])
    {
      var resolved := ResolveEpoch(validEpoch, validPartition, store, root, refs[n]);
      if resolved.Err? {
        return Err(resolved.error);
      }
      assert refs[..n + 1][..n] == refs[..n];
      indexes := indexes + [refs[n].body.index];
      shards := shards + resolved.value;
      partitions := partitions + |refs[n].body.partitions|;
      n := n + 1;
    }
    assert refs[..n] == refs;
    var increasing := IsStrictlyIncreasing(indexes);
    if !increasing {
      return Err(EpochOrder);
    }
    var wrong := CheckFlatList(root, shards, partitions);
    if wrong.Some? {
      return Err(wrong.value);
    }
    return Ok(Resolved(root.binding, shards, root.totals.records, root.totals.first, root.totals.last));
  }

  // ---------------------------------------------------------------- acceptance conserves the totals

  lemma {:induction false} TotalsAppend(a: seq<Shard>, b: seq<Shard>)
    requires a != [] && b != []
    ensures TotalsOf(a + b) == AddTotals(TotalsOf(a), TotalsOf(b))
  {
    SumsAppend(a, b);
  }

  /** Shard indexes grow, and no object is listed twice. */
  ghost predicate InOrder(shards: seq<Shard>) {
    forall i, j :: 0 <= i < j < |shards| ==> shards[i].index < shards[j].index && shards[i].uri != shards[j].uri
  }

  lemma InOrderIsChecked(shards: seq<Shard>)
    ensures InOrder(shards) <==> StrictlyIncreasing(Indexes(shards)) && Distinct(Uris(shards))
  {
    var indexes, uris := Indexes(shards), Uris(shards);
    assert forall k :: 0 <= k < |shards| ==> indexes[k] == shards[k].index && uris[k] == shards[k].uri;
    if StrictlyIncreasing(indexes) && Distinct(uris) {
      forall i, j | 0 <= i < j < |shards|
        ensures shards[i].index < shards[j].index && shards[i].uri != shards[j].uri
      {
        assert indexes[i] < indexes[j] && uris[i] != uris[j];
      }
    }
  }

  /** The totals of one shard are what it says of itself. */
  lemma TotalsOfOne(s: Shard)
    ensures TotalsOf([s]) == Totals(shards := 1, records := s.records, bytes := s.bytes, first := s.first,
                                    last := s.last)
  {
    assert [s][..0] == [];
    assert RecordSum([]) == 0 && ByteSum([]) == 0;
  }

  lemma {:induction false} SumsAppend(a: seq<Shard>, b: seq<Shard>)
    ensures RecordSum(a + b) == RecordSum(a) + RecordSum(b)
    ensures ByteSum(a + b) == ByteSum(a) + ByteSum(b)
    decreases |b|
  {
    if b == [] {
      assert a + b == a;
    } else {
      SumsAppend(a, b[..|b| - 1]);
      assert (a + b)[..|a + b| - 1] == a + b[..|b| - 1];
    }
  }

  lemma {:induction false} PartitionTotalsAddUp(partitions: seq<PartitionRef>)
    requires partitions != [] && forall i :: 0 <= i < |partitions| ==> partitions[i].body.shards != []
    requires forall i :: 0 <= i < |partitions| ==> partitions[i].body.totals == TotalsOf(partitions[i].body.shards)
    ensures PartitionShards(partitions) != []
    ensures Combine(PartitionTotals(partitions)) == TotalsOf(PartitionShards(partitions))
    decreases |partitions|
  {
    var n := |partitions| - 1;
    if n == 0 {
      assert PartitionShards(partitions[..n]) == [];
      assert [] + partitions[n].body.shards == partitions[n].body.shards;
    } else {
      PartitionTotalsAddUp(partitions[..n]);
      assert PartitionTotals(partitions)[..n] == PartitionTotals(partitions[..n]);
      TotalsAppend(PartitionShards(partitions[..n]), partitions[n].body.shards);
    }
  }

  lemma {:induction false} EpochTotalsAddUp(epochs: seq<EpochRef>)
    requires epochs != [] && forall i :: 0 <= i < |epochs| ==> PartitionShards(epochs[i].body.partitions) != []
    requires forall i :: 0 <= i < |epochs| ==>
              epochs[i].body.totals == TotalsOf(PartitionShards(epochs[i].body.partitions))
    ensures EpochShards(epochs) != []
    ensures Combine(EpochTotals(epochs)) == TotalsOf(EpochShards(epochs))
    decreases |epochs|
  {
    var n := |epochs| - 1;
    if n == 0 {
      assert EpochShards(epochs[..n]) == [];
      assert [] + PartitionShards(epochs[n].body.partitions) == PartitionShards(epochs[n].body.partitions);
    } else {
      EpochTotalsAddUp(epochs[..n]);
      assert EpochTotals(epochs)[..n] == EpochTotals(epochs[..n]);
      TotalsAppend(EpochShards(epochs[..n]), PartitionShards(epochs[n].body.partitions));
    }
  }

  lemma AcceptedEpochTotals(store: Store, root: Root, ref: EpochRef)
    requires EpochAccepted(store, root, ref)
    ensures PartitionShards(ref.body.partitions) != []
    ensures ref.body.totals == TotalsOf(PartitionShards(ref.body.partitions))
  {
    forall i | 0 <= i < |ref.body.partitions|
      ensures ref.body.partitions[i].body.shards != []
      ensures ref.body.partitions[i].body.totals == TotalsOf(ref.body.partitions[i].body.shards)
    {
      assert PartitionAccepted(store, root, ref.body, ref.body.partitions[i]);
    }
    PartitionTotalsAddUp(ref.body.partitions);
  }

  /** An accepted tree has strictly increasing shard indexes and distinct URIs, and its record, shard and byte counts
      and key bounds agree at all three levels: the root's totals are those of the flat list, and the combination of
      the epochs'. */
  lemma AcceptanceConservesTotals(store: Store, root: Root)
    requires ValidRoot(root) && Resolvable(store, root)
    ensures InOrder(EpochShards(root.epochs))
    ensures EpochShards(root.epochs) != [] && root.totals == TotalsOf(EpochShards(root.epochs))
    ensures root.totals == Combine(EpochTotals(root.epochs))
    ensures forall i :: 0 <= i < |root.epochs| ==>
              && root.epochs[i].body.partitions != []
              && root.epochs[i].body.totals == Combine(PartitionTotals(root.epochs[i].body.partitions))
  {
    forall i | 0 <= i < |root.epochs|
      ensures PartitionShards(root.epochs[i].body.partitions) != []
      ensures root.epochs[i].body.totals == TotalsOf(PartitionShards(root.epochs[i].body.partitions))
    {
      AcceptedEpochTotals(store, root, root.epochs[i]);
    }
    EpochTotalsAddUp(root.epochs);
    InOrderIsChecked(EpochShards(root.epochs));
  }

  /** At every level of an accepted tree the manifests are stored, bound to the root's batch, product and policy, and
      list their children in order; and every shard holds records. */
  lemma AcceptedTreeIsBound(store: Store, root: Root, i: nat, j: nat, k: nat)
    requires Resolvable(store, root) && i < |root.epochs| && j < |root.epochs[i].body.partitions|
    requires k < |root.epochs[i].body.partitions[j].body.shards|
    ensures var e := root.epochs[i];
            && e in store.epochs && e.body.binding == root.binding
            && (i > 0 ==> root.epochs[i - 1].body.index < e.body.index)
            && var p := e.body.partitions[j];
               && p in store.partitions && p.body.binding == root.binding && p.body.epoch == e.body.index
               && (j > 0 ==> e.body.partitions[j - 1].body.index < p.body.index)
               && var s := p.body.shards[k];
                  && s.index >= 0 && s.records > 0 && s.bytes > 0
                  && (k > 0 ==> p.body.shards[k - 1].index < s.index && p.body.shards[k - 1].uri != s.uri)
  {
    var shards := root.epochs[i].body.partitions[j].body.shards;
    assert EpochAccepted(store, root, root.epochs[i]);
    assert PartitionAccepted(store, root, root.epochs[i].body, root.epochs[i].body.partitions[j]);
    assert ValidShard(shards[k]);
    InOrderIsChecked(shards);
  }

  // ---------------------------------------------------------------- building a tree and flattening it back

  type Chunks = seq<seq<seq<Shard>>>

  function JoinAll(chunks: seq<seq<Shard>>): seq<Shard> {
    if chunks == [] then [] else JoinAll(chunks[..|chunks| - 1]) + chunks[|chunks| - 1]
  }

  function Flatten(chunks: Chunks): seq<Shard> {
    if chunks == [] then [] else Flatten(chunks[..|chunks| - 1]) + JoinAll(chunks[|chunks| - 1])
  }

  function PairCount(chunks: Chunks): nat {
    if chunks == [] then 0 else PairCount(chunks[..|chunks| - 1]) + |chunks[|chunks| - 1]|
  }

  /** Non-empty chunks within the fan-out bounds. */
  ghost predicate ValidChunks(chunks: Chunks) {
    && 0 < |chunks| <= MAX_CHILDREN
    && (forall i :: 0 <= i < |chunks| ==> 0 < |chunks[i]| <= MAX_CHILDREN)
    && (forall i, j :: 0 <= i < |chunks| && 0 <= j < |chunks[i]| ==> 0 < |chunks[i][j]| <= MAX_CHILDREN)
  }

  function BuildPartition(b: Binding, epoch: nat, index: nat, shards: seq<Shard>): PartitionRef
    requires shards != []
  {
    PartitionRef(index, Partition(b, epoch, index, shards, TotalsOf(shards)))
  }

  function BuildPartitions(b: Binding, epoch: nat, chunk: seq<seq<Shard>>): seq<PartitionRef>
    requires forall j :: 0 <= j < |chunk| ==> chunk[j] != []
  {
    seq(|chunk|, j requires 0 <= j < |chunk| => BuildPartition(b, epoch, j, chunk[j]))
  }

  /** An epoch with honest totals over its partitions. */
  function BuildEpoch(b: Binding, index: nat, chunk: seq<seq<Shard>>): EpochRef
    requires chunk != [] && forall j :: 0 <= j < |chunk| ==> chunk[j] != []
  {
    var partitions := BuildPartitions(b, index, chunk);
    EpochRef(index, Epoch(b, index, partitions, |partitions|, Combine(PartitionTotals(partitions))))
  }

  function BuildEpochs(b: Binding, chunks: Chunks): seq<EpochRef>
    requires ValidChunks(chunks)
  {
    seq(|chunks|, i requires 0 <= i < |chunks| => BuildEpoch(b, i, chunks[i]))
  }

  function BuildRoot(b: Binding, chunks: Chunks): Root
    requires ValidChunks(chunks)
  {
    var epochs := BuildEpochs(b, chunks);
    Root(b, epochs, |epochs|, PairCount(chunks), Combine(EpochTotals(epochs)))
  }

  lemma {:induction false} BuiltPartitionShards(b: Binding, epoch: nat, chunk: seq<seq<Shard>>)
    requires forall j :: 0 <= j < |chunk| ==> chunk[j] != []
    ensures PartitionShards(BuildPartitions(b, epoch, chunk)) == JoinAll(chunk)
    decreases |chunk|
  {
    if chunk != [] {
      var n := |chunk| - 1;
      BuiltPartitionShards(b, epoch, chunk[..n]);
      assert BuildPartitions(b, epoch, chunk)[..n] == BuildPartitions(b, epoch, chunk[..n]);
    }
  }

  lemma {:induction false} BuiltEpochShards(b: Binding, chunks: Chunks, n: nat)
    requires ValidChunks(chunks) && n <= |chunks|
    ensures EpochShards(BuildEpochs(b, chunks)[..n]) == Flatten(chunks[..n])
    ensures PartitionSum(BuildEpochs(b, chunks)[..n]) == PairCount(chunks[..n])
  {
    if n > 0 {
      BuiltEpochShards(b, chunks, n - 1);
      BuiltPartitionShards(b, n - 1, chunks[n - 1]);
      assert BuildEpochs(b, chunks)[..n][..n - 1] == BuildEpochs(b, chunks)[..n - 1];
      assert chunks[..n][..n - 1] == chunks[..n - 1];
    }
  }

  ghost predicate GoodShards(shards: seq<Shard>) {
    && (forall k :: 0 <= k < |shards| ==> shards[k].index >= 0 && shards[k].records > 0 && shards[k].bytes > 0)
    && InOrder(shards)
  }

  /** A stretch of a good list is good. */
  lemma GoodPart(shards: seq<Shard>, lo: nat, hi: nat)
    requires lo <= hi <= |shards| && GoodShards(shards)
    ensures GoodShards(shards[lo..hi])
  {
  }

  lemma {:induction false} ChunkInJoin(chunk: seq<seq<Shard>>, j: nat) returns (lo: nat)
    requires j < |chunk|
    ensures lo + |chunk[j]| <= |JoinAll(chunk)| && JoinAll(chunk)[lo..lo + |chunk[j]|] == chunk[j]
    decreases |chunk|
  {
    var n := |chunk| - 1;
    if j == n {
      lo := |JoinAll(chunk[..n])|;
    } else {
      lo := ChunkInJoin(chunk[..n], j);
      assert JoinAll(chunk)[..|JoinAll(chunk[..n])|] == JoinAll(chunk[..n]);
    }
  }

  lemma {:induction false} JoinInFlatten(chunks: Chunks, i: nat) returns (lo: nat)
    requires i < |chunks|
    ensures lo + |JoinAll(chunks[i])| <= |Flatten(chunks)|
            && Flatten(chunks)[lo..lo + |JoinAll(chunks[i])|] == JoinAll(chunks[i])
    decreases |chunks|
  {
    var n := |chunks| - 1;
    if i == n {
      lo := |Flatten(chunks[..n])|;
    } else {
      lo := JoinInFlatten(chunks[..n], i);
      assert Flatten(chunks)[..|Flatten(chunks[..n])|] == Flatten(chunks[..n]);
    }
  }

  lemma BuiltPartitionValid(b: Binding, chunks: Chunks, i: nat, j: nat)
    requires ValidChunks(chunks) && GoodShards(Flatten(chunks)) && i < |chunks| && j < |chunks[i]|
    ensures ValidPartition(BuildPartition(b, i, j, chunks[i][j]).body)
  {
    hide Flatten, JoinAll, RecordSum, ByteSum;
    var lo := JoinInFlatten(chunks, i);
    GoodPart(Flatten(chunks), lo, lo + |JoinAll(chunks[i])|);
    var at := ChunkInJoin(chunks[i], j);
    GoodPart(JoinAll(chunks[i]), at, at + |chunks[i][j]|);
    InOrderIsChecked(chunks[i][j]);
  }

  function StoreOf(root: Root): Store {
    Store(set i | 0 <= i < |root.epochs| :: root.epochs[i],
          set i, j | 0 <= i < |root.epochs| && 0 <= j < |root.epochs[i].body.partitions| ::
              root.epochs[i].body.partitions[j])
  }

  lemma {:induction false} PositiveSums(shards: seq<Shard>)
    requires shards != [] && GoodShards(shards)
    ensures RecordSum(shards) > 0 && ByteSum(shards) > 0
    decreases |shards|
  {
    if |shards| > 1 {
      PositiveSums(shards[..|shards| - 1]);
    }
  }

  lemma {:induction false} BuiltChunkGood(chunks: Chunks, i: nat)
    requires ValidChunks(chunks) && GoodShards(Flatten(chunks)) && i < |chunks|
    ensures GoodShards(JoinAll(chunks[i]))
  {
    hide GoodShards, Flatten, JoinAll;
    var lo := JoinInFlatten(chunks, i);
    GoodPart(Flatten(chunks), lo, lo + |JoinAll(chunks[i])|);
  }

  lemma GoodTotalsPositive(shards: seq<Shard>)
    requires shards != [] && GoodShards(shards)
    ensures TotalsOf(shards).shards > 0 && TotalsOf(shards).records > 0 && TotalsOf(shards).bytes > 0
  {
    PositiveSums(shards);
  }

  lemma {:induction false} BuiltEpochTotals(b: Binding, index: nat, chunk: seq<seq<Shard>>)
    requires chunk != [] && forall j :: 0 <= j < |chunk| ==> chunk[j] != []
    ensures PartitionShards(BuildPartitions(b, index, chunk)) == JoinAll(chunk) != []
    ensures Combine(PartitionTotals(BuildPartitions(b, index, chunk))) == TotalsOf(JoinAll(chunk))
  {
    hide TotalsOf;
    PartitionTotalsAddUp(BuildPartitions(b, index, chunk));
    BuiltPartitionShards(b, index, chunk);
  }

  /** An epoch built over good shards declares their totals and is valid. */
  lemma {:induction false} BuiltEpochValid(b: Binding, index: nat, chunk: seq<seq<Shard>>)
    requires 0 < |chunk| <= MAX_CHILDREN && (forall j :: 0 <= j < |chunk| ==> chunk[j] != [])
             && GoodShards(JoinAll(chunk))
    ensures var e := BuildEpoch(b, index, chunk).body;
            && ValidEpoch(e)
            && PartitionShards(e.partitions) == JoinAll(chunk) != []
            && e.totals == TotalsOf(JoinAll(chunk))
  {
    hide GoodShards, TotalsOf, Combine, PartitionShards, JoinAll;
    BuiltEpochTotals(b, index, chunk);
    GoodTotalsPositive(JoinAll(chunk));
  }

  lemma BuiltIsStored(root: Root, i: nat, j: nat)
    requires i < |root.epochs| && j < |root.epochs[i].body.partitions|
    ensures root.epochs[i] in StoreOf(root).epochs && root.epochs[i].body.partitions[j] in StoreOf(root).partitions
  {
  }

  lemma BuiltPartitionAccepted(b: Binding, chunks: Chunks, i: nat, j: nat)
    requires ValidChunks(chunks) && GoodShards(Flatten(chunks)) && i < |chunks| && j < |chunks[i]|
    ensures var root := BuildRoot(b, chunks);
            && root.epochs[i] in StoreOf(root).epochs
            && PartitionAccepted(StoreOf(root), root, root.epochs[i].body, root.epochs[i].body.partitions[j])
  {
    hide ValidPartition, StoreOf;
    BuiltPartitionValid(b, chunks, i, j);
    BuiltIsStored(BuildRoot(b, chunks), i, j);
  }

  lemma {:induction false} BuiltEpochAccepted(b: Binding, chunks: Chunks, i: nat)
    requires ValidChunks(chunks) && GoodShards(Flatten(chunks)) && i < |chunks|
    ensures EpochAccepted(StoreOf(BuildRoot(b, chunks)), BuildRoot(b, chunks), BuildEpochs(b, chunks)[i])
  {
    hide ValidPartition, StoreOf, ValidEpoch, PartitionAccepted, GoodShards, TotalsOf, PartitionShards, JoinAll,
      Flatten, EpochTotals;
    var root := BuildRoot(b, chunks);
    var e := root.epochs[i].body;
    BuiltChunkGood(chunks, i);
    BuiltEpochValid(b, i, chunks[i]);
    forall j | 0 <= j < |e.partitions|
      ensures PartitionAccepted(StoreOf(root), root, e, e.partitions[j])
    {
      BuiltPartitionAccepted(b, chunks, i, j);
    }
    BuiltPartitionAccepted(b, chunks, i, 0);
    BuiltEpochCombines(b, i, chunks[i]);
  }

  lemma BuiltEpochCombines(b: Binding, index: nat, chunk: seq<seq<Shard>>)
    requires chunk != [] && forall j :: 0 <= j < |chunk| ==> chunk[j] != []
    ensures var e := BuildEpoch(b, index, chunk).body;
            e.totals == Combine(PartitionTotals(e.partitions)) && e.binding == b
            && forall i, j :: 0 <= i < j < |e.partitions| ==> e.partitions[i].body.index < e.partitions[j].body.index
  {
  }

  lemma BuiltRootTotals(b: Binding, chunks: Chunks)
    requires ValidChunks(chunks) && GoodShards(Flatten(chunks))
    ensures var root := BuildRoot(b, chunks);
            && EpochShards(root.epochs) == Flatten(chunks) != []
            && root.totals == TotalsOf(Flatten(chunks))
            && root.partitionCount == PartitionSum(root.epochs)
  {
    hide ValidEpoch, GoodShards, BuildEpoch;
    var root := BuildRoot(b, chunks);
    forall i | 0 <= i < |root.epochs|
      ensures PartitionShards(root.epochs[i].body.partitions) != []
      ensures root.epochs[i].body.totals == TotalsOf(PartitionShards(root.epochs[i].body.partitions))
    {
      BuiltChunkGood(chunks, i);
      BuiltEpochValid(b, i, chunks[i]);
    }
    BuiltEpochShards(b, chunks, |chunks|);
    assert chunks[..|chunks|] == chunks && BuildEpochs(b, chunks)[..|chunks|] == BuildEpochs(b, chunks);
    EpochTotalsAddUp(root.epochs);
  }

  /** Any good shard list, cut into partitions and epochs in any way, resolves back to exactly that list. */
  lemma TreeRoundTrip(b: Binding, chunks: Chunks)
    requires ValidChunks(chunks) && GoodShards(Flatten(chunks))
    ensures var root := BuildRoot(b, chunks);
            && ValidRoot(root)
            && Resolvable(StoreOf(root), root)
            && EpochShards(root.epochs) == Flatten(chunks)
  {
    hide EpochAccepted, StoreOf, TotalsOf, EpochShards, Flatten, BuildPartitions;
    var root := BuildRoot(b, chunks);
    forall i | 0 <= i < |root.epochs|
      ensures EpochAccepted(StoreOf(root), root, root.epochs[i])
    {
      BuiltEpochAccepted(b, chunks, i);
    }
    BuiltRootTotals(b, chunks);
    GoodTotalsPositive(Flatten(chunks));
    InOrderIsChecked(Flatten(chunks));
    PairCountPositive(chunks);
  }

  lemma PairCountPositive(chunks: Chunks)
    requires ValidChunks(chunks)
    ensures PairCount(chunks) > 0
  {
  }
}
