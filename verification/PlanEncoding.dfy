/** Length-prefixed tuple framing and the plan projections built on it: equal digests mean equal plans. */
module PlanEncoding {
  import opened Prelude

  newtype byte = x: int | 0 <= x < 256

  type Bytes = seq<byte>

  const MAX_FIELD := 0x7FFF_FFFF

  datatype EncodingError = FieldTooLarge

  // ---------------------------------------------------------------- the frame

  /** struct.pack(">I", n). */
  function BigEndian(n: nat): Bytes
    requires n < 0x1_0000_0000
  {
    [(n / 0x100_0000) as byte, (n / 0x1_0000 % 0x100) as byte, (n / 0x100 % 0x100) as byte, (n % 0x100) as byte]
  }

  function FromBigEndian(b: Bytes): nat
    requires |b| >= 4
  {
    b[0] as int * 0x100_0000 + b[1] as int * 0x1_0000 + b[2] as int * 0x100 + b[3] as int
  }

  lemma BigEndianRoundTrip(n: nat, rest: Bytes)
    requires n < 0x1_0000_0000
    ensures FromBigEndian(BigEndian(n) + rest) == n
  {
    var a := n / 0x100;
    var b := n / 0x1_0000;
    assert b == a / 0x100 && n / 0x100_0000 == b / 0x100;
  }

  predicate Encodable(fields: seq<Bytes>) { forall f :: f in fields ==> |f| <= MAX_FIELD }

  /** What the digest object has been fed once all fields are framed. */
  function Framed(fields: seq<Bytes>): Bytes
    requires Encodable(fields)
  {
    if fields == [] then [] else BigEndian(|fields[0]|) + fields[0] + Framed(fields[1..])
  }

  /** `canonical_tuple_sha256`: each field's length, then the field, into the running digest. */
  method FrameFields(fields: seq<Bytes>) returns (r: Result<Bytes, EncodingError>)
    ensures r.Ok? <==> Encodable(fields)
    ensures r.Ok? ==> r.value == Framed(fields)
  {
    var fed: Bytes := [];
    var n := 0;
    while n < |fields|
      invariant 0 <= n <= |fields| && Encodable(fields[..n])
      invariant fed == Framed(fields[..n])
    {
      if |fields[n]| > MAX_FIELD {
        return Err(FieldTooLarge);
      }
      FramedSnoc(fields[..n], fields[n]);
      assert fields[..n + 1] == fields[..n] + [fields[n]];
      fed := fed + (BigEndian(|fields[n]|) + fields[n]);
      n := n + 1;
    }
    assert fields[..n] == fields;
    return Ok(fed);
  }

  lemma {:induction false} FramedSnoc(fields: seq<Bytes>, f: Bytes)
    requires Encodable(fields) && |f| <= MAX_FIELD
    ensures Encodable(fields + [f]) && Framed(fields + [f]) == Framed(fields) + (BigEndian(|f|) + f)
    decreases |fields|
  {
    if fields == [] {
      assert fields + [f] == [f];
      assert Framed([f]) == BigEndian(|f|) + f + Framed([f][1..]);
    } else {
      FramedSnoc(fields[1..], f);
      assert (fields + [f])[1..] == fields[1..] + [f];
      assert BigEndian(|fields[0]|) + fields[0] + (Framed(fields[1..]) + (BigEndian(|f|) + f))
          == (BigEndian(|fields[0]|) + fields[0] + Framed(fields[1..])) + (BigEndian(|f|) + f);
    }
  }

  /** The bytes of one frame: the field's length in four bytes, most significant first, and the field. */
  lemma FrameBytes(f: Bytes)
    requires |f| <= MAX_FIELD
    ensures var bytes := Framed([f]);
            && |bytes| == 4 + |f| && bytes[4..] == f
            && bytes[0] as int == |f| / 0x100_0000
            && bytes[0] as int * 0x100_0000 + bytes[1] as int * 0x1_0000 + bytes[2] as int * 0x100 + bytes[3] as int
               == |f|
  {
    assert Framed([f]) == BigEndian(|f|) + f + Framed([f][1..]);
    BigEndianRoundTrip(|f|, f);
  }

  /** Reads one frame after another; None when the bytes do not end on a frame boundary. */
  function Parse(bytes: Bytes): Option<seq<Bytes>>
    decreases |bytes|
  {
    if bytes == [] then Some([])
    else if |bytes| < 4 then None
    else
      var n := FromBigEndian(bytes);
      if |bytes| < 4 + n then None
      else
        match Parse(bytes[4 + n..])
        case None => None
        case Some(rest) => Some([bytes[4..4 + n]] + rest)
  }

  lemma FrameReadsBack(f: Bytes, rest: Bytes)
    requires |f| <= MAX_FIELD
    ensures var bytes := BigEndian(|f|) + f + rest;
            && |bytes| >= 4 + |f| && FromBigEndian(bytes) == |f|
            && bytes[4..4 + |f|] == f && bytes[4 + |f|..] == rest
  {
    BigEndianRoundTrip(|f|, f + rest);
    assert BigEndian(|f|) + f + rest == BigEndian(|f|) + (f + rest);
  }

  /** Every framing can be read back: the encoding of a tuple determines the tuple. */
  lemma {:induction false} ParseRoundTrip(fields: seq<Bytes>)
    requires Encodable(fields)
    ensures Parse(Framed(fields)) == Some(fields)
    decreases |fields|
  {
    hide BigEndian, FromBigEndian;
    if fields != [] {
      FrameReadsBack(fields[0], Framed(fields[1..]));
      ParseRoundTrip(fields[1..]);
      assert [fields[0]] + fields[1..] == fields;
    }
  }

  lemma FramedInjective(a: seq<Bytes>, b: seq<Bytes>)
    requires Encodable(a) && Encodable(b) && Framed(a) == Framed(b)
    ensures a == b
  {
    ParseRoundTrip(a);
    ParseRoundTrip(b);
  }

  // ---------------------------------------------------------------- text fields

  /** The UTF-8 bytes of a text in the ASCII range. */
  function Ascii(s: string): Bytes {
    seq(|s|, i requires 0 <= i < |s| => (s[i] as int % 256) as byte)
  }

  /** str(n). */
  function Decimal(n: nat): (d: Bytes)
    ensures 0 < |d| <= n + 1
  {
    var digit := (48 + n % 10) as byte;
    if n < 10 then [digit] else Decimal(n / 10) + [digit]
  }

  /** int(text), for a text of decimal digits. */
  function ReadDecimal(d: Bytes): int {
    if d == [] then 0 else 10 * ReadDecimal(d[..|d| - 1]) + (d[|d| - 1] as int - 48)
  }

  /** The decimal text has digits only, no leading zero, and reads back as the number. */
  lemma {:induction false} DecimalReadsBack(n: nat)
    ensures ReadDecimal(Decimal(n)) == n
    ensures forall i :: 0 <= i < |Decimal(n)| ==> 48 <= Decimal(n)[i] <= 57
    ensures n >= 10 ==> Decimal(n)[0] != 48
    decreases n
  {
    if n >= 10 {
      DecimalReadsBack(n / 10);
      var d := Decimal(n);
      assert d[..|d| - 1] == Decimal(n / 10);
      if n < 100 {
        assert Decimal(n / 10) == [(48 + n / 10) as byte];
      }
    } else {
      assert Decimal(n)[..0] == [];
    }
  }

  function Flag(b: bool): Bytes { if b then Ascii("true") else Ascii("false") }

  /** The two texts in ASCII. */
  lemma FlagBytes()
    ensures Flag(true) == [0x74, 0x72, 0x75, 0x65] && Flag(false) == [0x66, 0x61, 0x6C, 0x73, 0x65]
  {
  }

  // ---------------------------------------------------------------- digests

  /** No two of these inputs have one digest. */
  ghost predicate CollisionFree(hash: Bytes -> Bytes, inputs: set<Bytes>) {
    forall x, y :: x in inputs && y in inputs && hash(x) == hash(y) ==> x == y
  }

  /** `canonical_semantic_digest`. */
  function Digest(hash: Bytes -> Bytes, domain: Bytes, fields: seq<Bytes>): Bytes
    requires Encodable([domain] + fields)
  {
    hash(Framed([domain] + fields))
  }

  lemma DigestInjective(hash: Bytes -> Bytes, domain: Bytes, a: seq<Bytes>, b: seq<Bytes>, inputs: set<Bytes>)
    requires Encodable([domain] + a) && Encodable([domain] + b)
    requires CollisionFree(hash, inputs) && Framed([domain] + a) in inputs && Framed([domain] + b) in inputs
    requires Digest(hash, domain, a) == Digest(hash, domain, b)
    ensures a == b
  {
    FramedInjective([domain] + a, [domain] + b);
    assert ([domain] + a)[1..] == a && ([domain] + b)[1..] == b;
  }

  // ---------------------------------------------------------------- partitions

  datatype Partition = Partition(
    id: Bytes, ordinal: nat, key: Bytes, stage: Bytes, request: Bytes, workload: Bytes, profile: Bytes, input: Bytes,
    start: nat, end: nat, required: bool, inputBytes: nat, outputBytes: nat)

  const PARTITION_DOMAIN: Bytes := Ascii("video.world.execution-partition-descriptor.v1")
  const PLAN_DOMAIN: Bytes := Ascii("video.world.execution-plan.hash-projection.v1")

  function PartitionFields(p: Partition): seq<Bytes> {
    [p.id, Decimal(p.ordinal), p.key, p.stage, p.request, p.workload, p.profile, p.input,
     Decimal(p.start), Decimal(p.end), Flag(p.required), Decimal(p.inputBytes), Decimal(p.outputBytes)]
  }

  /** The descriptor, read field by field in the order in which it is hashed. */
  function ReadPartition(f: seq<Bytes>): Option<Partition> {
    if |f| != 13 then None
    else
      var ordinal, start, end, input, output :=
        ReadDecimal(f[1]), ReadDecimal(f[8]), ReadDecimal(f[9]), ReadDecimal(f[11]), ReadDecimal(f[12]);
      if ordinal < 0 || start < 0 || end < 0 || input < 0 || output < 0 then None
      else
        Some(Partition(id := f[0], ordinal := ordinal, key := f[2], stage := f[3], request := f[4], workload := f[5],
                       profile := f[6], input := f[7], start := start, end := end,
                       required := f[10] == [0x74, 0x72, 0x75, 0x65], inputBytes := input, outputBytes := output))
  }

  /** A descriptor is read back from its projection. */
  lemma PartitionReadsBack(p: Partition)
    ensures ReadPartition(PartitionFields(p)) == Some(p)
  {
    FlagBytes();
    DecimalReadsBack(p.ordinal);
    DecimalReadsBack(p.start);
    DecimalReadsBack(p.end);
    DecimalReadsBack(p.inputBytes);
    DecimalReadsBack(p.outputBytes);
  }

  ghost predicate EncodablePartition(p: Partition) { Encodable([PARTITION_DOMAIN] + PartitionFields(p)) }

  function PartitionDigest(hash: Bytes -> Bytes, p: Partition): Bytes
    requires EncodablePartition(p)
  {
    Digest(hash, PARTITION_DOMAIN, PartitionFields(p))
  }

  // ---------------------------------------------------------------- plans

  /** The hashed part of `ExecutionPlanManifest`. */
  datatype Plan = Plan(
    request: Bytes, inputManifest: Bytes, partitions: seq<Partition>, dependencies: seq<Bytes>, barriers: seq<Bytes>,
    coverage: Bytes)

  function PartitionDigests(hash: Bytes -> Bytes, partitions: seq<Partition>): seq<Bytes>
    requires forall i :: 0 <= i < |partitions| ==> EncodablePartition(partitions[i])
  {
    seq(|partitions|, i requires 0 <= i < |partitions| => PartitionDigest(hash, partitions[i]))
  }

  /** A count, then that many fields. */
  function Counted(fields: seq<Bytes>): seq<Bytes> { [Decimal(|fields|)] + fields }

  function PlanFields(hash: Bytes -> Bytes, p: Plan): seq<Bytes>
    requires forall i :: 0 <= i < |p.partitions| ==> EncodablePartition(p.partitions[i])
  {
    [p.request, p.inputManifest]
    + (Counted(PartitionDigests(hash, p.partitions)) + (Counted(p.dependencies) + (Counted(p.barriers) + [p.coverage])))
  }

  ghost predicate EncodablePlan(hash: Bytes -> Bytes, p: Plan) {
    && (forall i :: 0 <= i < |p.partitions| ==> EncodablePartition(p.partitions[i]))
    && Encodable([PLAN_DOMAIN] + PlanFields(hash, p))
  }

  /** `computed_plan_digest`. */
  ghost function PlanDigest(hash: Bytes -> Bytes, p: Plan): Bytes
    requires EncodablePlan(hash, p)
  {
    Digest(hash, PLAN_DOMAIN, PlanFields(hash, p))
  }

  /** What a plan's projection says, with each partition as its digest. */
  datatype Projection = Projection(
    request: Bytes, inputManifest: Bytes, partitions: seq<Bytes>, dependencies: seq<Bytes>, barriers: seq<Bytes>,
    coverage: Bytes)

  /** Reads a count and that many fields; the list and the fields that follow it. */
  function ReadCounted(f: seq<Bytes>): Option<(seq<Bytes>, seq<Bytes>)> {
    if f == [] then None
    else
      var n := ReadDecimal(f[0]);
      if n < 0 || |f| < n + 1 then None else Some((f[1..n + 1], f[n + 1..]))
  }

  /** Reads the plan's fields in the order in which they are hashed. */
  function ReadProjection(f: seq<Bytes>): Option<Projection> {
    if |f| < 2 then None
    else
      match ReadCounted(f[2..])
      case None => None
      case Some(partitions) =>
        match ReadCounted(partitions.1)
        case None => None
        case Some(dependencies) =>
          match ReadCounted(dependencies.1)
          case None => None
          case Some(barriers) =>
            if |barriers.1| != 1 then None
            else Some(Projection(request := f[0], inputManifest := f[1], partitions := partitions.0,
                                 dependencies := dependencies.0, barriers := barriers.0, coverage := barriers.1[0]))
  }

  /** A counted list is delimited by its count, whatever follows it. */
  lemma CountedReadsBack(fields: seq<Bytes>, after: seq<Bytes>)
    ensures ReadCounted(Counted(fields) + after) == Some((fields, after))
  {
    DecimalReadsBack(|fields|);
    var all := Counted(fields) + after;
    assert all[1..|fields| + 1] == fields && all[|fields| + 1..] == after;
  }

  /** The three counted lists delimit themselves, so the projection reads back as the plan it was made from. */
  lemma ProjectionReadsBack(hash: Bytes -> Bytes, p: Plan)
    requires forall i :: 0 <= i < |p.partitions| ==> EncodablePartition(p.partitions[i])
    ensures ReadProjection(PlanFields(hash, p))
            == Some(Projection(p.request, p.inputManifest, PartitionDigests(hash, p.partitions), p.dependencies,
                               p.barriers, p.coverage))
  {
    hide EncodablePartition, PartitionDigests, Counted, ReadCounted;
    var digests := PartitionDigests(hash, p.partitions);
    var tail := Counted(p.barriers) + [p.coverage];
    var middle := Counted(p.dependencies) + tail;
    CountedReadsBack(digests, middle);
    CountedReadsBack(p.dependencies, tail);
    CountedReadsBack(p.barriers, [p.coverage]);
    SplitHead(PlanFields(hash, p), p.request, p.inputManifest, Counted(digests) + middle);
  }

  lemma SplitHead(fields: seq<Bytes>, a: Bytes, b: Bytes, rest: seq<Bytes>)
    requires fields == [a, b] + rest
    ensures |fields| >= 2 && fields[0] == a && fields[1] == b && fields[2..] == rest
  {
  }

  /** Everything that is hashed on the way to a plan's digest: its partitions' framings and its own. */
  ghost function HashedInputs(hash: Bytes -> Bytes, p: Plan): set<Bytes>
    requires EncodablePlan(hash, p)
  {
    (set i | 0 <= i < |p.partitions| :: Framed([PARTITION_DOMAIN] + PartitionFields(p.partitions[i])))
    + {Framed([PLAN_DOMAIN] + PlanFields(hash, p))}
  }

  /** Unless two of the finitely many inputs hashed for the two plans collide, equal plan digests mean equal plans:
      request, input manifest, coverage, and all three lists in order. */
  lemma {:induction false} PlanDigestDeterminesPlan(hash: Bytes -> Bytes, p: Plan, q: Plan)
    requires EncodablePlan(hash, p) && EncodablePlan(hash, q)
    requires CollisionFree(hash, HashedInputs(hash, p) + HashedInputs(hash, q))
    ensures PlanDigest(hash, p) == PlanDigest(hash, q) <==> p == q
  {
    hide Encodable, PartitionFields, PlanFields, Digest, CollisionFree;
    var inputs := HashedInputs(hash, p) + HashedInputs(hash, q);
    if PlanDigest(hash, p) == PlanDigest(hash, q) {
      DigestInjective(hash, PLAN_DOMAIN, PlanFields(hash, p), PlanFields(hash, q), inputs);
      ProjectionReadsBack(hash, p);
      ProjectionReadsBack(hash, q);
      var dp, dq := PartitionDigests(hash, p.partitions), PartitionDigests(hash, q.partitions);
      assert |dp| == |p.partitions| && |dq| == |q.partitions|;
      forall i | 0 <= i < |p.partitions|
        ensures p.partitions[i] == q.partitions[i]
      {
        assert dp[i] == dq[i];
        DigestInjective(hash, PARTITION_DOMAIN, PartitionFields(p.partitions[i]), PartitionFields(q.partitions[i]),
                        inputs);
        PartitionReadsBack(p.partitions[i]);
        PartitionReadsBack(q.partitions[i]);
      }
      assert p.partitions == q.partitions;
    }
  }
}
