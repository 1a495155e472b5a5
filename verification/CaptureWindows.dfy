/** Bounded capture windows: ceiling division over an ordered inventory, validated, selected by cursor, and tiled. */
module CaptureWindows {
  import opened Prelude

  /** The hashed cursor fields; the digest is injective, so the fields stand for the cursor. */
  datatype Cursor = Cursor(product: nat, start: int, end: int, keys: seq<string>, offset: nat, count: nat)

  datatype Plan = Plan(
    product: nat, start: int, end: int, cursor: Cursor, watermark: Option<string>, keys: seq<string>,
    offset: int, count: int, total: int, maxItems: int, index: int, shards: int)

  datatype WindowError = BadLimit | BadKey | DuplicateKeys | ReversedWindow | NoPlans | AmbiguousWindow | UnknownCursor

  function ShardCount(total: nat, maxItems: nat): (n: nat)
    requires maxItems > 0
    ensures n >= 1
  {
    Max(1, (total + maxItems - 1) / maxItems)
  }

  /** `CaptureWindowPlan.validate_plan`. */
  predicate ValidPlan(p: Plan) {
    && p.maxItems > 0 && p.total >= 0 && p.index >= 0 && p.offset >= 0 && p.count >= 0
    && p.start <= p.end
    && p.shards == ShardCount(p.total, p.maxItems)
    && p.index < p.shards
    && p.offset == p.index * p.maxItems
    && p.count == Min(p.maxItems, Max(0, p.total - p.offset))
  }

  function CountAt(total: nat, maxItems: nat, i: nat): nat {
    if total <= i * maxItems then 0 else Min(maxItems, total - i * maxItems)
  }

  function PlanAt(product: nat, start: int, end: int, keys: seq<string>, maxItems: nat, watermark: Option<string>,
                  i: nat): Plan
    requires maxItems > 0
  {
    var offset := i * maxItems;
    var count := CountAt(|keys|, maxItems, i);
    Plan(product, start, end, Cursor(product, start, end, keys, offset, count), watermark, keys,
         offset, count, |keys|, maxItems, i, ShardCount(|keys|, maxItems))
  }

  function PlansOf(product: nat, start: int, end: int, keys: seq<string>, maxItems: nat,
                   watermark: Option<string>): seq<Plan>
    requires maxItems > 0
  {
    seq(ShardCount(|keys|, maxItems),
        i requires 0 <= i < ShardCount(|keys|, maxItems) => PlanAt(product, start, end, keys, maxItems, watermark, i))
  }

  /** `plan_bounded_capture_windows`. */
  method PlanWindows(product: nat, start: int, end: int, keys: seq<string>, maxItems: int, watermark: Option<string>)
    returns (r: Result<seq<Plan>, WindowError>)
    ensures r.Ok? <==> maxItems >= 1 && (forall k :: k in keys ==> 0 < |k| <= 2048) && Distinct(keys) && start <= end
    ensures r.Ok? ==> r.value == PlansOf(product, start, end, keys, maxItems, watermark)
  {
    if maxItems < 1 {
      return Err(BadLimit);
    }
    if exists k :: k in keys && !(0 < |k| <= 2048) {
      return Err(BadKey);
    }
    DistinctCount(keys);
    if |set k | k in keys| != |keys| {
      return Err(DuplicateKeys);
    }
    if end < start {
      return Err(ReversedWindow);
    }
    var total := |keys|;
    var shards := ShardCount(total, maxItems);
    var plans: seq<Plan> := [];
    for i := 0 to shards
      invariant plans == PlansOf(product, start, end, keys, maxItems, watermark)[..i]
    {
      OffsetNonNegative(i, maxItems);
      var offset := i * maxItems;
      var count := Min(maxItems, Max(0, total - offset));
      var cursor := Cursor(product, start, end, keys, offset, count);
      var plan := Plan(product, start, end, cursor, watermark, keys, offset, count, total, maxItems, i, shards);
      assert plan == PlanAt(product, start, end, keys, maxItems, watermark, i);
      plans := plans + [plan];
    }
    return Ok(plans);
  }

  lemma OffsetNonNegative(i: nat, maxItems: nat)
    ensures i * maxItems >= 0
  {
  }

  /** Every planned window passes the plan validator. */
  lemma PlansAreValid(product: nat, start: int, end: int, keys: seq<string>, maxItems: nat, watermark: Option<string>,
                      i: nat)
    requires maxItems > 0 && start <= end && i < ShardCount(|keys|, maxItems)
    ensures ValidPlan(PlansOf(product, start, end, keys, maxItems, watermark)[i])
  {
    OffsetNonNegative(i, maxItems);
  }

  // ---------------------------------------------------------------- the windows tile the inventory

  /** The keys a window selects. */
  function WindowKeys(keys: seq<string>, maxItems: nat, i: nat): seq<string> {
    KeysFrom(keys, maxItems, i * maxItems)
  }

  function KeysFrom(keys: seq<string>, maxItems: nat, offset: nat): seq<string> {
    if |keys| <= offset then [] else keys[offset..offset + Min(maxItems, |keys| - offset)]
  }

  /** A window's key list has the length its plan declares. */
  lemma WindowKeysCount(keys: seq<string>, maxItems: nat, i: nat)
    ensures |WindowKeys(keys, maxItems, i)| == CountAt(|keys|, maxItems, i)
  {
    OffsetNonNegative(i, maxItems);
  }

  /** The keys of the first `n` windows, in order. */
  function Covered(keys: seq<string>, maxItems: nat, n: nat): seq<string> {
    if n == 0 then [] else Covered(keys, maxItems, n - 1) + WindowKeys(keys, maxItems, n - 1)
  }

  lemma NextOffset(maxItems: nat, n: nat)
    requires n > 0
    ensures n * maxItems == (n - 1) * maxItems + maxItems
  {
  }

  lemma PrefixStep(keys: seq<string>, maxItems: nat, offset: nat)
    ensures keys[..Min(|keys|, offset)] + KeysFrom(keys, maxItems, offset) == keys[..Min(|keys|, offset + maxItems)]
  {
  }

  lemma {:induction false} CoveredIsPrefix(keys: seq<string>, maxItems: nat, n: nat)
    ensures n * maxItems >= 0 && Covered(keys, maxItems, n) == keys[..Min(|keys|, n * maxItems)]
  {
    hide KeysFrom;
    OffsetNonNegative(n, maxItems);
    if n == 0 {
      assert 0 * maxItems == 0;
    } else {
      CoveredIsPrefix(keys, maxItems, n - 1);
      OffsetNonNegative(n - 1, maxItems);
      NextOffset(maxItems, n);
      PrefixStep(keys, maxItems, (n - 1) * maxItems);
    }
  }

  /** The ceiling quotient is enough windows, and one fewer is not. */
  lemma CeilingCovers(total: nat, maxItems: nat)
    requires maxItems > 0
    ensures total <= ShardCount(total, maxItems) * maxItems
    ensures total > 0 ==> (ShardCount(total, maxItems) - 1) * maxItems < total
  {
    var q := (total + maxItems - 1) / maxItems;
    assert total + maxItems - 1 == maxItems * q + (total + maxItems - 1) % maxItems;
    assert maxItems * q == q * maxItems;
    if q >= 1 {
      NextOffset(maxItems, q);
    } else {
      assert q == 0 && maxItems * 0 == 0;
    }
  }

  lemma EarlierOffset(maxItems: nat, i: nat, n: nat)
    requires i < n
    ensures i * maxItems <= (n - 1) * maxItems
  {
    if i < n - 1 {
      MulStep(maxItems, n - 1, i);
      assert maxItems * (n - 1) == (n - 1) * maxItems && maxItems * i == i * maxItems;
    }
  }

  /** Nothing is dropped at the limit: the windows, in order, are the inventory; only an empty inventory has an
      empty window, and each window selects as many keys as its plan declares. */
  lemma WindowsTileInventory(keys: seq<string>, maxItems: nat)
    requires maxItems > 0
    ensures Covered(keys, maxItems, ShardCount(|keys|, maxItems)) == keys
    ensures keys != [] ==> forall i :: 0 <= i < ShardCount(|keys|, maxItems) ==>
              0 < |WindowKeys(keys, maxItems, i)| <= maxItems
    ensures forall i :: 0 <= i < ShardCount(|keys|, maxItems) ==>
              |WindowKeys(keys, maxItems, i)| == CountAt(|keys|, maxItems, i)
  {
    forall i | 0 <= i < ShardCount(|keys|, maxItems)
      ensures |WindowKeys(keys, maxItems, i)| == CountAt(|keys|, maxItems, i)
    {
      WindowKeysCount(keys, maxItems, i);
    }
    CeilingCovers(|keys|, maxItems);
    CoveredIsPrefix(keys, maxItems, ShardCount(|keys|, maxItems));
    if keys != [] {
      forall i | 0 <= i < ShardCount(|keys|, maxItems)
        ensures 0 < |WindowKeys(keys, maxItems, i)| <= maxItems
      {
        OffsetNonNegative(i, maxItems);
        EarlierOffset(maxItems, i, ShardCount(|keys|, maxItems));
      }
    }
  }

  // ---------------------------------------------------------------- what a plan says

  /** A plan over its whole inventory passes the validator exactly if it is, but for its cursor, the window that the
      planner gives to its index. */
  lemma ValidIffPlanned(p: Plan)
    requires p.total == |p.keys|
    ensures ValidPlan(p) <==>
              && p.maxItems > 0 && p.start <= p.end
              && 0 <= p.index < |PlansOf(p.product, p.start, p.end, p.keys, p.maxItems, p.watermark)|
              && var planned := PlansOf(p.product, p.start, p.end, p.keys, p.maxItems, p.watermark)[p.index];
                 p == planned.(cursor := p.cursor)
  {
    if p.maxItems > 0 && p.index >= 0 {
      OffsetNonNegative(p.index, p.maxItems);
    }
  }

  /** The stretch of its inventory that a plan selects. */
  function Selected(p: Plan): seq<string>
    requires 0 <= p.offset && 0 <= p.count && (p.count > 0 ==> p.offset + p.count <= |p.keys|)
  {
    if p.count == 0 then [] else p.keys[p.offset..p.offset + p.count]
  }

  /** Each planned window repeats the inventory and window it was planned for, counts its place among the windows, and
      selects its part of the tiling; its cursor repeats what it selects. */
  lemma PlanSelects(product: nat, start: int, end: int, keys: seq<string>, maxItems: nat, watermark: Option<string>,
                    i: nat)
    requires maxItems > 0 && i < ShardCount(|keys|, maxItems)
    ensures var plans := PlansOf(product, start, end, keys, maxItems, watermark);
            var p := plans[i];
            && p.product == product && p.start == start && p.end == end && p.keys == keys && p.watermark == watermark
            && p.total == |keys| && p.maxItems == maxItems && p.index == i && p.shards == |plans|
            && 0 <= p.offset && 0 <= p.count && (p.count > 0 ==> p.offset + p.count <= |keys|)
            && Selected(p) == WindowKeys(keys, maxItems, i)
            && p.cursor.product == product && p.cursor.start == start && p.cursor.end == end && p.cursor.keys == keys
            && p.cursor.offset == p.offset && p.cursor.count == p.count
  {
    OffsetNonNegative(i, maxItems);
  }

  // ---------------------------------------------------------------- selection by cursor

  function Matching(plans: seq<Plan>, cursor: Cursor): seq<Plan> {
    if plans == [] then []
    else
      var n := |plans| - 1;
      Matching(plans[..n], cursor) + (if plans[n].cursor == cursor then [plans[n]] else [])
  }

  /** `select_capture_window`: the only plan, or the only plan with the given cursor. */
  method SelectWindow(plans: seq<Plan>, cursor: Option<Cursor>) returns (r: Result<Plan, WindowError>)
    ensures cursor.None? ==> (r.Ok? <==> |plans| == 1) && (r.Ok? ==> r.value == plans[0])
    ensures cursor.Some? ==> (r.Ok? <==> |Matching(plans, cursor.value)| == 1)
    ensures cursor.Some? && r.Ok? ==> r.value in plans && r.value.cursor == cursor.value
  {
    if plans == [] {
      return Err(NoPlans);
    }
    if cursor.None? {
      if |plans| == 1 {
        return Ok(plans[0]);
      }
      return Err(AmbiguousWindow);
    }
    var matches: seq<Plan> := [];
    for i := 0 to |plans|
      invariant matches == Matching(plans[..i], cursor.value)
      invariant forall a :: 0 <= a < |matches| ==> matches[a] in plans && matches[a].cursor == cursor.value
    {
      assert plans[..i + 1][..i] == plans[..i];
      if plans[i].cursor == cursor.value {
        matches := matches + [plans[i]];
      }
    }
    assert plans[..|plans|] == plans;
    if |matches| != 1 {
      return Err(UnknownCursor);
    }
    return Ok(matches[0]);
  }

  lemma {:induction false} OneMatch(plans: seq<Plan>, i: nat)
    requires i < |plans| && forall j :: 0 <= j < |plans| && j != i ==> plans[j].cursor != plans[i].cursor
    ensures Matching(plans, plans[i].cursor) == [plans[i]]
    decreases |plans|
  {
    var n := |plans| - 1;
    if i < n {
      OneMatch(plans[..n], i);
    } else {
      NoMatch(plans[..n], plans[i].cursor);
    }
  }

  lemma {:induction false} NoMatch(plans: seq<Plan>, cursor: Cursor)
    requires forall j :: 0 <= j < |plans| ==> plans[j].cursor != cursor
    ensures Matching(plans, cursor) == []
    decreases |plans|
  {
    if plans != [] {
      NoMatch(plans[..|plans| - 1], cursor);
    }
  }

  /** Cursors tell the windows apart, so each of them selects its own window. */
  lemma CursorsDistinct(product: nat, start: int, end: int, keys: seq<string>, maxItems: nat,
                        watermark: Option<string>, i: nat, j: nat)
    requires maxItems > 0 && i < j < ShardCount(|keys|, maxItems)
    ensures var plans := PlansOf(product, start, end, keys, maxItems, watermark); plans[i].cursor != plans[j].cursor
  {
    MulStep(maxItems, j, i);
    assert maxItems * j == j * maxItems && maxItems * i == i * maxItems;
  }

  /** Selecting with a planned window's own cursor returns that window. */
  lemma CursorSelectsItsWindow(product: nat, start: int, end: int, keys: seq<string>, maxItems: nat,
                               watermark: Option<string>, i: nat)
    requires maxItems > 0 && i < ShardCount(|keys|, maxItems)
    ensures var plans := PlansOf(product, start, end, keys, maxItems, watermark);
            Matching(plans, plans[i].cursor) == [plans[i]]
  {
    var plans := PlansOf(product, start, end, keys, maxItems, watermark);
    forall j | 0 <= j < |plans| && j != i
      ensures plans[j].cursor != plans[i].cursor
    {
      if j < i {
        CursorsDistinct(product, start, end, keys, maxItems, watermark, j, i);
      } else {
        CursorsDistinct(product, start, end, keys, maxItems, watermark, i, j);
      }
    }
    OneMatch(plans, i);
  }

  /** Running each cursor once covers each key exactly once. */
  lemma EachKeyInOneWindow(keys: seq<string>, maxItems: nat, i: nat, j: nat, key: string)
    requires maxItems > 0 && Distinct(keys)
    requires key in WindowKeys(keys, maxItems, i) && key in WindowKeys(keys, maxItems, j)
    ensures i == j
  {
    var a := KeyPosition(keys, maxItems, i, key);
    var b := KeyPosition(keys, maxItems, j, key);
    assert a == b;
    SameWindow(maxItems, a, i, j);
  }

  lemma KeyPosition(keys: seq<string>, maxItems: nat, i: nat, key: string) returns (position: nat)
    requires key in WindowKeys(keys, maxItems, i)
    ensures position < |keys| && keys[position] == key
    ensures i * maxItems <= position < i * maxItems + maxItems
  {
    OffsetNonNegative(i, maxItems);
    var a :| 0 <= a < |WindowKeys(keys, maxItems, i)| && WindowKeys(keys, maxItems, i)[a] == key;
    position := i * maxItems + a;
  }

  lemma SameWindow(maxItems: nat, position: nat, i: nat, j: nat)
    requires i * maxItems <= position < i * maxItems + maxItems
    requires j * maxItems <= position < j * maxItems + maxItems
    ensures i == j
  {
    if i < j {
      MulStep(maxItems, j, i);
    } else if j < i {
      MulStep(maxItems, i, j);
    }
  }
}
