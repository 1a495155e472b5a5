/** Capture-window commits: the source watermark first, the receipt strictly last, and one receipt for good per window
    slot. */
module CaptureCommits {
  import opened Prelude
  import CaptureWindows

  datatype Status = Committed | Empty | Failed

  /** A window's position in its source: where it resumes, and how far it got. */
  datatype Receipt = Receipt(
    product: nat, start: int, end: int, cursor: Option<string>, watermark: Option<string>,
    batch: Option<nat>, status: Status, config: nat, image: nat, policy: nat)

  /** Content-addressed: its identity is the digest of all its fields. */
  datatype SourceWatermark = SourceWatermark(
    product: nat, start: int, end: int, cursor: Option<string>, watermark: Option<string>, config: nat, image: nat,
    policy: nat)

  /** `capture_window_slot_id`: the URI under which a window's receipt is stored. */
  datatype Slot = Slot(product: nat, start: int, end: int, cursor: Option<string>)

  const MAX_POSITION := 1024

  predicate PositionOk(position: Option<string>) { position.Some? ==> 0 < |position.value| <= MAX_POSITION }

  /** `CaptureWindowReceipt.validate_receipt`. */
  predicate ValidReceipt(r: Receipt) {
    && r.start <= r.end && PositionOk(r.cursor) && PositionOk(r.watermark)
    && (r.cursor.Some? || r.watermark.Some?)
    && (r.status != Failed <==> r.batch.Some?)
  }

  /** `SourceWatermark.validate_watermark`. */
  predicate ValidWatermark(w: SourceWatermark) {
    w.start <= w.end && PositionOk(w.cursor) && PositionOk(w.watermark) && (w.cursor.Some? || w.watermark.Some?)
  }

  /** `source_watermark_from_receipt`. */
  function WatermarkOf(r: Receipt): SourceWatermark {
    SourceWatermark(r.product, r.start, r.end, r.cursor, r.watermark, r.config, r.image, r.policy)
  }

  function SlotOf(r: Receipt): Slot { Slot(r.product, r.start, r.end, r.cursor) }

  function WatermarkSlot(w: SourceWatermark): Slot { Slot(w.product, w.start, w.end, w.cursor) }

  /** The control objects that are stored.  Creation is conditional, so nothing stored is ever replaced. */
  datatype Objects = Objects(batches: set<nat>, watermarks: set<SourceWatermark>, receipts: map<Slot, Receipt>)

  const EMPTY_OBJECTS := Objects({}, {}, map[])

  /** Where an interrupted call stops. */
  datatype Fate = StopsBeforeWatermark | StopsBeforeReceipt | StopsAfterReceipt | Runs

  datatype Outcome = Published | NotACommit | MissingBatch | DivergentReceipt | Interrupted

  /** The call passes its guards and its batch verifies. */
  predicate Startable(o: Objects, r: Receipt) { r.status != Failed && r.batch.Some? && r.batch.value in o.batches }

  /** No other receipt holds the slot. */
  predicate SlotAgrees(o: Objects, r: Receipt) { SlotOf(r) in o.receipts ==> o.receipts[SlotOf(r)] == r }

  function WithWatermark(o: Objects, r: Receipt): Objects { o.(watermarks := o.watermarks + {WatermarkOf(r)}) }

  function WithReceipt(o: Objects, r: Receipt): Objects {
    if SlotOf(r) in o.receipts then o else o.(receipts := o.receipts[SlotOf(r) := r])
  }

  /** What one call leaves stored. */
  function After(o: Objects, r: Receipt, fate: Fate): Objects {
    if !Startable(o, r) || fate == StopsBeforeWatermark then o
    else if fate == StopsBeforeReceipt then WithWatermark(o, r)
    else WithReceipt(WithWatermark(o, r), r)
  }

  /** The object store as `publish_capture_window_commit` uses it. */
  class ControlStore {
    var batches: set<nat>
    var watermarks: set<SourceWatermark>
    var receipts: map<Slot, Receipt>

    ghost function Contents(): Objects
      reads this
    {
      Objects(batches, watermarks, receipts)
    }

    /** Create the receipt under its slot: absent, identical replay or conflict. */
    method PutReceipt(r: Receipt) returns (accepted: bool)
      modifies this`receipts
      ensures accepted <==> SlotAgrees(old(Contents()), r)
      ensures Contents() == WithReceipt(old(Contents()), r)
    {
      var slot := SlotOf(r);
      if slot in receipts {
        return receipts[slot] == r;
      }
      receipts := receipts[slot := r];
      return true;
    }

    /** `publish_capture_window_commit`: succeeds exactly for a startable receipt whose slot is free or its own. */
    method PublishCommit(r: Receipt, fate: Fate) returns (outcome: Outcome)
      requires ValidReceipt(r)
      modifies this
      ensures Contents() == After(old(Contents()), r, fate)
      ensures outcome == Published <==> fate == Runs && Startable(old(Contents()), r) && SlotAgrees(old(Contents()), r)
      ensures outcome == Published ==> Fenced(Contents(), SlotOf(r), r) && receipts[SlotOf(r)] == r
      ensures outcome == NotACommit <==> r.status == Failed
      ensures outcome == MissingBatch <==> r.status != Failed && !Startable(old(Contents()), r)
    {
      if r.status == Failed {
        return NotACommit;
      }
      if r.batch.value !in batches {
        return MissingBatch;
      }
      if fate == StopsBeforeWatermark {
        return Interrupted;
      }
      watermarks := watermarks + {WatermarkOf(r)};
      if fate == StopsBeforeReceipt {
        return Interrupted;
      }
      var accepted := PutReceipt(r);
      assert WatermarkOf(r) in watermarks;
      return if fate == StopsAfterReceipt then Interrupted else if accepted then Published else DivergentReceipt;
    }
  }

  // ---------------------------------------------------------------- many captures at once

  datatype Stage = Verified | Marked

  datatype Attempt = Attempt(receipt: Receipt, stage: Stage)

  datatype World = World(objects: Objects, attempts: map<nat, Attempt>)

  datatype Step =
    | StoreBatch(batch: nat)
    | Begin(id: nat, receipt: Receipt)
    | PutWatermark(id: nat)
    | PutReceipt(id: nat)
    | Stop(id: nat)

  const EMPTY_WORLD := World(EMPTY_OBJECTS, map[])

  /** One store access of one capture; a step that is not due changes nothing. */
  function Take(w: World, step: Step): World {
    match step
    case StoreBatch(batch) => w.(objects := w.objects.(batches := w.objects.batches + {batch}))
    case Begin(id, r) =>
      if id !in w.attempts && ValidReceipt(r) && Startable(w.objects, r)
          then w.(attempts := w.attempts[id := Attempt(r, Verified)]) else w
    case PutWatermark(id) =>
      if id in w.attempts && w.attempts[id].stage == Verified then
        World(WithWatermark(w.objects, w.attempts[id].receipt), w.attempts[id := w.attempts[id].(stage := Marked)])
      else w
    case PutReceipt(id) =>
      if id in w.attempts && w.attempts[id].stage == Marked then
        World(WithReceipt(w.objects, w.attempts[id].receipt), w.attempts - {id})
      else w
    case Stop(id) => w.(attempts := w.attempts - {id})
  }

  function Run(w: World, steps: seq<Step>): World {
    if steps == [] then w else Take(Run(w, steps[..|steps| - 1]), steps[|steps| - 1])
  }

  /** A stored receipt lies in its window's slot and names a stored batch; and a watermark is stored that repeats its
      window, how far it got and what it was captured with. */
  ghost predicate Fenced(o: Objects, slot: Slot, r: Receipt) {
    && slot.product == r.product && slot.start == r.start && slot.end == r.end && slot.cursor == r.cursor
    && ValidReceipt(r) && (r.status == Committed || r.status == Empty)
    && r.batch.Some? && r.batch.value in o.batches
    && exists w :: && w in o.watermarks
                   && w.product == r.product && w.start == r.start && w.end == r.end && w.cursor == r.cursor
                   && w.watermark == r.watermark && w.config == r.config && w.image == r.image && w.policy == r.policy
  }

  ghost predicate Invariant(w: World) {
    && (forall slot :: slot in w.objects.receipts ==> Fenced(w.objects, slot, w.objects.receipts[slot]))
    && (forall watermark :: watermark in w.objects.watermarks ==> ValidWatermark(watermark))
    && (forall id :: id in w.attempts ==>
          && ValidReceipt(w.attempts[id].receipt) && Startable(w.objects, w.attempts[id].receipt)
          && (w.attempts[id].stage == Marked ==> WatermarkOf(w.attempts[id].receipt) in w.objects.watermarks))
  }

  ghost predicate Grows(o: Objects, later: Objects) {
    && o.batches <= later.batches && o.watermarks <= later.watermarks
    && forall slot :: slot in o.receipts ==> slot in later.receipts && later.receipts[slot] == o.receipts[slot]
  }

  lemma StorePreserves(o: Objects, later: Objects, attempts: map<nat, Attempt>)
    requires Invariant(World(o, attempts)) && Grows(o, later)
    requires forall slot :: slot in later.receipts && slot !in o.receipts ==> Fenced(later, slot, later.receipts[slot])
    requires forall watermark :: watermark in later.watermarks && watermark !in o.watermarks ==>
              ValidWatermark(watermark)
    ensures Invariant(World(later, attempts))
  {
  }

  lemma TakeKeepsInvariant(w: World, step: Step)
    requires Invariant(w)
    ensures Invariant(Take(w, step)) && Grows(w.objects, Take(w, step).objects)
  {
    var later := Take(w, step).objects;
    assert Grows(w.objects, later);
    forall slot | slot in later.receipts && slot !in w.objects.receipts
      ensures Fenced(later, slot, later.receipts[slot])
    {
      assert WatermarkOf(later.receipts[slot]) in later.watermarks;
    }
    StorePreserves(w.objects, later, w.attempts);
  }

  lemma {:induction false} RunKeepsInvariant(w: World, steps: seq<Step>)
    requires Invariant(w)
    ensures Invariant(Run(w, steps)) && Grows(w.objects, Run(w, steps).objects)
    decreases |steps|
  {
    if steps != [] {
      var before := Run(w, steps[..|steps| - 1]);
      RunKeepsInvariant(w, steps[..|steps| - 1]);
      TakeKeepsInvariant(before, steps[|steps| - 1]);
    }
  }

  /** Under every interleaving and all stops, a stored receipt implies its batch and its watermark, and the first
      receipt of a slot is its receipt for good. */
  lemma ReceiptFenceHoldsForever(steps: seq<Step>, more: seq<Step>, slot: Slot)
    requires slot in Run(EMPTY_WORLD, steps).objects.receipts
    ensures var r := Run(EMPTY_WORLD, steps).objects.receipts[slot];
            var later := Run(Run(EMPTY_WORLD, steps), more).objects;
            && Fenced(Run(EMPTY_WORLD, steps).objects, slot, r)
            && slot in later.receipts && later.receipts[slot] == r && Fenced(later, slot, r)
  {
    RunKeepsInvariant(EMPTY_WORLD, steps);
    RunKeepsInvariant(Run(EMPTY_WORLD, steps), more);
  }

  /** Positions stay within their bound: no schedule stores a watermark that could not resume a capture. */
  lemma StoredPositionsAreBounded(steps: seq<Step>)
    ensures forall w :: w in Run(EMPTY_WORLD, steps).objects.watermarks ==>
              && w.start <= w.end && (w.cursor.Some? || w.watermark.Some?)
              && (w.cursor.Some? ==> 0 < |w.cursor.value| <= 1024)
              && (w.watermark.Some? ==> 0 < |w.watermark.value| <= 1024)
  {
    RunKeepsInvariant(EMPTY_WORLD, steps);
  }

  function CallSteps(id: nat, r: Receipt, fate: Fate): seq<Step> {
    match fate
    case StopsBeforeWatermark => [Begin(id, r), Stop(id)]
    case StopsBeforeReceipt => [Begin(id, r), PutWatermark(id), Stop(id)]
    case _ => [Begin(id, r), PutWatermark(id), PutReceipt(id)]
  }

  lemma RunTwo(w: World, a: Step, b: Step)
    ensures Run(w, [a, b]) == Take(Take(w, a), b)
  {
    assert [a, b][..1] == [a] && [a][..0] == [];
    assert Run(w, [a]) == Take(w, a);
  }

  lemma RunThree(w: World, a: Step, b: Step, c: Step)
    ensures Run(w, [a, b, c]) == Take(Take(Take(w, a), b), c)
  {
    assert [a, b, c][..2] == [a, b];
    RunTwo(w, a, b);
  }

  /** Every call, interrupted anywhere, is a schedule of the interleaved protocol. */
  lemma CallIsSchedule(w: World, id: nat, r: Receipt, fate: Fate)
    requires ValidReceipt(r) && id !in w.attempts
    ensures Run(w, CallSteps(id, r, fate)) == World(After(w.objects, r, fate), w.attempts)
  {
    var begun := Take(w, Begin(id, r));
    assert begun.attempts - {id} == w.attempts;
    match fate
    case StopsBeforeWatermark => RunTwo(w, Begin(id, r), Stop(id));
    case StopsBeforeReceipt =>
      RunThree(w, Begin(id, r), PutWatermark(id), Stop(id));
      assert Take(begun, PutWatermark(id)).attempts - {id} == w.attempts;
    case _ =>
      RunThree(w, Begin(id, r), PutWatermark(id), PutReceipt(id));
      assert Take(begun, PutWatermark(id)).attempts - {id} == w.attempts;
  }

  // ---------------------------------------------------------------- retries

  function AfterAll(o: Objects, r: Receipt, fates: seq<Fate>): Objects {
    if fates == [] then o else After(AfterAll(o, r, fates[..|fates| - 1]), r, fates[|fates| - 1])
  }

  /** However often a commit is interrupted, one undisturbed retry ends as a single undisturbed call, with the same
      outcome. */
  lemma {:induction false} RetryConverges(o: Objects, r: Receipt, fates: seq<Fate>)
    ensures After(AfterAll(o, r, fates), r, Runs) == After(o, r, Runs)
    ensures Startable(AfterAll(o, r, fates), r) <==> Startable(o, r)
    ensures SlotAgrees(AfterAll(o, r, fates), r) <==> SlotAgrees(o, r)
    decreases |fates|
  {
    if fates != [] {
      RetryConverges(o, r, fates[..|fates| - 1]);
    }
  }

  // ---------------------------------------------------------------- watermarks without a receipt

  /** Every stored watermark is that of the receipt in its slot, so it is safe to resume from. */
  ghost predicate Backed(o: Objects) {
    forall w :: w in o.watermarks ==> WatermarkSlot(w) in o.receipts && WatermarkOf(o.receipts[WatermarkSlot(w)]) == w
  }

  /** A divergent call is refused only after its watermark is stored: watermarks stay backed exactly if the slot is free
      or holds a receipt of the same watermark. */
  lemma BackedIffSlotAgrees(o: Objects, r: Receipt)
    requires Backed(o) && Startable(o, r)
    ensures Backed(After(o, r, Runs)) <==>
              (SlotOf(r) in o.receipts ==> WatermarkOf(o.receipts[SlotOf(r)]) == WatermarkOf(r))
    ensures Backed(After(o, r, StopsBeforeReceipt)) <==>
              SlotOf(r) in o.receipts && WatermarkOf(o.receipts[SlotOf(r)]) == WatermarkOf(r)
  {
    assert WatermarkSlot(WatermarkOf(r)) == SlotOf(r);
    var after, stopped := After(o, r, Runs), After(o, r, StopsBeforeReceipt);
    assert WatermarkOf(r) in after.watermarks && WatermarkOf(r) in stopped.watermarks;
  }

  /** Two captures of one window to its end, under different configurations: the second is refused and its watermark
      stays. */
  lemma LosingWatermarkStays()
    ensures var first := Receipt(0, 0, 1, None, Some("a"), Some(0), Committed, 0, 0, 0);
            var second := first.(config := 1);
            var o := After(Objects({0}, {}, map[]), first, Runs);
            && ValidReceipt(first) && ValidReceipt(second) && Backed(o)
            && !SlotAgrees(o, second) && !Backed(After(o, second, Runs))
  {
    var first := Receipt(0, 0, 1, None, Some("a"), Some(0), Committed, 0, 0, 0);
    var second := first.(config := 1);
    var o := After(Objects({0}, {}, map[]), first, Runs);
    assert WatermarkOf(o.receipts[SlotOf(second)]) != WatermarkOf(second);
    BackedIffSlotAgrees(o, second);
  }

  // ---------------------------------------------------------------- one receipt per planned window

  function CommitAll(o: Objects, receipts: seq<Receipt>): Objects {
    if receipts == [] then o else After(CommitAll(o, receipts[..|receipts| - 1]), receipts[|receipts| - 1], Runs)
  }

  ghost predicate SlotsDistinct(receipts: seq<Receipt>) {
    forall i, j :: 0 <= i < j < |receipts| ==> SlotOf(receipts[i]) != SlotOf(receipts[j])
  }

  /** Receipts of different slots never stand in each other's way: each is stored, and nothing else is. */
  lemma {:induction false} DistinctSlotsAllCommit(o: Objects, receipts: seq<Receipt>)
    requires SlotsDistinct(receipts)
    requires forall r :: r in receipts ==> Startable(o, r) && SlotOf(r) !in o.receipts
    ensures CommitAll(o, receipts).batches == o.batches
    ensures forall r :: r in receipts ==>
              SlotOf(r) in CommitAll(o, receipts).receipts && CommitAll(o, receipts).receipts[SlotOf(r)] == r
    ensures CommitAll(o, receipts).receipts.Keys == o.receipts.Keys + set r | r in receipts :: SlotOf(r)
    decreases |receipts|
  {
    if receipts != [] {
      var earlier, r := receipts[..|receipts| - 1], receipts[|receipts| - 1];
      assert receipts == earlier + [r];
      DistinctSlotsAllCommit(o, earlier);
      assert SlotOf(r) !in CommitAll(o, earlier).receipts;
    }
  }

  /** The receipt of planned window `i` carries the window's cursor. */
  ghost predicate ReceiptsOf(plans: seq<CaptureWindows.Plan>, render: CaptureWindows.Cursor -> string,
                             receipts: seq<Receipt>) {
    && |receipts| == |plans|
    && forall i :: 0 <= i < |plans| ==>
                     && receipts[i].product == plans[i].product && receipts[i].start == plans[i].start
                     && receipts[i].end == plans[i].end
                     && receipts[i].cursor == Some(render(plans[i].cursor))
  }

  /** The cursor digests of one plan do not collide. */
  ghost predicate RendersApart(render: CaptureWindows.Cursor -> string, plans: seq<CaptureWindows.Plan>) {
    forall i, j :: 0 <= i < |plans| && 0 <= j < |plans| && render(plans[i].cursor) == render(plans[j].cursor) ==>
                     plans[i].cursor == plans[j].cursor
  }

  /** Committing every planned window, in order, leaves one receipt per window, each under its own slot. */
  lemma PlannedWindowsAllCommit(o: Objects, render: CaptureWindows.Cursor -> string, product: nat, start: int, end: int,
                                keys: seq<string>, maxItems: nat, watermark: Option<string>, receipts: seq<Receipt>)
    requires maxItems > 0
    requires RendersApart(render, CaptureWindows.PlansOf(product, start, end, keys, maxItems, watermark))
    requires ReceiptsOf(CaptureWindows.PlansOf(product, start, end, keys, maxItems, watermark), render, receipts)
    requires forall r :: r in receipts ==> Startable(o, r) && SlotOf(r) !in o.receipts
    ensures forall r :: r in receipts ==>
              SlotOf(r) in CommitAll(o, receipts).receipts && CommitAll(o, receipts).receipts[SlotOf(r)] == r
    ensures |CommitAll(o, receipts).receipts.Keys - o.receipts.Keys| == CaptureWindows.ShardCount(|keys|, maxItems)
  {
    var plans := CaptureWindows.PlansOf(product, start, end, keys, maxItems, watermark);
    forall i, j | 0 <= i < j < |receipts|
      ensures SlotOf(receipts[i]) != SlotOf(receipts[j])
    {
      CaptureWindows.CursorsDistinct(product, start, end, keys, maxItems, watermark, i, j);
      assert plans[i].cursor != plans[j].cursor;
    }
    DistinctSlotsAllCommit(o, receipts);
    var slots := seq(|receipts|, i requires 0 <= i < |receipts| => SlotOf(receipts[i]));
    DistinctCount(slots);
    assert forall i :: 0 <= i < |receipts| ==> slots[i] == SlotOf(receipts[i]);
    assert CommitAll(o, receipts).receipts.Keys - o.receipts.Keys == set s | s in slots;
  }
}
