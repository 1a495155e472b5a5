/** Source removal: the plan, its execution under arbitrary callback failure, and the receipt. */
module SourceRemoval {
  import opened Prelude

  datatype Action = RightsFence | PurgeRestricted | ReGold | ReIndex

  datatype Fence = Fence(product: nat, purgeRequired: bool)

  datatype Impact = Impact(assertions: nat, entities: nat, releases: nat, indexes: nat)

  datatype Target = Target(id: string, product: nat, uri: string)

  datatype Plan = Plan(fence: Fence, impact: Impact, actions: set<Action>, targets: seq<Target>, dryRun: bool,
                       allowlist: seq<string>)

  datatype RemovalError =
    | NotConfirmed | DryRun | DuplicateTargets | WrongActions | ForeignTarget | PurgeNotAuthorized | NoAllowlist
    | OutsideAllowlist
    | BadReceipt

  // ---------------------------------------------------------------- plans

  /** `_uri_within_prefix` for already validated URIs. */
  predicate Within(uri: string, prefix: string) { prefix <= uri }

  function TargetIds(targets: seq<Target>): seq<string> {
    seq(|targets|, i requires 0 <= i < |targets| => targets[i].id)
  }

  /** `SourceRemovalPlan.validate_plan`, with the field validators that concern more than one field's text. */
  ghost predicate ValidPlan(p: Plan) {
    && Distinct(TargetIds(p.targets))
    && RightsFence in p.actions
    && (ReGold in p.actions <==> p.impact.assertions > 0 || p.impact.entities > 0 || p.impact.releases > 0)
    && (ReIndex in p.actions <==> ReGold in p.actions || p.impact.indexes > 0)
    && (PurgeRestricted in p.actions <==> p.fence.purgeRequired && p.targets != [])
    && (forall t :: t in p.targets ==> t.product == p.fence.product)
    && (p.targets != [] ==> p.fence.purgeRequired)
    && (!p.dryRun ==> p.allowlist != [] && forall t :: t in p.targets ==>
        exists a :: a in p.allowlist && a <= t.uri)
  }

  /** `build_source_removal_plan`: the action set grows branch by branch, then the plan validates itself. */
  method BuildPlan(fence: Fence, impact: Impact, targets: seq<Target>, dryRun: bool, confirm: Option<nat>,
                   allowlist: seq<string>)
    returns (r: Result<Plan, RemovalError>)
    ensures r.Ok? ==> ValidPlan(r.value)
    ensures r.Ok? ==> r.value.fence == fence && r.value.impact == impact && r.value.targets == targets
                      && r.value.dryRun == dryRun && r.value.allowlist == allowlist
    ensures r.Ok? <==>
              && (dryRun || confirm == Some(fence.product))
              && (exists p :: ValidPlan(p) && p.fence == fence && p.impact == impact && p.targets == targets
                              && p.dryRun == dryRun && p.allowlist == allowlist)
  {
    if !dryRun && confirm != Some(fence.product) {
      return Err(NotConfirmed);
    }
    var actions := {RightsFence};
    if impact.assertions > 0 || impact.entities > 0 || impact.releases > 0 {
      actions := actions + {ReGold, ReIndex};
    } else if impact.indexes > 0 {
      actions := actions + {ReIndex};
    }
    if fence.purgeRequired && targets != [] {
      actions := actions + {PurgeRestricted};
    }
    var p := Plan(fence, impact, actions, targets, dryRun, allowlist);
    DistinctCount(TargetIds(targets));
    if |set id | id in TargetIds(targets)| != |targets| {
      return Err(DuplicateTargets);
    }
    if exists t :: t in targets && t.product != fence.product {
      return Err(ForeignTarget);
    }
    if targets != [] && !fence.purgeRequired {
      return Err(PurgeNotAuthorized);
    }
    if !dryRun {
      if allowlist == [] {
        return Err(NoAllowlist);
      }
      if exists t :: t in targets && !(exists a :: a in allowlist && Within(t.uri, a)) {
        return Err(OutsideAllowlist);
      }
    }
    assert ValidPlan(p);
    return Ok(p);
  }

  // ---------------------------------------------------------------- callbacks and what they did

  /** A rebuild callback raises, or returns an ID (well formed or not), or returns nothing. */
  datatype Rebuild = Raised | Returned(id: nat) | ReturnedMalformed | ReturnedNothing

  /** How each callback behaves when it is called. */
  datatype Script = Script(install: bool, purge: string -> bool, gold: Rebuild, index: Rebuild)

  datatype Effect = Installed | Purged(id: string) | Rebuilt | Reindexed

  datatype Failure = FenceFailed | PurgeFailed(id: string) | GoldFailed | IndexFailed

  datatype Status = Completed | Partial | Failed

  datatype Receipt = Receipt(
    plan: Plan, status: Status, fenceInstalled: bool, purged: set<string>, gold: Option<nat>, index: Option<nat>,
    errors: seq<Failure>)

  /** `SourceRemovalReceipt.validate_receipt`. */
  ghost predicate ValidReceipt(r: Receipt) {
    var planned := set id | id in TargetIds(r.plan.targets);
    && !r.plan.dryRun
    && r.purged <= planned
    && (if r.status == Completed then
          && r.errors == [] && r.fenceInstalled
          && (PurgeRestricted in r.plan.actions ==> r.purged == planned)
          && (ReGold in r.plan.actions ==> r.gold.Some?)
          && (ReIndex in r.plan.actions ==> r.index.Some?)
        else r.errors != [])
  }

  // ---------------------------------------------------------------- the simple meaning of an execution

  predicate Purging(p: Plan, s: Script) { s.install && PurgeRestricted in p.actions }

  ghost predicate PurgeSucceeds(p: Plan, s: Script) {
    s.install && (PurgeRestricted in p.actions ==> forall t :: t in p.targets ==> s.purge(t.id))
  }

  ghost predicate GoldCalled(p: Plan, s: Script) { PurgeSucceeds(p, s) && ReGold in p.actions }

  ghost predicate GoldSucceeds(p: Plan, s: Script) { PurgeSucceeds(p, s) && (ReGold in p.actions ==> !s.gold.Raised?) }

  ghost predicate IndexCalled(p: Plan, s: Script) { GoldSucceeds(p, s) && ReIndex in p.actions }

  /** Every planned action was carried out without an exception. */
  ghost predicate AllSucceed(p: Plan, s: Script) { GoldSucceeds(p, s) && (ReIndex in p.actions ==> !s.index.Raised?) }

  function Purges(targets: seq<Target>): seq<Effect> {
    seq(|targets|, i requires 0 <= i < |targets| => Purged(targets[i].id))
  }

  /** The callbacks in the order they are called. */
  ghost function Calls(p: Plan, s: Script): seq<Effect> {
    [Installed] + (if Purging(p, s) then Purges(p.targets) else [])
    + (if GoldCalled(p, s) then [Rebuilt] else []) + (if IndexCalled(p, s) then [Reindexed] else [])
  }

  /** The rebuild callbacks that are called and do not raise return a well-formed ID.  (A missing Gold ID goes
      unnoticed only when the index rebuild fails afterwards.) */
  ghost predicate WellFormedReturns(p: Plan, s: Script) {
    && (GoldCalled(p, s) ==>
          s.gold.Raised? || s.gold.Returned? || (s.gold.ReturnedNothing? && IndexCalled(p, s) && s.index.Raised?))
    && (IndexCalled(p, s) ==> s.index.Raised? || s.index.Returned?)
  }

  function PurgedIds(targets: seq<Target>, purge: string -> bool): set<string> {
    set t | t in targets && purge(t.id) :: t.id
  }

  /** What went wrong, and nothing else, is listed. */
  ghost predicate ListsFailures(p: Plan, s: Script, errors: seq<Failure>) {
    && (FenceFailed in errors <==> !s.install)
    && (forall id :: PurgeFailed(id) in errors <==>
                       Purging(p, s) && exists t :: t in p.targets && t.id == id && !s.purge(id))
    && (GoldFailed in errors <==> GoldCalled(p, s) && s.gold.Raised?)
    && (IndexFailed in errors <==> IndexCalled(p, s) && s.index.Raised?)
  }

  /** `execute_source_removal`.  The fence comes first and gates everything else; once purging starts every target is
      attempted, in order; rebuilds run only if nothing failed before.  A receipt is issued, and is valid, exactly when
      the rebuild callbacks return well-formed IDs; it says Completed exactly when every planned action succeeded. */
  method ExecuteRemoval(p: Plan, confirm: nat, s: Script) returns (r: Result<Receipt, RemovalError>, calls: seq<Effect>)
    requires ValidPlan(p)
    ensures p.dryRun || confirm != p.fence.product ==> r.Err? && calls == []
    ensures !p.dryRun && confirm == p.fence.product ==> calls == Calls(p, s) && (r.Ok? <==> WellFormedReturns(p, s))
    ensures r.Ok? ==>
              && ValidReceipt(r.value) && r.value.plan == p
              && r.value.fenceInstalled == s.install
              && (r.value.status == Completed <==> AllSucceed(p, s))
              && (r.value.status == Failed <==> !s.install)
              && (forall id :: id in r.value.purged <==>
                  Purging(p, s) && exists t :: t in p.targets && t.id == id && s.purge(id))
              && r.value.gold == (if GoldCalled(p, s) && s.gold.Returned? then Some(s.gold.id) else None)
              && r.value.index == (if IndexCalled(p, s) && s.index.Returned? then Some(s.index.id) else None)
              && ListsFailures(p, s, r.value.errors)
  {
    calls := [];
    if p.dryRun {
      return Err(DryRun), calls;
    }
    if confirm != p.fence.product {
      return Err(NotConfirmed), calls;
    }
    var purged: seq<string> := [];
    var errors: seq<Failure> := [];
    var gold, index := ReturnedNothing, ReturnedNothing;
    calls := [Installed];
    var fenceInstalled := s.install;
    if !fenceInstalled {
      errors := [FenceFailed];
    }
    if errors == [] && PurgeRestricted in p.actions {
      var done;
      purged, errors, done := PurgeAll(p.targets, s);
      calls := calls + done;
    }
    assert errors == [] <==> PurgeSucceeds(p, s);
    if errors == [] && ReGold in p.actions {
      calls := calls + [Rebuilt];
      gold := s.gold;
      if gold.Raised? {
        errors := errors + [GoldFailed];
      }
    }
    assert errors == [] <==> GoldSucceeds(p, s);
    if errors == [] && ReIndex in p.actions {
      calls := calls + [Reindexed];
      index := s.index;
      if index.Raised? {
        errors := errors + [IndexFailed];
      }
    }
    var status := if errors == [] then Completed
                  else if fenceInstalled || purged != [] || gold.Returned? || index.Returned? then Partial
                  else Failed;
    PurgedArePlanned(p.targets, s.purge);
    r := BuildReceipt(p, status, fenceInstalled, (set id | id in purged), gold, index, errors);
  }

  lemma PurgedArePlanned(targets: seq<Target>, purge: string -> bool)
    ensures PurgedIds(targets, purge) <= set id | id in TargetIds(targets)
    ensures (forall t :: t in targets ==> purge(t.id)) ==>
              PurgedIds(targets, purge) == set id | id in TargetIds(targets)
  {
    forall t | t in targets
      ensures t.id in TargetIds(targets)
    {
      var i :| 0 <= i < |targets| && targets[i] == t;
      assert TargetIds(targets)[i] == t.id;
    }
    forall id | id in TargetIds(targets)
      ensures exists t :: t in targets && t.id == id
    {
      var i :| 0 <= i < |targets| && TargetIds(targets)[i] == id;
      assert targets[i] in targets;
    }
  }

  /** The purge loop: one failure does not keep the others from being attempted. */
  method PurgeAll(targets: seq<Target>, s: Script)
    returns (purged: seq<string>, errors: seq<Failure>, calls: seq<Effect>)
    ensures calls == Purges(targets)
    ensures (set id | id in purged) == PurgedIds(targets, s.purge)
    ensures errors == [] <==> forall t :: t in targets ==> s.purge(t.id)
    ensures forall e :: e in errors <==> exists t :: t in targets && e == PurgeFailed(t.id) && !s.purge(t.id)
  {
    purged, errors, calls := [], [], [];
    var i := 0;
    while i < |targets|
      invariant 0 <= i <= |targets|
      invariant calls == Purges(targets[..i])
      invariant forall id :: id in purged <==> exists t :: t in targets[..i] && s.purge(t.id) && t.id == id
      invariant errors == [] <==> forall t :: t in targets[..i] ==> s.purge(t.id)
      invariant forall e :: e in errors <==> exists t :: t in targets[..i] && e == PurgeFailed(t.id) && !s.purge(t.id)
    {
      var t := targets[i];
      assert targets[..i + 1] == targets[..i] + [t];
      calls := calls + [Purged(t.id)];
      if s.purge(t.id) {
        purged := purged + [t.id];
      } else {
        errors := errors + [PurgeFailed(t.id)];
      }
      i := i + 1;
    }
    assert targets[..i] == targets;
  }

  function IdOf(rebuild: Rebuild): Option<nat> {
    if rebuild.Returned? then Some(rebuild.id) else None
  }

  /** `build_source_removal_receipt`: malformed IDs and missing replacements are refused. */
  method BuildReceipt(p: Plan, status: Status, fenceInstalled: bool, purged: set<string>, gold: Rebuild,
                      index: Rebuild, errors: seq<Failure>)
    returns (r: Result<Receipt, RemovalError>)
    ensures r.Ok? <==>
              && !gold.ReturnedMalformed? && !index.ReturnedMalformed?
              && ValidReceipt(Receipt(p, status, fenceInstalled, purged, IdOf(gold), IdOf(index), errors))
    ensures r.Ok? ==> r.value == Receipt(p, status, fenceInstalled, purged, IdOf(gold), IdOf(index), errors)
  {
    if gold.ReturnedMalformed? || index.ReturnedMalformed? {
      return Err(BadReceipt);
    }
    var receipt := Receipt(p, status, fenceInstalled, purged, IdOf(gold), IdOf(index), errors);
    var planned := set id | id in TargetIds(p.targets);
    if p.dryRun || !(purged <= planned) {
      return Err(BadReceipt);
    }
    if status == Completed {
      if errors != [] || !fenceInstalled
        || (PurgeRestricted in p.actions && purged != planned)
        || (ReGold in p.actions && receipt.gold.None?)
        || (ReIndex in p.actions && receipt.index.None?)
      {
        return Err(BadReceipt);
      }
    } else if errors == [] {
      return Err(BadReceipt);
    }
    return Ok(receipt);
  }

  lemma PurgesOnce(targets: seq<Target>)
    requires Distinct(TargetIds(targets))
    ensures Distinct(Purges(targets))
    ensures forall t :: t in targets ==> Purged(t.id) in Purges(targets)
    ensures forall e :: e in Purges(targets) ==> e.Purged?
  {
    var purges := Purges(targets);
    forall i, j | 0 <= i < j < |purges|
      ensures purges[i] != purges[j]
    {
      assert TargetIds(targets)[i] != TargetIds(targets)[j];
    }
    forall t | t in targets
      ensures Purged(t.id) in purges
    {
      var i :| 0 <= i < |targets| && targets[i] == t;
      assert purges[i] == Purged(t.id);
    }
  }

  /** Nothing is purged or rebuilt before the fence is installed; once purging starts each target is attempted
      exactly once; a rebuild means that everything planned before it went through. */
  lemma FenceBeforeEverything(p: Plan, s: Script)
    requires ValidPlan(p)
    ensures Calls(p, s)[0] == Installed && (|Calls(p, s)| > 1 ==> s.install)
    ensures Distinct(Calls(p, s))
    ensures forall t :: t in p.targets ==> (Purged(t.id) in Calls(p, s) <==> Purging(p, s))
    ensures Purging(p, s) ==> forall i :: 0 <= i < |p.targets| ==>
              i + 1 < |Calls(p, s)| && Calls(p, s)[i + 1] == Purged(p.targets[i].id)
    ensures Rebuilt in Calls(p, s) || Reindexed in Calls(p, s) ==> PurgeSucceeds(p, s)
  {
    hide ValidPlan, Purges, TargetIds, PurgeSucceeds;
    PlanIdsDistinct(p);
    var purges := if Purging(p, s) then Purges(p.targets) else [];
    PurgesOnce(p.targets);
    var gold := if GoldCalled(p, s) then [Rebuilt] else [];
    var index := if IndexCalled(p, s) then [Reindexed] else [];
    var calls := Calls(p, s);
    assert calls == [Installed] + purges + gold + index;
    assert |purges| > 0 || |gold| > 0 || |index| > 0 ==> s.install by { PurgeNeedsFence(p, s); }
    forall e
      ensures e in calls <==> e == Installed || e in purges || e in gold || e in index
    {
    }
    if Purging(p, s) {
      PurgesInOrder(p, s);
    }
    JoinDistinct([Installed], purges);
    JoinDistinct([Installed] + purges, gold);
    JoinDistinct([Installed] + purges + gold, index);
  }

  lemma PurgesInOrder(p: Plan, s: Script)
    requires Purging(p, s)
    ensures |p.targets| < |Calls(p, s)|
    ensures forall i :: 0 <= i < |p.targets| ==> Calls(p, s)[i + 1] == Purged(p.targets[i].id)
  {
    hide GoldCalled, IndexCalled;
    var purges := Purges(p.targets);
    var rest := (if GoldCalled(p, s) then [Rebuilt] else []) + (if IndexCalled(p, s) then [Reindexed] else []);
    assert Calls(p, s) == ([Installed] + purges) + rest;
  }

  lemma PlanIdsDistinct(p: Plan)
    requires ValidPlan(p)
    ensures Distinct(TargetIds(p.targets))
  {
  }

  lemma PurgeNeedsFence(p: Plan, s: Script)
    ensures PurgeSucceeds(p, s) ==> s.install
  {
  }

  lemma JoinDistinct(a: seq<Effect>, b: seq<Effect>)
    requires Distinct(a) && Distinct(b) && forall e :: e in a ==> e !in b
    ensures Distinct(a + b)
  {
    forall i, j | 0 <= i < j < |a + b|
      ensures (a + b)[i] != (a + b)[j]
    {
      if i < |a| <= j {
        assert a[i] in a && b[j - |a|] in b;
      }
    }
  }
}
