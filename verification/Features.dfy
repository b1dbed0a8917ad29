/**
  Feature resolution of features.service.ts: the listing of a tenant's features and the check of a
  single one, which read the subscriptions in different ways.
*/
module Features {
  import opened Text
  import opened Subscriptions

  type FeatureId = nat

  /** A tenant's own setting for a feature. */
  datatype Override = Override(featureId: FeatureId, isEnabled: bool)

  datatype Source = FromPlan | FromOverride

  datatype Entry = Entry(featureId: FeatureId, source: Source, isEnabled: bool)

  /** The tables: the features by their unique code, the features of each plan, the tenant's overrides. */
  datatype Catalog = Catalog(byCode: map<string, FeatureId>, plans: map<PlanId, seq<FeatureId>>,
                             overrides: seq<Override>)

  /** Keys and foreign keys of the schema: (plan, feature) and (tenant, feature) are unique, and every
      plan that is mentioned exists. */
  ghost predicate WellKeyed(c: Catalog, subs: seq<Subscription>) {
    && (forall p <- c.plans :: Distinct(c.plans[p]))
    && UniqueOverrides(c.overrides)
    && (forall i :: 0 <= i < |subs| ==> subs[i].planId in c.plans)
  }

  predicate UniqueOverrides(overrides: seq<Override>) {
    forall i, j :: 0 <= i < j < |overrides| ==> overrides[i].featureId != overrides[j].featureId
  }

  predicate Distinct(s: seq<FeatureId>) {
    forall i, j :: 0 <= i < j < |s| ==> s[i] != s[j]
  }

  /** `findFirst` of the live subscriptions, newest first; -1 when there is none. */
  function NewestLive(subs: seq<Subscription>, t: TenantId): (r: int)
    ensures -1 <= r < |subs|
    ensures r >= 0 ==> IsLiveOf(subs[r], t)
    ensures forall i :: r < i < |subs| ==> !IsLiveOf(subs[i], t)
  {
    if subs == [] then -1
    else if IsLiveOf(subs[|subs| - 1], t) then |subs| - 1
    else NewestLive(subs[..|subs| - 1], t)
  }

  /** The features of the newest live plan. */
  function PlanOf(c: Catalog, subs: seq<Subscription>, t: TenantId): seq<FeatureId> {
    var i := NewestLive(subs, t);
    if i >= 0 && subs[i].planId in c.plans then c.plans[subs[i].planId] else []
  }

  /** The setting that a map built from the overrides holds for a feature. */
  function OverrideOf(overrides: seq<Override>, f: FeatureId): Option<bool> {
    if overrides == [] then None
    else
      var last := overrides[|overrides| - 1];
      if last.featureId == f then Some(last.isEnabled) else OverrideOf(overrides[..|overrides| - 1], f)
  }

  /** What the tenant may use: its own setting if it has one, else what its plan includes. */
  predicate Grants(overrides: seq<Override>, plan: seq<FeatureId>, f: FeatureId) {
    match OverrideOf(overrides, f)
    case Some(enabled) => enabled
    case None => f in plan
  }

  /** With unique overrides, the setting of a feature is the one override that names it. */
  lemma {:induction false} OverrideAt(overrides: seq<Override>, i: nat)
    requires UniqueOverrides(overrides) && i < |overrides|
    ensures OverrideOf(overrides, overrides[i].featureId) == Some(overrides[i].isEnabled)
  {
    if i < |overrides| - 1 {
      OverrideAt(overrides[..|overrides| - 1], i);
    }
  }

  lemma {:induction false} OverrideIsStored(overrides: seq<Override>, f: FeatureId) returns (i: nat)
    requires OverrideOf(overrides, f).Some?
    ensures i < |overrides| && overrides[i] == Override(f, OverrideOf(overrides, f).value)
  {
    i := |overrides| - 1;
    if overrides[i].featureId != f {
      i := OverrideIsStored(overrides[..i], f);
    }
  }

  lemma OverrideExists(overrides: seq<Override>, f: FeatureId)
    requires OverrideOf(overrides, f).Some?
    ensures Override(f, OverrideOf(overrides, f).value) in overrides
  {
    var i := OverrideIsStored(overrides, f);
    assert overrides[i] in overrides;
  }

  // ---------------------------------------------------------------- the listing

  function PlanEntry(overrides: seq<Override>, f: FeatureId): Entry {
    match OverrideOf(overrides, f)
    case Some(enabled) => Entry(f, FromOverride, enabled)
    case None => Entry(f, FromPlan, true)
  }

  function PlanEntries(overrides: seq<Override>, plan: seq<FeatureId>): (r: seq<Entry>)
    ensures |r| == |plan|
  {
    seq(|plan|, i requires 0 <= i < |plan| => PlanEntry(overrides, plan[i]))
  }

  /** Entries for overrides of features outside the plan. */
  function Extras(overrides: seq<Override>, plan: seq<FeatureId>): seq<Entry> {
    if overrides == [] then []
    else
      var last := overrides[|overrides| - 1];
      Extras(overrides[..|overrides| - 1], plan) +
      if last.featureId in plan then [] else [Entry(last.featureId, FromOverride, last.isEnabled)]
  }

  function Listing(overrides: seq<Override>, plan: seq<FeatureId>): seq<Entry> {
    PlanEntries(overrides, plan) + Extras(overrides, plan)
  }

  /** `new Map(tenantOverrides.map(...))` */
  method BuildOverrideMap(overrides: seq<Override>) returns (m: map<FeatureId, Override>)
    ensures forall f: FeatureId :: f in m <==> OverrideOf(overrides, f).Some?
    ensures forall f <- m :: OverrideOf(overrides, f) == Some(m[f].isEnabled)
  {
    m := map[];
    for i := 0 to |overrides|
      invariant forall f: FeatureId :: f in m <==> OverrideOf(overrides[..i], f).Some?
      invariant forall f <- m :: OverrideOf(overrides[..i], f) == Some(m[f].isEnabled)
    {
      assert overrides[..i + 1][..i] == overrides[..i];
      m := m[overrides[i].featureId := overrides[i]];
    }
    assert overrides[..|overrides|] == overrides;
  }

  /** The loops of getTenantFeatures. */
  method ListFeatures(c: Catalog, subs: seq<Subscription>, t: TenantId) returns (results: seq<Entry>)
    ensures results == Listing(c.overrides, PlanOf(c, subs, t))
  {
    var overrideMap := BuildOverrideMap(c.overrides);
    results := [];
    var processed: set<FeatureId> := {};
    var plan := PlanOf(c, subs, t);
    for i := 0 to |plan|
      invariant results == PlanEntries(c.overrides, plan)[..i]
      invariant forall f: FeatureId :: f in processed <==> f in plan[..i]
    {
      assert plan[..i + 1] == plan[..i] + [plan[i]];
      processed := processed + {plan[i]};
      if plan[i] in overrideMap {
        results := results + [Entry(plan[i], FromOverride, overrideMap[plan[i]].isEnabled)];
      } else {
        results := results + [Entry(plan[i], FromPlan, true)];
      }
    }
    assert plan[..|plan|] == plan;
    for i := 0 to |c.overrides|
      invariant results == PlanEntries(c.overrides, plan) + Extras(c.overrides[..i], plan)
    {
      assert c.overrides[..i + 1][..i] == c.overrides[..i];
      var o := c.overrides[i];
      if o.featureId !in processed {
        results := results + [Entry(o.featureId, FromOverride, o.isEnabled)];
      }
    }
    assert c.overrides[..|c.overrides|] == c.overrides;
  }

  /** getTenantFeatures; None stands for the NotFoundException. */
  method GetTenantFeatures(c: Catalog, db: Db, t: TenantId) returns (r: Option<seq<Entry>>)
    ensures r == if t in db.tenants then Some(Listing(c.overrides, PlanOf(c, db.subs, t))) else None
  {
    if t !in db.tenants {
      return None;
    }
    var results := ListFeatures(c, db.subs, t);
    return Some(results);
  }

  lemma {:induction false} ExtraIsOverride(overrides: seq<Override>, plan: seq<FeatureId>, e: Entry)
    requires e in Extras(overrides, plan)
    ensures e.featureId !in plan && e.source == FromOverride && Override(e.featureId, e.isEnabled) in overrides
  {
    var front, last := overrides[..|overrides| - 1], overrides[|overrides| - 1];
    if e in Extras(front, plan) {
      ExtraIsOverride(front, plan, e);
    } else {
      assert e == Entry(last.featureId, FromOverride, last.isEnabled);
    }
  }

  lemma {:induction false} OverrideIsExtra(overrides: seq<Override>, plan: seq<FeatureId>, i: nat)
    requires i < |overrides| && overrides[i].featureId !in plan
    ensures Entry(overrides[i].featureId, FromOverride, overrides[i].isEnabled) in Extras(overrides, plan)
  {
    if i < |overrides| - 1 {
      OverrideIsExtra(overrides[..|overrides| - 1], plan, i);
    }
  }

  predicate UniqueEntries(results: seq<Entry>) {
    forall i, j :: 0 <= i < j < |results| ==> results[i].featureId != results[j].featureId
  }

  lemma {:induction false} ExtrasAreUnique(overrides: seq<Override>, plan: seq<FeatureId>)
    requires UniqueOverrides(overrides)
    ensures UniqueEntries(Extras(overrides, plan))
  {
    if overrides != [] {
      var front, last := overrides[..|overrides| - 1], overrides[|overrides| - 1];
      ExtrasAreUnique(front, plan);
      forall e | e in Extras(front, plan) ensures e.featureId != last.featureId {
        ExtraIsOverride(front, plan, e);
      }
    }
  }

  /** An entry says what the tenant is granted, and where that comes from. */
  lemma EntryIsRight(overrides: seq<Override>, plan: seq<FeatureId>, e: Entry)
    requires UniqueOverrides(overrides) && e in Listing(overrides, plan)
    ensures e.isEnabled == Grants(overrides, plan, e.featureId)
    ensures e.source == FromOverride <==> OverrideOf(overrides, e.featureId).Some?
    ensures e.featureId in plan || OverrideOf(overrides, e.featureId).Some?
  {
    var entries := PlanEntries(overrides, plan);
    if e in entries {
      var j :| 0 <= j < |entries| && entries[j] == e;
      assert e == PlanEntry(overrides, plan[j]);
    } else {
      ExtraIsOverride(overrides, plan, e);
      var j :| 0 <= j < |overrides| && overrides[j] == Override(e.featureId, e.isEnabled);
      OverrideAt(overrides, j);
    }
  }

  lemma FeatureHasEntry(overrides: seq<Override>, plan: seq<FeatureId>, f: FeatureId) returns (e: Entry)
    requires f in plan || OverrideOf(overrides, f).Some?
    ensures e in Listing(overrides, plan) && e.featureId == f
  {
    if f in plan {
      var j :| 0 <= j < |plan| && plan[j] == f;
      e := PlanEntries(overrides, plan)[j];
    } else {
      var j := OverrideIsStored(overrides, f);
      OverrideIsExtra(overrides, plan, j);
      e := Entry(f, FromOverride, overrides[j].isEnabled);
    }
  }

  /** MAIN RESULT.  The listing names every feature of the plan or of an override exactly once; the
      tenant's own setting wins over the plan. */
  lemma ListingIsExact(overrides: seq<Override>, plan: seq<FeatureId>)
    requires UniqueOverrides(overrides) && Distinct(plan)
    ensures UniqueEntries(Listing(overrides, plan))
    ensures forall f: FeatureId :: f in plan || OverrideOf(overrides, f).Some? <==>
              exists e <- Listing(overrides, plan) :: e.featureId == f
    ensures forall e <- Listing(overrides, plan) :: e.isEnabled == Grants(overrides, plan, e.featureId)
  {
    var results, entries, extras := Listing(overrides, plan), PlanEntries(overrides, plan), Extras(overrides, plan);
    ExtrasAreUnique(overrides, plan);
    forall i, j | 0 <= i < |entries| && 0 <= j < |extras| ensures entries[i].featureId != extras[j].featureId {
      ExtraIsOverride(overrides, plan, extras[j]);
      assert entries[i] == PlanEntry(overrides, plan[i]);
    }
    assert forall i :: 0 <= i < |entries| ==> entries[i].featureId == plan[i];
    forall e | e in results
      ensures e.isEnabled == Grants(overrides, plan, e.featureId)
      ensures e.featureId in plan || OverrideOf(overrides, e.featureId).Some?
    {
      EntryIsRight(overrides, plan, e);
    }
    forall f: FeatureId | f in plan || OverrideOf(overrides, f).Some? ensures exists e <- results :: e.featureId == f {
      var e := FeatureHasEntry(overrides, plan, f);
    }
  }

  // ---------------------------------------------------------------- the check

  /** `findFirst` of the live subscriptions whose plan has the feature, in no order. */
  predicate SomeLivePlanHas(c: Catalog, subs: seq<Subscription>, t: TenantId, f: FeatureId) {
    exists i :: 0 <= i < |subs| && IsLiveOf(subs[i], t) && subs[i].planId in c.plans && f in c.plans[subs[i].planId]
  }

  predicate IsFeatureEnabled(c: Catalog, subs: seq<Subscription>, t: TenantId, code: string) {
    code in c.byCode &&
    match OverrideOf(c.overrides, c.byCode[code])
    case Some(enabled) => enabled
    case None => SomeLivePlanHas(c, subs, t, c.byCode[code])
  }

  /** The listing has an enabled entry for the feature with this code. */
  predicate ListedEnabled(c: Catalog, subs: seq<Subscription>, t: TenantId, code: string) {
    code in c.byCode &&
    exists e <- Listing(c.overrides, PlanOf(c, subs, t)) :: e.featureId == c.byCode[code] && e.isEnabled
  }

  /** A plan of the tenant that is active or on trial includes the feature. */
  predicate IsPaidFor(c: Catalog, subs: seq<Subscription>, t: TenantId, f: FeatureId) {
    exists i :: 0 <= i < |subs| && subs[i].tenantId == t && (subs[i].status == Active || subs[i].status == Trial)
                && subs[i].planId in c.plans && f in c.plans[subs[i].planId]
  }

  /** What the check means: an unknown code is off; the tenant's own setting decides if there is one, and
      else an active or trial plan that includes the feature. */
  lemma CheckMeans(c: Catalog, subs: seq<Subscription>, t: TenantId, code: string)
    requires WellKeyed(c, subs)
    ensures code !in c.byCode ==> !IsFeatureEnabled(c, subs, t, code)
    ensures code in c.byCode ==>
              var f := c.byCode[code];
              if exists o <- c.overrides :: o.featureId == f
              then IsFeatureEnabled(c, subs, t, code) <==> Override(f, true) in c.overrides
              else IsFeatureEnabled(c, subs, t, code) <==> IsPaidFor(c, subs, t, f)
  {
    if code in c.byCode {
      var f := c.byCode[code];
      if exists o <- c.overrides :: o.featureId == f {
        var o :| o in c.overrides && o.featureId == f;
        var i :| 0 <= i < |c.overrides| && c.overrides[i] == o;
        OverrideAt(c.overrides, i);
        if Override(f, true) in c.overrides {
          var j :| 0 <= j < |c.overrides| && c.overrides[j] == Override(f, true);
          OverrideAt(c.overrides, j);
        }
      } else if OverrideOf(c.overrides, f).Some? {
        OverrideExists(c.overrides, f);
      }
    }
  }

  /** What a line of the listing means, from the tenant's settings and its newest active or trial plan. */
  lemma EntryMeans(overrides: seq<Override>, plan: seq<FeatureId>, e: Entry)
    requires UniqueOverrides(overrides) && e in Listing(overrides, plan)
    ensures if e.source == FromOverride
            then Override(e.featureId, e.isEnabled) in overrides
            else e.isEnabled && e.featureId in plan && forall o <- overrides :: o.featureId != e.featureId
  {
    EntryIsRight(overrides, plan, e);
    if e.source == FromOverride {
      OverrideExists(overrides, e.featureId);
    } else {
      forall o | o in overrides ensures o.featureId != e.featureId {
        var i :| 0 <= i < |overrides| && overrides[i] == o;
        OverrideAt(overrides, i);
      }
    }
  }

  lemma ListedIsGranted(c: Catalog, subs: seq<Subscription>, t: TenantId, code: string)
    requires WellKeyed(c, subs) && code in c.byCode
    ensures ListedEnabled(c, subs, t, code) <==> Grants(c.overrides, PlanOf(c, subs, t), c.byCode[code])
  {
    var plan, f := PlanOf(c, subs, t), c.byCode[code];
    if Grants(c.overrides, plan, f) {
      var e := FeatureHasEntry(c.overrides, plan, f);
      EntryIsRight(c.overrides, plan, e);
    }
    if ListedEnabled(c, subs, t, code) {
      var e :| e in Listing(c.overrides, plan) && e.featureId == f && e.isEnabled;
      EntryIsRight(c.overrides, plan, e);
    }
  }

  /** A feature without an override that only an older live subscription includes. */
  predicate OnlyInOlderPlan(c: Catalog, subs: seq<Subscription>, t: TenantId, f: FeatureId) {
    OverrideOf(c.overrides, f).None? && SomeLivePlanHas(c, subs, t, f) && f !in PlanOf(c, subs, t)
  }

  /** What the listing says is enabled, the check says is enabled; they differ on a code exactly when
      only an older live subscription includes its feature. */
  lemma CheckAgainstListing(c: Catalog, subs: seq<Subscription>, t: TenantId, code: string)
    requires WellKeyed(c, subs)
    ensures ListedEnabled(c, subs, t, code) ==> IsFeatureEnabled(c, subs, t, code)
    ensures (IsFeatureEnabled(c, subs, t, code) <==> ListedEnabled(c, subs, t, code)) <==>
            !(code in c.byCode && OnlyInOlderPlan(c, subs, t, c.byCode[code]))
  {
    if code in c.byCode {
      ListedIsGranted(c, subs, t, code);
    }
  }

  /** MAIN RESULT.  After any sequence of subscription operations the check and the listing agree on
      every code. */
  lemma CheckAgreesWithListing(c: Catalog, events: seq<Event>, t: TenantId, code: string)
    requires WellKeyed(c, Run(events).subs)
    ensures IsFeatureEnabled(c, Run(events).subs, t, code) <==> ListedEnabled(c, Run(events).subs, t, code)
  {
    var subs := Run(events).subs;
    InvHolds(events);
    CheckAgainstListing(c, subs, t, code);
    if code in c.byCode && SomeLivePlanHas(c, subs, t, c.byCode[code]) {
      var i :| 0 <= i < |subs| && IsLiveOf(subs[i], t) && subs[i].planId in c.plans
             && c.byCode[code] in c.plans[subs[i].planId];
      assert NewestLive(subs, t) == i;
    }
  }
}
