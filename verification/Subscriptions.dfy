/**
  Tenants and their subscriptions: register and provisioning (auth.service.ts), create, cancel and
  renew (subscriptions.service.ts), and the lapse of a period.  The runs take operations one after the
  other; a cancellation and a renewal, which find a row and update it without a transaction, are also
  shown with other operations in between.
*/
module Subscriptions {

  type TenantId = nat
  type PlanId = nat

  datatype TenantStatus = PendingTenant | TrialTenant | ActiveTenant |
     SuspendedTenant | CancelledTenant | PendingDeletion

  datatype SubscriptionStatus = Active | Expired | Cancelled | PastDue | Trial

  datatype BillingCycle = Monthly | Yearly

  datatype Subscription = Subscription(tenantId: TenantId, planId: PlanId, status: SubscriptionStatus,
                                       cycle: BillingCycle, periodStart: int, periodEnd: int, isCancelled: bool)

  /** The rows, subscriptions in the order of their creation. */
  datatype Db = Db(tenants: map<TenantId, TenantStatus>, subs: seq<Subscription>)

  const EMPTY := Db(map[], [])

  predicate IsLive(s: Subscription) {
    s.status == Active || s.status == Trial
  }

  predicate IsLiveOf(s: Subscription, t: TenantId) {
    s.tenantId == t && IsLive(s)
  }

  function CancelOne(s: Subscription): Subscription {
    s.(status := Cancelled, isCancelled := true)
  }

  /** `updateMany` of the tenant's live subscriptions. */
  function CancelLive(subs: seq<Subscription>, t: TenantId): (r: seq<Subscription>)
    ensures |r| == |subs|
  {
    seq(|subs|, i requires 0 <= i < |subs| => if IsLiveOf(subs[i], t) then CancelOne(subs[i]) else subs[i])
  }

  predicate IsRenewable(s: Subscription, t: TenantId) {
    s.tenantId == t && (s.status == Active || s.status == Expired || s.status == Cancelled)
  }

  /** `findFirst` of the renewable subscriptions, newest first; -1 when there is none. */
  function NewestRenewable(subs: seq<Subscription>, t: TenantId): (r: int)
    ensures -1 <= r < |subs|
    ensures r >= 0 ==> IsRenewable(subs[r], t)
    ensures forall i :: r < i < |subs| ==> !IsRenewable(subs[i], t)
  {
    if subs == [] then -1
    else if IsRenewable(subs[|subs| - 1], t) then |subs| - 1
    else NewestRenewable(subs[..|subs| - 1], t)
  }

  // ---------------------------------------------------------------- the operations

  function Register(db: Db, t: TenantId): Db {
    if t in db.tenants then db else db.(tenants := db.tenants[t := PendingTenant])
  }

  /** provisionTenantAfterVerification, which verifyEmailOtp calls for pending tenants only. */
  function Provision(db: Db, t: TenantId, basicPlan: PlanId, now: int, trialEnd: int): Db {
    if t !in db.tenants || db.tenants[t] != PendingTenant then db
    else Db(db.tenants[t := TrialTenant], db.subs + [Subscription(t, basicPlan, Trial, Monthly, now, trialEnd, false)])
  }

  function Create(db: Db, t: TenantId, plan: PlanId, cycle: BillingCycle, now: int, end: int): Db {
    if t !in db.tenants then db
    else Db(db.tenants[t := ActiveTenant],
            CancelLive(db.subs, t) + [Subscription(t, plan, Active, cycle, now, end, false)])
  }

  /** i is the live subscription that the unordered search has come upon. */
  function Cancel(db: Db, i: nat): Db
    requires i < |db.subs|
  {
    db.(subs := db.subs[i := CancelOne(db.subs[i])])
  }

  /** The update half of a renewal, of the row that was found. */
  function RenewRow(db: Db, i: nat, now: int, end: int): Db
    requires i < |db.subs|
  {
    db.(subs := db.subs[i := db.subs[i].(status := Active, periodStart := now, periodEnd := end, isCancelled := false)])
  }

  function Renew(db: Db, t: TenantId, now: int, end: int): Db {
    var i := NewestRenewable(db.subs, t);
    if i < 0 || db.subs[i].status == Active then db else RenewRow(db, i, now, end)
  }

  /** A live subscription is marked as expired. */
  function Lapse(db: Db, i: nat): Db
    requires i < |db.subs|
  {
    if IsLive(db.subs[i]) then db.(subs := db.subs[i := db.subs[i].(status := Expired)]) else db
  }

  /** Suspension, reactivation and the account's own deletion request write a tenant's status. */
  function SetTenantStatus(db: Db, t: TenantId, status: TenantStatus): Db {
    if t in db.tenants && status != PendingTenant then db.(tenants := db.tenants[t := status]) else db
  }

  datatype Event =
    | RegisterEvent(t: TenantId)
    | ProvisionEvent(t: TenantId, plan: PlanId, now: int, end: int)
    | CreateEvent(t: TenantId, plan: PlanId, cycle: BillingCycle, now: int, end: int)
    | CancelEvent(t: TenantId, i: nat)
    | RenewEvent(t: TenantId, now: int, end: int)
    | LapseEvent(i: nat)
    | StatusEvent(t: TenantId, status: TenantStatus)

  function Step(db: Db, e: Event): Db {
    match e
    case RegisterEvent(t) => Register(db, t)
    case ProvisionEvent(t, plan, now, end) => Provision(db, t, plan, now, end)
    case CreateEvent(t, plan, cycle, now, end) => Create(db, t, plan, cycle, now, end)
    case CancelEvent(t, i) => if i < |db.subs| && IsLiveOf(db.subs[i], t) then Cancel(db, i) else db
    case RenewEvent(t, now, end) => Renew(db, t, now, end)
    case LapseEvent(i) => if i < |db.subs| then Lapse(db, i) else db
    case StatusEvent(t, status) => SetTenantStatus(db, t, status)
  }

  function Run(events: seq<Event>): Db {
    if events == [] then EMPTY else Step(Run(events[..|events| - 1]), events[|events| - 1])
  }

  // ---------------------------------------------------------------- the invariant

  /** A live subscription is its tenant's newest one, so there is at most one. */
  ghost predicate LiveIsNewest(subs: seq<Subscription>) {
    forall i, j :: 0 <= i < j < |subs| && subs[i].tenantId == subs[j].tenantId ==> !IsLive(subs[i])
  }

  /** A trial is its tenant's first subscription. */
  ghost predicate TrialIsFirst(subs: seq<Subscription>) {
    forall i, j :: 0 <= i < j < |subs| && subs[i].tenantId == subs[j].tenantId ==> subs[j].status != Trial
  }

  /** The row belongs to a tenant that has left its pending state; no operation writes past_due. */
  ghost predicate IsPlaced(tenants: map<TenantId, TenantStatus>, s: Subscription) {
    s.tenantId in tenants && tenants[s.tenantId] != PendingTenant && s.status != PastDue
  }

  ghost predicate Inv(db: Db) {
    && LiveIsNewest(db.subs)
    && TrialIsFirst(db.subs)
    && (forall i :: 0 <= i < |db.subs| ==> IsPlaced(db.tenants, db.subs[i]))
  }

  /** If the newest subscription is a live one, there is nothing else to renew: renewing can only
      revive the newest subscription. */
  lemma RenewRevivesNewest(db: Db, t: TenantId)
    requires Inv(db)
    ensures var i := NewestRenewable(db.subs, t);
            i >= 0 && db.subs[i].status != Active ==>
              && (forall j :: i < j < |db.subs| ==> db.subs[j].tenantId != t)
              && (forall j :: 0 <= j < |db.subs| ==> !IsLiveOf(db.subs[j], t))
  {
    var i := NewestRenewable(db.subs, t);
    if i >= 0 && db.subs[i].status != Active {
      forall j | 0 <= j < |db.subs| && db.subs[j].tenantId == t ensures j <= i && !IsLive(db.subs[j]) {
        assert IsPlaced(db.tenants, db.subs[j]);
      }
    }
  }

  /** Rewriting one row keeps the invariant if the new row is not past due and, when live, revives
      its tenant's newest row as a paid one. */
  lemma RewriteKeepsInv(db: Db, i: nat, s: Subscription)
    requires Inv(db) && i < |db.subs| && s.tenantId == db.subs[i].tenantId && s.status != PastDue && s.status != Trial
    requires IsLive(s) ==> forall j :: i < j < |db.subs| ==> db.subs[j].tenantId != s.tenantId
    ensures Inv(db.(subs := db.subs[i := s]))
  {
    var subs := db.subs[i := s];
    forall j | 0 <= j < |subs| ensures IsPlaced(db.tenants, subs[j]) {
      assert IsPlaced(db.tenants, db.subs[j]);
    }
  }

  lemma CreateKeepsInv(db: Db, t: TenantId, plan: PlanId, cycle: BillingCycle, now: int, end: int)
    requires Inv(db)
    ensures Inv(Create(db, t, plan, cycle, now, end))
  {
    if t in db.tenants {
      var after := Create(db, t, plan, cycle, now, end);
      forall j | 0 <= j < |after.subs| ensures IsPlaced(after.tenants, after.subs[j]) {
        assert j < |db.subs| ==> IsPlaced(db.tenants, db.subs[j]);
      }
      assert forall j :: 0 <= j < |db.subs| ==> after.subs[j].tenantId == db.subs[j].tenantId;
    }
  }

  lemma ProvisionKeepsInv(db: Db, t: TenantId, plan: PlanId, now: int, end: int)
    requires Inv(db)
    ensures Inv(Provision(db, t, plan, now, end))
  {
    if t in db.tenants && db.tenants[t] == PendingTenant {
      var after := Provision(db, t, plan, now, end);
      forall j | 0 <= j < |db.subs| ensures IsPlaced(after.tenants, db.subs[j]) && db.subs[j].tenantId != t {
        assert IsPlaced(db.tenants, db.subs[j]);
      }
    }
  }

  lemma TenantWriteKeepsInv(db: Db, tenants: map<TenantId, TenantStatus>)
    requires Inv(db)
    requires forall t <- db.tenants :: t in tenants && (tenants[t] == PendingTenant ==> db.tenants[t] == PendingTenant)
    ensures Inv(db.(tenants := tenants))
  {
    forall j | 0 <= j < |db.subs| ensures IsPlaced(tenants, db.subs[j]) {
      assert IsPlaced(db.tenants, db.subs[j]);
    }
  }

  lemma StepKeepsInv(db: Db, e: Event)
    requires Inv(db)
    ensures Inv(Step(db, e))
  {
    match e
    case RegisterEvent(t) => TenantWriteKeepsInv(db, Step(db, e).tenants);
    case StatusEvent(t, status) => TenantWriteKeepsInv(db, Step(db, e).tenants);
    case ProvisionEvent(t, plan, now, end) => ProvisionKeepsInv(db, t, plan, now, end);
    case CreateEvent(t, plan, cycle, now, end) => CreateKeepsInv(db, t, plan, cycle, now, end);
    case CancelEvent(t, i) =>
      if i < |db.subs| && IsLiveOf(db.subs[i], t) {
        RewriteKeepsInv(db, i, CancelOne(db.subs[i]));
      }
    case LapseEvent(i) =>
      if i < |db.subs| && IsLive(db.subs[i]) {
        RewriteKeepsInv(db, i, db.subs[i].(status := Expired));
      }
    case RenewEvent(t, now, end) =>
      RenewRevivesNewest(db, t);
      var i := NewestRenewable(db.subs, t);
      if i >= 0 && db.subs[i].status != Active {
        RewriteKeepsInv(db, i, db.subs[i].(status := Active, periodStart := now,
                                          periodEnd := end, isCancelled := false));
      }
  }

  lemma {:induction false} InvHolds(events: seq<Event>)
    ensures Inv(Run(events))
  {
    if events != [] {
      InvHolds(events[..|events| - 1]);
      StepKeepsInv(Run(events[..|events| - 1]), events[|events| - 1]);
    }
  }

  /** MAIN RESULT.  After any sequence of operations every tenant has at most one live subscription,
      which is its newest; a pending tenant has no subscription; a trial is the first of its tenant. */
  lemma EveryRun(events: seq<Event>)
    ensures var db := Run(events);
            && LiveIsNewest(db.subs) && TrialIsFirst(db.subs)
            && (forall i, j :: 0 <= i < j < |db.subs| && db.subs[i].tenantId == db.subs[j].tenantId ==>
                  !IsActiveOrTrial(db.subs[i]) && db.subs[j].status != Trial)
            && forall i :: 0 <= i < |db.subs| ==>
                 db.subs[i].tenantId in db.tenants && db.tenants[db.subs[i].tenantId] != PendingTenant
  {
    InvHolds(events);
    var db := Run(events);
    forall i | 0 <= i < |db.subs|
      ensures db.subs[i].tenantId in db.tenants && db.tenants[db.subs[i].tenantId] != PendingTenant
    {
      assert IsPlaced(db.tenants, db.subs[i]);
    }
  }

  /** All rows but row i are the same. */
  predicate OnlyRowChanges(before: Db, after: Db, i: int) {
    && after.tenants == before.tenants && |after.subs| == |before.subs|
    && forall j :: 0 <= j < |before.subs| && j != i ==> after.subs[j] == before.subs[j]
  }

  /** Cancelling the live subscription that an unordered search finds leaves none. */
  lemma CancelLeavesNone(events: seq<Event>, t: TenantId, i: nat)
    requires i < |Run(events).subs| && IsLiveOf(Run(events).subs[i], t)
    ensures var db := Run(events);
            var after := Cancel(db, i);
            && (forall j :: 0 <= j < |after.subs| ==> !IsLiveOf(after.subs[j], t))
            && OnlyRowChanges(db, after, i) && IsCancelledFrom(db.subs[i], after.subs[i])
  {
    InvHolds(events);
    var subs := Run(events).subs;
    forall j | 0 <= j < |subs| && j != i ensures !IsLiveOf(subs[j], t) {
      assert i < j || j < i;
    }
  }

  /** A renewal that succeeds leaves the renewed subscription as the only live one: the tenant's
      newest, with its plan, for the new period.  Any other renewal changes nothing. */
  lemma RenewLeavesOne(events: seq<Event>, t: TenantId, now: int, end: int)
    ensures var db := Run(events);
            var i, after := NewestRenewable(db.subs, t), Renew(db, t, now, end);
            if i >= 0 && db.subs[i].status != Active
            then && (forall j :: 0 <= j < |after.subs| ==> (IsLiveOf(after.subs[j], t) <==> j == i))
                 && (forall j :: i < j < |after.subs| ==> after.subs[j].tenantId != t)
                 && OnlyRowChanges(db, after, i)
                 && after.subs[i] == Subscription(t, db.subs[i].planId, Active, db.subs[i].cycle, now, end, false)
            else after == db
  {
    InvHolds(events);
    RenewRevivesNewest(Run(events), t);
  }

  /** Verification gives a pending tenant its first subscription, a trial, and does so once: a second
      verification changes nothing. */
  lemma ProvisionIsOnce(events: seq<Event>, t: TenantId, plan: PlanId, now: int, end: int,
                        plan': PlanId, now': int, end': int)
    requires t in Run(events).tenants && Run(events).tenants[t] == PendingTenant
    ensures var db := Run(events);
            var after := Provision(db, t, plan, now, end);
            && (forall j :: 0 <= j < |after.subs| ==> (after.subs[j].tenantId == t <==> j == |db.subs|))
            && after.subs == db.subs + [Subscription(t, plan, Trial, Monthly, now, end, false)]
            && after.tenants == db.tenants[t := TrialTenant]
            && Provision(after, t, plan', now', end') == after
  {
    EveryRun(events);
  }

  /** What a subscription looks like when it is replaced or cancelled. */
  predicate IsCancelledFrom(before: Subscription, after: Subscription) {
    && after.status == Cancelled && after.isCancelled
    && after.tenantId == before.tenantId && after.planId == before.planId && after.cycle == before.cycle
    && after.periodStart == before.periodStart && after.periodEnd == before.periodEnd
  }

  predicate IsActiveOrTrial(s: Subscription) {
    s.status == Active || s.status == Trial
  }

  /** The effect of a create on all rows and tenants. */
  ghost predicate IsCreate(before: Db, after: Db, t: TenantId, plan: PlanId, cycle: BillingCycle, now: int, end: int) {
    && after.tenants.Keys == before.tenants.Keys
    && (forall u <- before.tenants :: after.tenants[u] == if u == t then ActiveTenant else before.tenants[u])
    && |after.subs| == |before.subs| + 1
    && after.subs[|before.subs|] == Subscription(t, plan, Active, cycle, now, end, false)
    && (forall j :: 0 <= j < |before.subs| ==>
          if before.subs[j].tenantId == t && IsActiveOrTrial(before.subs[j])
          then IsCancelledFrom(before.subs[j], after.subs[j])
          else after.subs[j] == before.subs[j])
  }

  /** Creating always leaves exactly the new subscription live, even without the invariant: it replaces
      what was live, and makes its tenant active. */
  lemma CreateLeavesOne(db: Db, t: TenantId, plan: PlanId, cycle: BillingCycle, now: int, end: int)
    requires t in db.tenants
    ensures var after := Create(db, t, plan, cycle, now, end);
            && IsCreate(db, after, t, plan, cycle, now, end)
            && (forall j :: 0 <= j < |after.subs| ==>
                  (after.subs[j].tenantId == t && IsActiveOrTrial(after.subs[j]) <==> j == |db.subs|))
  {
  }

  lemma CreateNeedsTenant(db: Db, t: TenantId, plan: PlanId, cycle: BillingCycle, now: int, end: int)
    requires t !in db.tenants
    ensures Create(db, t, plan, cycle, now, end) == db
  {
  }

  /** A registration adds a pending tenant and changes nothing else. */
  lemma RegisterAddsPending(db: Db, t: TenantId)
    ensures var after := Register(db, t);
            && after.subs == db.subs && after.tenants.Keys == db.tenants.Keys + {t}
            && (forall u <- db.tenants :: after.tenants[u] == db.tenants[u])
            && (t !in db.tenants ==> after.tenants[t] == PendingTenant)
  {
  }

  /** A subscription lapses only from its live states, and then to expired; nothing else changes. */
  lemma LapseExpires(db: Db, i: nat)
    requires i < |db.subs|
    ensures var after := Lapse(db, i);
            && OnlyRowChanges(db, after, i)
            && after.subs[i] == if IsActiveOrTrial(db.subs[i]) then db.subs[i].(status := Expired) else db.subs[i]
  {
  }

  /** What the search of a renewal finds: the tenant's last row that is active, expired or cancelled. */
  lemma RenewalFinds(subs: seq<Subscription>, t: TenantId)
    ensures var i := NewestRenewable(subs, t);
            && (i >= 0 ==> subs[i].tenantId == t && subs[i].status in {Active, Expired, Cancelled})
            && (forall j :: i < j < |subs| && subs[j].tenantId == t ==> subs[j].status in {Trial, PastDue})
  {
    forall j | NewestRenewable(subs, t) < j < |subs| && subs[j].tenantId == t
      ensures subs[j].status in {Trial, PastDue}
    {
      assert !IsRenewable(subs[j], t);
    }
  }

  /** The tenant has a trial behind an older subscription: what TrialIsFirst excludes. */
  ghost predicate LateTrial(subs: seq<Subscription>, t: TenantId) {
    exists i, j :: 0 <= i < j < |subs| && subs[j].tenantId == t && subs[j].status == Trial && IsRenewable(subs[i], t)
  }

  /** Why the trial must come first: the search of a renewal skips trials, so it revives an older
      subscription beside a live trial exactly when there is such a pair. */
  lemma RenewNeedsTrialFirst(db: Db, t: TenantId, now: int, end: int)
    requires LiveIsNewest(db.subs) && forall i :: 0 <= i < |db.subs| ==> db.subs[i].status != PastDue
    ensures LiveIsNewest(Renew(db, t, now, end).subs) <==> !LateTrial(db.subs, t)
  {
    var subs, r := db.subs, NewestRenewable(db.subs, t);
    var after := Renew(db, t, now, end).subs;
    if LateTrial(subs, t) {
      var i, j :| 0 <= i < j < |subs| && subs[j].tenantId == t && subs[j].status == Trial && IsRenewable(subs[i], t);
      assert r < j by {
        assert subs[r].status != Trial;
      }
      assert !IsLive(subs[r]);
      assert IsLive(after[r]) && after[r].tenantId == after[j].tenantId;
    } else {
      forall j | r < j < |subs| && subs[j].tenantId == t ensures subs[j].status == Trial {
        assert !IsRenewable(subs[j], t);
      }
      assert r >= 0 ==> forall j :: r < j < |subs| ==> subs[j].tenantId != t;
    }
  }

  // ---------------------------------------------------------------- finding and updating as two steps

  predicate CreatesFor(e: Event, t: TenantId) {
    e.CreateEvent? && e.t == t
  }

  /** Rows keep their tenant and their place; a tenant that has a row gets another one exactly by a
      create. */
  lemma {:induction false} RowsOverTime(events: seq<Event>, more: seq<Event>, i: nat)
    requires i < |Run(events).subs|
    ensures var before, later, t := Run(events), Run(events + more), Run(events).subs[i].tenantId;
            && |before.subs| <= |later.subs|
            && (forall j :: 0 <= j < |before.subs| ==> later.subs[j].tenantId == before.subs[j].tenantId)
            && ((exists j :: |before.subs| <= j < |later.subs| && later.subs[j].tenantId == t) <==>
                 exists e <- more :: CreatesFor(e, t))
  {
    if more == [] {
      assert events + more == events;
    } else {
      var front, e := more[..|more| - 1], more[|more| - 1];
      assert more == front + [e];
      assert (events + more)[..|events + more| - 1] == events + front;
      RowsOverTime(events, front, i);
      InvHolds(events + front);
      RowOverStep(Run(events + front), e, i, |Run(events).subs|);
    }
  }

  lemma RowOverStep(db: Db, e: Event, i: nat, n: nat)
    requires Inv(db) && i < n <= |db.subs|
    ensures var after, t := Step(db, e), db.subs[i].tenantId;
            && |db.subs| <= |after.subs|
            && (forall j :: 0 <= j < |db.subs| ==> after.subs[j].tenantId == db.subs[j].tenantId)
            && ((exists j :: n <= j < |after.subs| && after.subs[j].tenantId == t) <==>
                 CreatesFor(e, t) || exists j :: n <= j < |db.subs| && db.subs[j].tenantId == t)
  {
    var after := Step(db, e);
    assert IsPlaced(db.tenants, db.subs[i]);
    if CreatesFor(e, db.subs[i].tenantId) {
      assert after.subs[|db.subs|].tenantId == db.subs[i].tenantId;
    } else if exists j :: n <= j < |db.subs| && db.subs[j].tenantId == db.subs[i].tenantId {
      var j :| n <= j < |db.subs| && db.subs[j].tenantId == db.subs[i].tenantId;
      assert after.subs[j].tenantId == db.subs[j].tenantId;
    }
  }

  predicate IsLastRow(db: Db, i: nat)
    requires i < |db.subs|
  {
    forall j :: i < j < |db.subs| ==> db.subs[j].tenantId != db.subs[i].tenantId
  }

  lemma RenewRowNeedsLast(db: Db, i: nat, now: int, end: int)
    requires Inv(db) && i < |db.subs|
    ensures LiveIsNewest(RenewRow(db, i, now, end).subs) <==> IsLastRow(db, i)
  {
    var subs := RenewRow(db, i, now, end).subs;
    if IsLastRow(db, i) {
      RewriteKeepsInv(db, i, subs[i]);
    } else {
      var j :| i < j < |db.subs| && db.subs[j].tenantId == db.subs[i].tenantId;
      assert subs[j] == db.subs[j] && IsLive(subs[i]);
    }
  }

  /** A renewal with other operations between its search and its update leaves one live subscription if
      and only if none of them creates a subscription for the tenant. */
  lemma RenewInTwoSteps(events: seq<Event>, t: TenantId, more: seq<Event>, now: int, end: int)
    requires NewestRenewable(Run(events).subs, t) >= 0
    requires Run(events).subs[NewestRenewable(Run(events).subs, t)].status != Active
    ensures var i, later := NewestRenewable(Run(events).subs, t), Run(events + more);
            && i < |later.subs|
            && (LiveIsNewest(RenewRow(later, i, now, end).subs) <==> forall e <- more :: !CreatesFor(e, t))
  {
    var before, later := Run(events), Run(events + more);
    var i := NewestRenewable(before.subs, t);
    assert forall j :: i < j < |before.subs| ==> before.subs[j].tenantId != t by {
      InvHolds(events);
      RenewRevivesNewest(before, t);
    }
    RowsOverTime(events, more, i);
    assert IsLastRow(later, i) <==> forall j :: |before.subs| <= j < |later.subs| ==> later.subs[j].tenantId != t;
    InvHolds(events + more);
    RenewRowNeedsLast(later, i, now, end);
  }

  /** A cancellation in two steps keeps the invariant whatever comes between; it leaves a live
      subscription exactly when one that is newer than the row it had found is live by then. */
  lemma CancelInTwoSteps(events: seq<Event>, t: TenantId, i: nat, more: seq<Event>)
    requires i < |Run(events).subs| && IsLiveOf(Run(events).subs[i], t)
    ensures var later := Run(events + more);
            && i < |later.subs| && Inv(Cancel(later, i))
            && ((exists j :: 0 <= j < |later.subs| && IsLiveOf(Cancel(later, i).subs[j], t)) <==>
                 exists j :: i < j < |later.subs| && IsLiveOf(later.subs[j], t))
  {
    var later := Run(events + more);
    InvHolds(events + more);
    RowsOverTime(events, more, i);
    RewriteKeepsInv(later, i, CancelOne(later.subs[i]));
    forall j | 0 <= j < |later.subs| && IsLiveOf(Cancel(later, i).subs[j], t)
     ensures i < j && IsLiveOf(later.subs[j], t) {
      assert j != i && later.subs[i].tenantId == t;
    }
    if exists j :: i < j < |later.subs| && IsLiveOf(later.subs[j], t) {
      var j :| i < j < |later.subs| && IsLiveOf(later.subs[j], t);
      assert IsLiveOf(Cancel(later, i).subs[j], t);
    }
  }

  // ---------------------------------------------------------------- the services

  datatype Reply = Done(id: nat) | NotFound | BadRequest

  class SubscriptionsService {
    var tenants: map<TenantId, TenantStatus>
    var subs: seq<Subscription>
    const plans: set<PlanId>

    constructor (plans: set<PlanId>)
      ensures View() == EMPTY && this.plans == plans
    {
      tenants, subs, this.plans := map[], [], plans;
    }

    ghost function View(): Db
      reads this
    {
      Db(tenants, subs)
    }

    /** periodEnd stands for `now` moved on by a calendar month or year. */
    method CreateSubscription(t: TenantId, plan: PlanId, cycle: BillingCycle, now: int, periodEnd: int)
       returns (r: Reply)
      modifies this
      ensures plan !in plans || t !in old(tenants) ==> r == NotFound && View() == old(View())
      ensures plan in plans && t in old(tenants) ==>
                && r == Done(|old(subs)|) && View() == Create(old(View()), t, plan, cycle, now, periodEnd)
                && IsCreate(old(View()), View(), t, plan, cycle, now, periodEnd)
    {
      if plan !in plans || t !in tenants {
        return NotFound;
      }
      subs := CancelLive(subs, t);
      subs := subs + [Subscription(t, plan, Active, cycle, now, periodEnd, false)];
      tenants := tenants[t := ActiveTenant];
      return Done(|subs| - 1);
    }

    /** Under the invariant no live subscription is left, whichever one the search comes upon. */
    method CancelSubscription(t: TenantId) returns (r: Reply)
      modifies this
      ensures r == NotFound <==> forall j :: 0 <= j < |old(subs)| ==> !IsLiveOf(old(subs)[j], t)
      ensures r == NotFound ==> View() == old(View())
      ensures r != NotFound ==>
                r.Done? && r.id < |old(subs)| && IsLiveOf(old(subs)[r.id], t) && View() == Cancel(old(View()), r.id)
      ensures r != NotFound ==>
                OnlyRowChanges(old(View()), View(), r.id) && IsCancelledFrom(old(subs)[r.id], subs[r.id])
      ensures Inv(old(View())) ==> Inv(View()) && forall j :: 0 <= j < |subs| ==> !IsLiveOf(subs[j], t)
    {
      if forall j :: 0 <= j < |subs| ==> !IsLiveOf(subs[j], t) {
        return NotFound;
      }
      var i :| 0 <= i < |subs| && IsLiveOf(subs[i], t);
      if Inv(View()) {
        RewriteKeepsInv(View(), i, CancelOne(subs[i]));
      }
      subs := subs[i := CancelOne(subs[i])];
      return Done(i);
    }

    method RenewSubscription(t: TenantId, now: int, periodEnd: int) returns (r: Reply)
      modifies this
      ensures View() == Renew(old(View()), t, now, periodEnd)
      ensures var i := NewestRenewable(old(subs), t);
              && r == (if i < 0 then NotFound else if old(subs)[i].status == Active then BadRequest else Done(i))
              && (r.Done? ==>
                    && OnlyRowChanges(old(View()), View(), i)
                    && subs[i] ==
                       Subscription(t, old(subs)[i].planId, Active, old(subs)[i].cycle, now, periodEnd, false))
              && (!r.Done? ==> View() == old(View()))
    {
      var i := NewestRenewable(subs, t);
      if i < 0 {
        return NotFound;
      }
      if subs[i].status == Active {
        return BadRequest;
      }
      subs := subs[i := subs[i].(status := Active, periodStart := now, periodEnd := periodEnd, isCancelled := false)];
      return Done(i);
    }

    /** The tenant's part of verifyEmailOtp. */
    method ProvisionAfterVerification(t: TenantId, basicPlan: PlanId, now: int, trialEnd: int)
      modifies this
      ensures View() == Provision(old(View()), t, basicPlan, now, trialEnd)
      ensures if t in old(tenants) && old(tenants)[t] == PendingTenant
              then && tenants == old(tenants)[t := TrialTenant]
                   && subs == old(subs) + [Subscription(t, basicPlan, Trial, Monthly, now, trialEnd, false)]
              else tenants == old(tenants) && subs == old(subs)
    {
      if t in tenants && tenants[t] == PendingTenant {
        tenants := tenants[t := TrialTenant];
        subs := subs + [Subscription(t, basicPlan, Trial, Monthly, now, trialEnd, false)];
      }
    }
  }
}
