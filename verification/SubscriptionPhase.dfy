/**
  computeSubscriptionStatus (subscription-status.service.ts): the phase of a subscription from the end
  of its period, its status column and the time.  Times are in milliseconds; sixty days are taken as
  sixty times 24 hours.
*/
module SubscriptionPhase {
  import opened Text

  const DAY_MS := 24 * 60 * 60 * 1000
  const GRACE_DAYS := 7
  const DELETION_DAYS := 60

  datatype Phase = ActivePhase | TrialPhase | Grace | Locked | Deleted

  /** The `status` argument, a plain string in the code. */
  datatype StatusColumn = ActiveColumn | TrialColumn | OtherColumn

  datatype Status = Status(phase: Phase, daysSinceExpiry: nat, daysUntilDeletion: Option<nat>,
                           canRead: bool, canWrite: bool, canAccessDashboard: bool)

  function Max(a: int, b: int): int { if a > b then a else b }

  function Compute(periodEnd: int, column: StatusColumn, now: int): Status {
    var isExpired := periodEnd < now;
    var daysSinceExpiry := if isExpired then (now - periodEnd) / DAY_MS else 0;
    var deletionDate := periodEnd + DELETION_DAYS * DAY_MS;
    var daysUntilDeletion := if isExpired then Some(Max(0, (deletionDate - now) / DAY_MS)) else None;
    if !isExpired && column != OtherColumn then
      Status(if column == TrialColumn then TrialPhase else ActivePhase, 0, None, true, true, true)
    else if daysSinceExpiry <= GRACE_DAYS then Status(Grace, daysSinceExpiry, daysUntilDeletion, true, false, true)
    else if daysSinceExpiry <= DELETION_DAYS then
     Status(Locked, daysSinceExpiry, daysUntilDeletion, false, false, false)
    else Status(Deleted, daysSinceExpiry, Some(0), false, false, false)
  }

  /** How far a phase is along. */
  function Rank(p: Phase): nat {
    match p
    case ActivePhase => 0
    case TrialPhase => 0
    case Grace => 1
    case Locked => 2
    case Deleted => 3
  }

  /** MAIN RESULT.  As time goes by the phase never goes back and no right comes back; the day counters
      move in opposite directions. */
  lemma PhasesMoveForward(periodEnd: int, column: StatusColumn, now: int, later: int)
    requires now <= later
    ensures var a, b := Compute(periodEnd, column, now), Compute(periodEnd, column, later);
            && Rank(a.phase) <= Rank(b.phase)
            && (b.canRead ==> a.canRead) && (b.canWrite ==> a.canWrite)
            && a.daysSinceExpiry <= b.daysSinceExpiry
            && (a.daysUntilDeletion.Some? ==>
                  b.daysUntilDeletion.Some? && b.daysUntilDeletion.value <= a.daysUntilDeletion.value)
  {
    if periodEnd < now {
      DivMonotone(now - periodEnd, later - periodEnd);
      DivMonotone(periodEnd + DELETION_DAYS * DAY_MS - later, periodEnd + DELETION_DAYS * DAY_MS - now);
    }
  }

  lemma DivMonotone(x: int, y: int)
    requires x <= y
    ensures x / DAY_MS <= y / DAY_MS
  {
  }

  /** The numbers of the status: whole days since the end of the period, and whole days until sixty days
      after it; there is no count-down while the subscription runs. */
  lemma CountersAreDays(periodEnd: int, column: StatusColumn, now: int)
    ensures var s, day := Compute(periodEnd, column, now), 86_400_000;
            && (now <= periodEnd ==> s.daysSinceExpiry == 0 && s.daysUntilDeletion == None)
            && (now > periodEnd ==>
                  && s.daysSinceExpiry * day <= now - periodEnd < (s.daysSinceExpiry + 1) * day
                  && s.daysUntilDeletion.Some?
                  && var left, d := periodEnd + 60 * day - now, s.daysUntilDeletion.value;
                     if left < 0 then d == 0 else d * day <= left < (d + 1) * day)
  {
  }

  /** The phases by days since the end of the period: read-only up to day 7, locked up to day 60. */
  lemma PhaseByDay(periodEnd: int, column: StatusColumn, now: int)
    ensures var s, day := Compute(periodEnd, column, now), 86_400_000;
            s.phase == if now <= periodEnd && column == ActiveColumn then ActivePhase
                       else if now <= periodEnd && column == TrialColumn then TrialPhase
                       else if now < periodEnd + 8 * day then Grace
                       else if now < periodEnd + 61 * day then Locked
                       else Deleted
  {
  }

  /** What a phase means for the tenant, and which times it spans. */
  lemma RightsOfPhase(periodEnd: int, column: StatusColumn, now: int)
    ensures var s := Compute(periodEnd, column, now);
            && (s.canWrite ==> s.canRead)
            && (s.canRead <==> s.canAccessDashboard)
            && (s.canWrite <==> now <= periodEnd && column != OtherColumn)
            && (s.canRead <==> now < periodEnd + (GRACE_DAYS + 1) * DAY_MS)
            && (s.phase == TrialPhase <==> s.canWrite && column == TrialColumn)
            && (s.phase == ActivePhase <==> s.canWrite && column == ActiveColumn)
            && (s.phase == Grace <==> s.canRead && !s.canWrite)
  {
  }

  /** Deletion is reached 61 days after the period, although the count-down shows zero as soon as the
      59th day is over. */
  lemma DeletionDay(periodEnd: int, column: StatusColumn, now: int)
    ensures var s := Compute(periodEnd, column, now);
            && (s.phase == Deleted <==> now >= periodEnd + (DELETION_DAYS + 1) * DAY_MS)
            && (s.daysUntilDeletion == Some(0) <==> now > periodEnd + (DELETION_DAYS - 1) * DAY_MS)
  {
  }

  /** Within the sixty days the two counters add up to 60 at whole days and to 59 in between. */
  lemma CountersAddUp(periodEnd: int, column: StatusColumn, now: int)
    requires periodEnd < now <= periodEnd + DELETION_DAYS * DAY_MS
    ensures var s := Compute(periodEnd, column, now);
            s.daysSinceExpiry + s.daysUntilDeletion.value ==
            if (now - periodEnd) % DAY_MS == 0 then DELETION_DAYS else DELETION_DAYS - 1
  {
  }
}
