/**
  The code of data-rights.service.ts, cut at its awaits: each method up to the next database call is one
  step of the protocol, and the three operations put their steps together.
*/
module DeletionService {
  import opened Text
  import opened DataRights

  const SLOT := {RequestedAt, ScheduledAt, DeletionUser}

  /** Upsert number i of a request. */
  function Upsert(c: Client, q: Request, i: nat): Event
    requires i < 3
  {
    if i == 0 then PutRequested(c, q) else if i == 1 then PutScheduled(c) else PutUser(c)
  }

  lemma KeysAreThree(keys: set<SettingKey>)
    ensures keys <= SLOT
  {
    forall key: SettingKey ensures key in SLOT {
      assert key == RequestedAt || key == ScheduledAt || key == DeletionUser;
    }
  }

  class DataRightsService {
    var settings: map<SettingKey, SettingValue>

    /** Which request has written which row, what the running calls remember, and what was executed. */
    ghost var state: State

    ghost predicate Valid()
      reads this
    {
      && settings.Keys == state.slot.Keys
      && forall key <- settings :: settings[key] == Value(key, state.slot[key])
    }

    constructor ()
      ensures Valid() && state == EMPTY
    {
      settings, state := map[], EMPTY;
    }

    // ------------------------------------------------------------ requests

    /** One turn of the loop over the three entries. */
    method UpsertEntry(c: Client, q: Request, i: nat)
      requires Valid() && i < 3 && Possible(state, Upsert(c, q, i)) && (i > 0 ==> state.tasks[c].q == q)
      modifies this
      ensures Valid() && state == Step(old(state), Upsert(c, q, i))
      ensures settings == if i == 0 then old(settings)[RequestedAt := Instant(q.at)]
                          else if i == 1 then old(settings)[ScheduledAt := Instant(q.at + 2_592_000_000)]
                          else old(settings)[DeletionUser := User(q.user)]
    {
      var entries := [(RequestedAt, Instant(q.at)), (ScheduledAt, Instant(q.at + COOLING_MS)),
                      (DeletionUser, User(q.user))];
      settings := settings[entries[i].0 := entries[i].1];
      state := Step(state, Upsert(c, q, i));
    }

    method RequestDeletion(c: Client, q: Request, hasDb: bool) returns (scheduledAt: int)
      requires Valid() && c !in state.tasks
      modifies this
      ensures Valid() && scheduledAt == q.at + COOLING_MS
      ensures state == if hasDb then Step(old(state), Store(q)) else old(state)
      ensures settings == if hasDb
                          then map[RequestedAt := Instant(q.at), ScheduledAt := Instant(q.at + 2_592_000_000),
                                   DeletionUser := User(q.user)]
                          else old(settings)
    {
      scheduledAt := q.at + COOLING_MS;
      if hasDb {
        ghost var s1 := Step(state, PutRequested(c, q));
        ghost var s2 := Step(s1, PutScheduled(c));
        UpsertsStore(state, c, q);
        for i := 0 to 3
          invariant Valid()
          invariant state == if i == 0 then old(state) else if i == 1 then s1 else
                    if i == 2 then s2 else Step(s2, PutUser(c))
        {
          UpsertEntry(c, q, i);
        }
        KeysAreThree(settings.Keys);
      }
    }

    // ------------------------------------------------------------ cancellations

    method ReadPending(c: Client, u: UserId) returns (found: bool)
      requires Valid() && Possible(state, FindPending(c, u))
      modifies this
      ensures Valid() && state == Step(old(state), FindPending(c, u))
      ensures found <==> c in state.tasks
      ensures settings == old(settings) && (found <==> RequestedAt in settings)
    {
      found := RequestedAt in settings;
      state := Step(state, FindPending(c, u));
    }

    method ReadOwner(c: Client, u: UserId) returns (own: bool)
      requires Valid() && Possible(state, FindOwner(c)) && state.tasks[c].user == u
      modifies this
      ensures Valid() && state == Step(old(state), FindOwner(c))
      ensures own <==> Possible(state, Clear(c))
      ensures settings == old(settings)
      ensures own <==> DeletionUser in settings && settings[DeletionUser] == User(u)
    {
      own := DeletionUser in settings && settings[DeletionUser] == User(u);
      state := Step(state, FindOwner(c));
    }

    /** `deleteMany` of the three keys. */
    method DeleteSlot(c: Client)
      requires Valid() && Possible(state, Clear(c))
      modifies this
      ensures Valid() && state == Step(old(state), Clear(c)) && settings == map[]
    {
      KeysAreThree(settings.Keys);
      settings := settings - SLOT;
      state := Step(state, Clear(c));
    }

    /** False stands for the NotFoundException. */
    method CancelDeletion(c: Client, u: UserId, hasDb: bool) returns (cancelled: bool)
      requires Valid() && c !in state.tasks
      modifies this
      ensures Valid() && (cancelled <==> hasDb && MayCancel(old(state).slot, u))
      ensures state == if cancelled then old(state).(slot := map[]) else old(state)
      ensures cancelled <==> && hasDb && RequestedAt in old(settings) && DeletionUser in old(settings)
                             && old(settings)[DeletionUser] == User(u)
      ensures settings == if cancelled then map[] else old(settings)
    {
      if !hasDb {
        return false;
      }
      var found := ReadPending(c, u);
      if !found {
        return false;
      }
      var own := ReadOwner(c, u);
      if !own {
        assert state.tasks == old(state).tasks;
        return false;
      }
      DeleteSlot(c);
      assert state.tasks == old(state).tasks;
      return true;
    }

    // ------------------------------------------------------------ the job

    method ReadSchedule(c: Client, now: int) returns (due: bool)
      requires Valid() && Possible(state, FindSchedule(c, now))
      modifies this
      ensures Valid() && state == Step(old(state), FindSchedule(c, now))
      ensures due <==> c in state.tasks
      ensures settings == old(settings)
      ensures due <==> ScheduledAt in settings && settings[ScheduledAt].Instant? && settings[ScheduledAt].at <= now
    {
      due := ScheduledAt in settings && settings[ScheduledAt].at <= now;
      state := Step(state, FindSchedule(c, now));
    }

    /** The user whose rows are anonymised now. */
    method ReadUser(c: Client) returns (taken: Option<UserId>)
      requires Valid() && Possible(state, TakeUser(c))
      modifies this
      ensures Valid() && state == Step(old(state), TakeUser(c))
      ensures taken.Some? <==> Possible(state, Clear(c))
      ensures taken.Some? ==> taken.value == state.tasks[c].q.user
      ensures settings == old(settings)
      ensures match taken case Some(u) => DeletionUser in settings && settings[DeletionUser] == User(u)
                          case None => DeletionUser !in settings
    {
      taken := if DeletionUser in settings then Some(settings[DeletionUser].id) else None;
      state := Step(state, TakeUser(c));
    }

    method ProcessPendingDeletions(c: Client, now: int) returns (count: nat)
      requires Valid() && c !in state.tasks
      modifies this
      ensures Valid()
      ensures var slot := old(state).slot;
              if ScheduledAt in slot && IsDue(slot[ScheduledAt], now) && DeletionUser in slot
              then count == 1 && state == old(state).(slot := map[], executed := state.executed)
                   && state.executed == old(state).executed + [Execution(slot[DeletionUser], now)]
              else count == 0 && state == old(state)
      ensures count == 0 ==> settings == old(settings)
      ensures count == 1 ==>
                && ScheduledAt in old(settings) && old(settings)[ScheduledAt].Instant?
                && old(settings)[ScheduledAt].at <= now && settings == map[]
    {
      var due := ReadSchedule(c, now);
      if !due {
        return 0;
      }
      var taken := ReadUser(c);
      if taken.None? {
        assert state.tasks == old(state).tasks;
        return 0;
      }
      DeleteSlot(c);
      assert state.tasks == old(state).tasks;
      return 1;
    }
  }
}
