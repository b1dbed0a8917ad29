/**
  Account deletion with a cooling period (data-rights.service.ts).  A tenant has one slot of three
  settings.  A request writes them one after the other; a cancellation reads two of them and deletes
  all three; the job reads two, anonymises the user and deletes all three.  Every database call is one
  atomic step, and between two steps of a call any other call may take steps.
*/
module DataRights {

  const COOLING_MS := 30 * 24 * 60 * 60 * 1000

  type UserId = string

  /** A running call. */
  type Client = nat

  /** A request: its number, its user and its time. */
  datatype Request = Request(id: nat, user: UserId, at: int)

  datatype SettingKey = RequestedAt | ScheduledAt | DeletionUser

  datatype SettingValue = Instant(at: int) | User(id: UserId)

  /** What a request writes into a row. */
  function Value(key: SettingKey, q: Request): SettingValue {
    match key
    case RequestedAt => Instant(q.at)
    case ScheduledAt => Instant(q.at + COOLING_MS)
    case DeletionUser => User(q.user)
  }

  /** The rows that exist, each given by the request that has written it. */
  type Slot = map<SettingKey, Request>

  function Whole(q: Request): Slot {
    map[RequestedAt := q, ScheduledAt := q, DeletionUser := q]
  }

  /** Thirty days have passed since the request. */
  predicate IsDue(q: Request, now: int) {
    q.at + COOLING_MS <= now
  }

  predicate MayCancel(slot: Slot, u: UserId) {
    RequestedAt in slot && DeletionUser in slot && slot[DeletionUser].user == u
  }

  /** What a call remembers between its database calls. */
  datatype Task =
    | Storing(q: Request, upserts: nat)      // a request that has written this many rows
    | Confirming(user: UserId)               // a cancellation that has found a request
    | Cancelling(user: UserId, q: Request)   // ... and the user row of q to be its user's
    | Checking(now: int, q: Request)         // a job that has found the schedule row of q due
    | Executing(q: Request)                  // ... and has taken the user of q

  /** An execution: the request whose user row was read, and the job's time. */
  datatype Execution = Execution(q: Request, now: int)

  datatype State = State(slot: Slot, tasks: map<Client, Task>, executed: seq<Execution>)

  const EMPTY := State(map[], map[], [])

  datatype Event =
    | Store(q: Request)                      // a whole request, when nothing comes between its upserts
    | PutRequested(c: Client, q: Request)
    | PutScheduled(c: Client)
    | PutUser(c: Client)
    | FindPending(c: Client, user: UserId)
    | FindOwner(c: Client)
    | FindSchedule(c: Client, now: int)
    | TakeUser(c: Client)
    | Clear(c: Client)

  predicate Possible(s: State, e: Event) {
    match e
    case Store(q) => true
    case PutRequested(c, q) => c !in s.tasks
    case PutScheduled(c) => c in s.tasks && s.tasks[c].Storing? && s.tasks[c].upserts == 1
    case PutUser(c) => c in s.tasks && s.tasks[c].Storing? && s.tasks[c].upserts == 2
    case FindPending(c, u) => c !in s.tasks
    case FindOwner(c) => c in s.tasks && s.tasks[c].Confirming?
    case FindSchedule(c, now) => c !in s.tasks
    case TakeUser(c) => c in s.tasks && s.tasks[c].Checking?
    case Clear(c) => c in s.tasks && (s.tasks[c].Cancelling? || s.tasks[c].Executing?)
  }

  /** A call that finds nothing to do ends; a call that goes on remembers what it has found. */
  function Step(s: State, e: Event): State
    requires Possible(s, e)
  {
    match e
    case Store(q) => s.(slot := Whole(q))
    case PutRequested(c, q) => s.(slot := s.slot[RequestedAt := q], tasks := s.tasks[c := Storing(q, 1)])
    case PutScheduled(c) =>
      var q := s.tasks[c].q;
      s.(slot := s.slot[ScheduledAt := q], tasks := s.tasks[c := Storing(q, 2)])
    case PutUser(c) => s.(slot := s.slot[DeletionUser := s.tasks[c].q], tasks := s.tasks - {c})
    case FindPending(c, u) => if RequestedAt in s.slot then s.(tasks := s.tasks[c := Confirming(u)]) else s
    case FindOwner(c) =>
      var u := s.tasks[c].user;
      if DeletionUser in s.slot && s.slot[DeletionUser].user == u
      then s.(tasks := s.tasks[c := Cancelling(u, s.slot[DeletionUser])])
      else s.(tasks := s.tasks - {c})
    case FindSchedule(c, now) =>
      if ScheduledAt in s.slot && IsDue(s.slot[ScheduledAt], now)
      then s.(tasks := s.tasks[c := Checking(now, s.slot[ScheduledAt])])
      else s
    case TakeUser(c) =>
      if DeletionUser in s.slot
      then
        var q := s.slot[DeletionUser];
        s.(tasks := s.tasks[c := Executing(q)], executed := s.executed + [Execution(q, s.tasks[c].now)])
      else s.(tasks := s.tasks - {c})
    case Clear(c) => s.(slot := map[], tasks := s.tasks - {c})
  }

  /** t is reached from s by the events, in any order and interleaving. */
  predicate Runs(s: State, events: seq<Event>, t: State)
    decreases |events|
  {
    if events == [] then s == t
    else Possible(s, events[0]) && Runs(Step(s, events[0]), events[1..], t)
  }

  lemma {:induction false} RunsFurther(s: State, events: seq<Event>, t: State, e: Event)
    requires Runs(s, events, t) && Possible(t, e)
    ensures Runs(s, events + [e], Step(t, e))
    decreases |events|
  {
    var all := events + [e];
    if events == [] {
      assert all[1..] == [];
    } else {
      assert all[1..] == events[1..] + [e];
      RunsFurther(Step(s, events[0]), events[1..], t, e);
    }
  }

  predicate HasRow(slot: Slot, key: SettingKey, q: Request) {
    key in slot && slot[key] == q
  }

  lemma SlotIsWhole(slot: Slot, q: Request)
    ensures slot == Whole(q) <==>
            HasRow(slot, RequestedAt, q) && HasRow(slot, ScheduledAt, q) && HasRow(slot, DeletionUser, q)
  {
    if HasRow(slot, RequestedAt, q) && HasRow(slot, ScheduledAt, q) && HasRow(slot, DeletionUser, q) {
      forall key: SettingKey ensures HasRow(slot, key, q) && key in Whole(q) {
        assert key == RequestedAt || key == ScheduledAt || key == DeletionUser;
      }
    } else {
      assert HasRow(Whole(q), RequestedAt, q) && HasRow(Whole(q), ScheduledAt, q) && HasRow(Whole(q), DeletionUser, q);
    }
  }

  /** Three upserts with nothing in between store the whole request. */
  lemma UpsertsStore(s: State, c: Client, q: Request)
    requires c !in s.tasks
    ensures var s1 := Step(s, PutRequested(c, q));
            var s2 := Step(s1, PutScheduled(c));
            Step(s2, PutUser(c)) == Step(s, Store(q))
  {
    assert s.tasks[c := Storing(q, 1)][c := Storing(q, 2)] - {c} == s.tasks;
    SlotIsWhole(s.slot[RequestedAt := q][ScheduledAt := q][DeletionUser := q], q);
  }

  // ---------------------------------------------------------------- the history of a row

  /** The event writes or deletes the row. */
  predicate Touches(e: Event, key: SettingKey) {
    match e
    case Store(q) => true
    case Clear(c) => true
    case PutRequested(c, q) => key == RequestedAt
    case PutScheduled(c) => key == ScheduledAt
    case PutUser(c) => key == DeletionUser
    case _ => false
  }

  /** The last event that touches the row; -1 when there is none. */
  function LastTouch(events: seq<Event>, key: SettingKey): (r: int)
    ensures -1 <= r < |events|
    ensures r >= 0 ==> Touches(events[r], key)
    ensures forall j :: r < j < |events| ==> !Touches(events[j], key)
  {
    if events == [] then -1
    else
      var r := LastTouch(events[1..], key);
      if r >= 0 then r + 1 else if Touches(events[0], key) then 0 else -1
  }

  predicate Untouched(events: seq<Event>, key: SettingKey) {
    LastTouch(events, key) < 0
  }

  /** The row is deleted and not written again. */
  predicate EndsCleared(events: seq<Event>, key: SettingKey) {
    LastTouch(events, key) >= 0 && events[LastTouch(events, key)].Clear?
  }

  predicate IsBy(e: Event, c: Client) {
    !e.Store? && e.c == c
  }

  /** The events are steps of other calls, and none of them stores request number id. */
  predicate AreOthers(events: seq<Event>, c: Client, id: nat) {
    forall e <- events :: !IsBy(e, c) && (e.Store? || e.PutRequested? ==> e.q.id != id)
  }

  predicate TasksAreOthers(tasks: map<Client, Task>, c: Client, id: nat) {
    forall d <- tasks :: d != c && tasks[d].Storing? ==> tasks[d].q.id != id
  }

  predicate SameTask(s: State, t: State, c: Client) {
    (c in s.tasks <==> c in t.tasks) && (c in s.tasks ==> s.tasks[c] == t.tasks[c])
  }

  predicate SameRow(s: State, t: State, key: SettingKey) {
    (key in s.slot <==> key in t.slot) && (key in s.slot ==> s.slot[key] == t.slot[key])
  }

  /** Events of other calls leave a call's memory alone. */
  lemma {:induction false} TaskIsKept(s: State, events: seq<Event>, t: State, c: Client)
    requires Runs(s, events, t) && forall e <- events :: !IsBy(e, c)
    ensures SameTask(s, t, c)
    decreases |events|
  {
    if events != [] {
      assert events[0] in events;
      TaskIsKept(Step(s, events[0]), events[1..], t, c);
    }
  }

  /** A row is what the last event that touches it has made of it; what others write is not of q. */
  lemma {:induction false} RowHistory(s: State, events: seq<Event>, t: State, key: SettingKey, c: Client, id: nat)
    requires Runs(s, events, t) && AreOthers(events, c, id) && TasksAreOthers(s.tasks, c, id)
    ensures TasksAreOthers(t.tasks, c, id)
    ensures Untouched(events, key) ==> SameRow(s, t, key)
    ensures EndsCleared(events, key) ==> key !in t.slot
    ensures !Untouched(events, key) && !EndsCleared(events, key) ==> key in t.slot && t.slot[key].id != id
    decreases |events|
  {
    if events != [] {
      var e, u := events[0], Step(s, events[0]);
      assert e in events;
      RowHistory(u, events[1..], t, key, c, id);
    }
  }

  // ---------------------------------------------------------------- a request and what comes between its upserts

  /** Call c makes request q from state s; x happens between its first and its second upsert and y
      between its second and its third. */
  ghost predicate RequestRuns(s: State, c: Client, q: Request, x: seq<Event>, s2: State, y: seq<Event>, s4: State) {
    && Possible(s, PutRequested(c, q)) && TasksAreOthers(s.tasks, c, q.id)
    && Runs(Step(s, PutRequested(c, q)), x, s2) && AreOthers(x, c, q.id)
    && Possible(s2, PutScheduled(c))
    && Runs(Step(s2, PutScheduled(c)), y, s4) && AreOthers(y, c, q.id)
    && Possible(s4, PutUser(c))
  }

  /** What becomes of the row that the first upsert writes. */
  lemma FirstRow(s: State, c: Client, q: Request, x: seq<Event>, s2: State, y: seq<Event>, s4: State)
    requires RequestRuns(s, c, q, x, s2, y, s4)
    ensures RequestedAt in s4.slot <==>
            !EndsCleared(y, RequestedAt) && (Untouched(y, RequestedAt) ==> !EndsCleared(x, RequestedAt))
    ensures HasRow(s4.slot, RequestedAt, q) <==>
            Untouched(x, RequestedAt) && Untouched(y, RequestedAt)
  {
    var s1, s3 := Step(s, PutRequested(c, q)), Step(s2, PutScheduled(c));
    RowHistory(s1, x, s2, RequestedAt, c, q.id);
    RowHistory(s3, y, s4, RequestedAt, c, q.id);
    assert SameRow(s2, s3, RequestedAt);
  }

  /** What becomes of the row that the second upsert writes. */
  lemma SecondRow(s: State, c: Client, q: Request, x: seq<Event>, s2: State, y: seq<Event>, s4: State)
    requires RequestRuns(s, c, q, x, s2, y, s4)
    ensures ScheduledAt in s4.slot <==> !EndsCleared(y, ScheduledAt)
    ensures HasRow(s4.slot, ScheduledAt, q) <==> Untouched(y, ScheduledAt)
    ensures s4.tasks[c] == Storing(q, 2)
  {
    var s1, s3 := Step(s, PutRequested(c, q)), Step(s2, PutScheduled(c));
    TaskIsKept(s1, x, s2, c);
    RowHistory(s1, x, s2, ScheduledAt, c, q.id);
    TaskIsKept(s3, y, s4, c);
    RowHistory(s3, y, s4, ScheduledAt, c, q.id);
  }

  /** MAIN RESULT.  A request is stored whole if and only if nothing deletes the slot and no other
      request writes its first row between the first and the last upsert, and no other request writes
      its second row between the second and the last. */
  lemma RequestSurvives(s: State, c: Client, q: Request, x: seq<Event>, s2: State, y: seq<Event>, s4: State)
    requires RequestRuns(s, c, q, x, s2, y, s4)
    ensures Step(s4, PutUser(c)).slot == Whole(q) <==>
            Untouched(x, RequestedAt) && Untouched(y, RequestedAt) && Untouched(y, ScheduledAt)
  {
    FirstRow(s, c, q, x, s2, y, s4);
    SecondRow(s, c, q, x, s2, y, s4);
    SlotIsWhole(Step(s4, PutUser(c)).slot, q);
  }

  /** MAIN RESULT.  What a request that has been acknowledged is worth: its user can cancel it if and
      only if the row of the request time is not gone, and the job will ever come to it if and only if
      the row of the schedule is not gone. */
  lemma RequestOutcome(s: State, c: Client, q: Request, x: seq<Event>, s2: State, y: seq<Event>, s4: State)
    requires RequestRuns(s, c, q, x, s2, y, s4)
    ensures var slot := Step(s4, PutUser(c)).slot;
            && slot[DeletionUser] == q
            && (MayCancel(slot, q.user) <==>
                  !EndsCleared(y, RequestedAt) && (Untouched(y, RequestedAt) ==> !EndsCleared(x, RequestedAt)))
            && (ScheduledAt in slot <==> !EndsCleared(y, ScheduledAt))
            && (Untouched(y, ScheduledAt) ==> slot[ScheduledAt] == q)
  {
    FirstRow(s, c, q, x, s2, y, s4);
    SecondRow(s, c, q, x, s2, y, s4);
  }

  /** The slot is deleted between the first two upserts: the deletion will be executed, and its user
      cannot prevent it. */
  lemma ClearedEarly(s: State, c: Client, q: Request, x: seq<Event>, s2: State, y: seq<Event>, s4: State)
    requires RequestRuns(s, c, q, x, s2, y, s4)
    requires EndsCleared(x, RequestedAt) && Untouched(y, RequestedAt) && Untouched(y, ScheduledAt)
    ensures var t := Step(s4, PutUser(c));
            && !MayCancel(t.slot, q.user)
            && forall now, d | d !in t.tasks && IsDue(q, now) ::
                 Step(t, FindSchedule(d, now)).tasks == t.tasks[d := Checking(now, q)]
  {
    RequestOutcome(s, c, q, x, s2, y, s4);
  }

  /** The slot is deleted between the last two: the request is lost, it is never executed and cannot be
      cancelled either. */
  lemma ClearedLate(s: State, c: Client, q: Request, x: seq<Event>, s2: State, y: seq<Event>, s4: State)
    requires RequestRuns(s, c, q, x, s2, y, s4)
    requires EndsCleared(y, RequestedAt) && EndsCleared(y, ScheduledAt)
    ensures var t := Step(s4, PutUser(c));
            && t.slot == map[DeletionUser := q]
            && !MayCancel(t.slot, q.user)
            && forall now, d | d !in t.tasks :: Step(t, FindSchedule(d, now)) == t
  {
    RequestOutcome(s, c, q, x, s2, y, s4);
    var slot := Step(s4, PutUser(c)).slot;
    forall key | key in slot ensures key == DeletionUser {
      assert key == RequestedAt || key == ScheduledAt || key == DeletionUser;
    }
  }

  // ---------------------------------------------------------------- who may delete the slot

  /** A call deletes the slot only after it has found its own user in it, or a schedule that was due. */
  ghost predicate TaskInOrder(task: Task, executed: seq<Execution>) {
    match task
    case Storing(q, upserts) => 1 <= upserts <= 2
    case Confirming(u) => true
    case Cancelling(u, q) => q.user == u
    case Checking(now, q) => IsDue(q, now)
    case Executing(q) => exists x <- executed :: x.q == q
  }

  lemma {:induction false} TasksStayInOrder(s: State, events: seq<Event>, t: State)
    requires Runs(s, events, t) && forall c <- s.tasks :: TaskInOrder(s.tasks[c], s.executed)
    ensures forall c <- t.tasks :: TaskInOrder(t.tasks[c], t.executed)
    decreases |events|
  {
    if events != [] {
      var u := Step(s, events[0]);
      forall c | c in u.tasks ensures TaskInOrder(u.tasks[c], u.executed) {
        if c in s.tasks && s.tasks[c] == u.tasks[c] {
          assert TaskInOrder(s.tasks[c], s.executed);
          assert forall x <- s.executed :: x in u.executed;
        } else if u.tasks[c].Executing? {
          assert u.executed[|s.executed|] in u.executed;
        }
      }
      TasksStayInOrder(u, events[1..], t);
    }
  }

  /** Whatever the interleaving: a cancellation that deletes the slot has found its own user in it, and
      a job that does so has executed a deletion. */
  lemma ClearHasReason(events: seq<Event>, t: State, c: Client)
    requires Runs(EMPTY, events, t) && Possible(t, Clear(c))
    ensures t.tasks[c].Cancelling? ==> t.tasks[c].q.user == t.tasks[c].user
    ensures t.tasks[c].Executing? ==> exists x <- t.executed :: x.q == t.tasks[c].q
  {
    TasksStayInOrder(EMPTY, events, t);
    assert TaskInOrder(t.tasks[c], t.executed);
  }

  // ---------------------------------------------------------------- histories of whole requests

  /** Every request is stored without anything between its upserts.  Cancellations and jobs are
      interleaved in any way. */
  predicate WholeRequests(events: seq<Event>) {
    forall e <- events :: !e.PutRequested? && !e.PutScheduled? && !e.PutUser?
  }

  lemma {:induction false} SlotFollows(s: State, events: seq<Event>, t: State)
    requires Runs(s, events, t) && WholeRequests(events)
    ensures Untouched(events, DeletionUser) ==> t.slot == s.slot
    ensures EndsCleared(events, DeletionUser) ==> t.slot == map[]
    ensures !Untouched(events, DeletionUser) && !EndsCleared(events, DeletionUser) ==>
              var e := events[LastTouch(events, DeletionUser)];
              e.Store? && t.slot == Whole(e.q)
    decreases |events|
  {
    if events != [] {
      assert events[0] in events;
      SlotFollows(Step(s, events[0]), events[1..], t);
    }
  }

  /** Event k stores request q, and nothing has touched the slot since. */
  predicate PendingSince(events: seq<Event>, k: nat, q: Request) {
    && k < |events| && events[k] == Store(q)
    && forall j :: k < j < |events| ==> !Touches(events[j], DeletionUser)
  }

  /** What the settings say is what the history says. */
  lemma SlotTellsHistory(events: seq<Event>, t: State) returns (k: nat, q: Request)
    requires Runs(EMPTY, events, t) && WholeRequests(events)
    ensures t.slot == map[] || (t.slot == Whole(q) && PendingSince(events, k, q))
    ensures t.slot == map[] ==> forall j, p :: !PendingSince(events, j, p)
  {
    SlotFollows(EMPTY, events, t);
    k, q := 0, Request(0, "", 0);
    if LastTouch(events, DeletionUser) >= 0 {
      k := LastTouch(events, DeletionUser);
      if events[k].Store? {
        q := events[k].q;
      }
    }
  }

  lemma PendingIsUnique(events: seq<Event>, k: nat, q: Request, j: nat, p: Request)
    requires PendingSince(events, k, q) && PendingSince(events, j, p)
    ensures k == j && q == p
  {
  }

  /** MAIN RESULT.  The user that a job takes is the one whose request was the last event to touch the
      slot, even if that is not the request whose schedule the job had read.  The deletion is owed, that
      is, thirty days old, if and only if the schedule is still due when the user is read. */
  lemma ExecutionIsOwed(events: seq<Event>, t: State, c: Client) returns (k: nat)
    requires Runs(EMPTY, events, t) && WholeRequests(events)
    requires Possible(t, TakeUser(c)) && DeletionUser in t.slot
    ensures ScheduledAt in t.slot
    ensures var q, now := t.slot[DeletionUser], t.tasks[c].now;
            && Step(t, TakeUser(c)).executed == t.executed + [Execution(q, now)]
            && PendingSince(events, k, q)
            && (q.at + 2_592_000_000 <= now <==> Value(ScheduledAt, t.slot[ScheduledAt]).at <= now)
  {
    var q;
    k, q := SlotTellsHistory(events, t);
  }

  /** The same by what happens between the job's two reads: the deletion is owed if and only if nothing
      touches the slot, or the request that was stored last is itself thirty days old. */
  lemma OwedBetweenReads(s: State, c: Client, now: int, q: Request, more: seq<Event>, t: State)
    requires Possible(s, FindSchedule(c, now)) && s.slot == Whole(q) && IsDue(q, now)
    requires Runs(Step(s, FindSchedule(c, now)), more, t) && WholeRequests(more) && forall e <- more :: !IsBy(e, c)
    requires DeletionUser in t.slot
    ensures Possible(t, TakeUser(c)) && t.tasks[c] == Checking(now, q)
    ensures IsDue(t.slot[DeletionUser], now) <==>
            Untouched(more, DeletionUser)
            || (more[LastTouch(more, DeletionUser)].Store? && IsDue(more[LastTouch(more, DeletionUser)].q, now))
  {
    TaskIsKept(Step(s, FindSchedule(c, now)), more, t, c);
    SlotFollows(Step(s, FindSchedule(c, now)), more, t);
  }

  /** In every interleaving, of requests that are stored row by row too: a job that finds a request due
      executes just this one unless another request writes its user row before the job reads it. */
  lemma JobIsNotOvertaken(s: State, c: Client, now: int, q: Request, more: seq<Event>, t: State)
    requires Possible(s, FindSchedule(c, now)) && ScheduledAt in s.slot && s.slot[ScheduledAt] == q && IsDue(q, now)
    requires DeletionUser in s.slot ==> s.slot[DeletionUser] == q
    requires Runs(Step(s, FindSchedule(c, now)), more, t)
    requires forall e <- more :: !IsBy(e, c) && !e.Store? && !e.PutUser?
    ensures Possible(t, TakeUser(c))
    ensures DeletionUser in t.slot ==> Step(t, TakeUser(c)).executed == t.executed + [Execution(q, now)]
    ensures DeletionUser !in t.slot ==> Step(t, TakeUser(c)).executed == t.executed
  {
    TaskIsKept(Step(s, FindSchedule(c, now)), more, t, c);
    UserRowStays(Step(s, FindSchedule(c, now)), more, t);
  }

  lemma {:induction false} UserRowStays(s: State, more: seq<Event>, t: State)
    requires Runs(s, more, t) && forall e <- more :: !e.Store? && !e.PutUser?
    ensures DeletionUser in t.slot ==> SameRow(s, t, DeletionUser)
    decreases |more|
  {
    if more != [] {
      assert more[0] in more;
      UserRowStays(Step(s, more[0]), more[1..], t);
    }
  }

  /** A pending request is executed by a job that runs undisturbed, as soon as thirty days are over. */
  lemma ExecutionHappens(events: seq<Event>, t: State, k: nat, q: Request, c: Client, now: int)
    requires Runs(EMPTY, events, t) && WholeRequests(events) && PendingSince(events, k, q)
    requires Possible(t, FindSchedule(c, now))
    ensures var t1 := Step(t, FindSchedule(c, now));
            if q.at + 2_592_000_000 <= now
            then Possible(t1, TakeUser(c)) && Step(t1, TakeUser(c)).executed == t.executed + [Execution(q, now)]
            else t1 == t
  {
    var j, p := SlotTellsHistory(events, t);
    PendingIsUnique(events, k, q, j, p);
  }

  /** A cancellation that has found a request goes on exactly if the pending request is its user's own. */
  lemma CancelIsOwn(events: seq<Event>, t: State, c: Client)
    requires Runs(EMPTY, events, t) && WholeRequests(events) && Possible(t, FindOwner(c))
    ensures Possible(Step(t, FindOwner(c)), Clear(c)) <==>
            exists k, q :: PendingSince(events, k, q) && q.user == t.tasks[c].user
  {
    var k, q := SlotTellsHistory(events, t);
    if t.slot != map[] {
      forall j, p | PendingSince(events, j, p) ensures p == q {
        PendingIsUnique(events, k, q, j, p);
      }
    }
  }

  /** What the final deletion wipes: between a call's decision on request q and its deletion of the slot,
      another request gets lost if and only if one is stored last. */
  lemma ClearWipes(s: State, c: Client, q: Request, more: seq<Event>, t: State)
    requires Possible(s, Clear(c)) && s.slot == Whole(q)
    requires Runs(s, more, t) && WholeRequests(more) && AreOthers(more, c, q.id)
    ensures Possible(t, Clear(c)) && Step(t, Clear(c)).slot == map[]
    ensures t.slot == map[] || t.slot == Whole(q) <==>
            Untouched(more, DeletionUser) || EndsCleared(more, DeletionUser)
  {
    TaskIsKept(s, more, t, c);
    SlotFollows(s, more, t);
    if !Untouched(more, DeletionUser) && !EndsCleared(more, DeletionUser) {
      var e := more[LastTouch(more, DeletionUser)];
      assert e in more;
      assert t.slot[DeletionUser] == e.q;
    }
  }

  predicate NoRequest(events: seq<Event>) {
    forall e <- events :: !e.Store? && !e.PutRequested? && !e.PutScheduled? && !e.PutUser?
  }

  /** Once the slot is deleted, nothing is executed until a new request, not even by a job that has found
      the old schedule due. */
  lemma {:induction false} NothingAfterClear(s: State, more: seq<Event>, t: State)
    requires s.slot == map[] && Runs(s, more, t) && NoRequest(more)
    ensures t.slot == map[] && t.executed == s.executed
    decreases |more|
  {
    if more != [] {
      assert more[0] in more;
      NothingAfterClear(Step(s, more[0]), more[1..], t);
    }
  }

  // ---------------------------------------------------------------- runs that go wrong

  /** The job reads a due schedule of u; v makes a request; the job reads the user and takes v, who asked
      this very moment. */
  lemma TakesYoungRequest(u: Request, v: Request)
    requires IsDue(u, v.at) && u.user != v.user
    ensures exists events, t ::
              && Runs(EMPTY, events, t) && WholeRequests(events)
              && t.executed == [Execution(v, v.at)] && !IsDue(v, v.at)
  {
    var s0: seq<Event> := [];
    var t1 := Step(EMPTY, Store(u));
    RunsFurther(EMPTY, s0, EMPTY, Store(u));
    var s1 := s0 + [Store(u)];
    var t2 := Step(t1, FindSchedule(0, v.at));
    RunsFurther(EMPTY, s1, t1, FindSchedule(0, v.at));
    var s2 := s1 + [FindSchedule(0, v.at)];
    var t3 := Step(t2, Store(v));
    RunsFurther(EMPTY, s2, t2, Store(v));
    var s3 := s2 + [Store(v)];
    RunsFurther(EMPTY, s3, t3, TakeUser(0));
    var s4 := s3 + [TakeUser(0)];
    assert Runs(EMPTY, s4, Step(t3, TakeUser(0))) && WholeRequests(s4);
  }

  /** The steps of a cancellation. */
  function Cancellation(c: Client, u: UserId): seq<Event> {
    [FindPending(c, u), FindOwner(c), Clear(c)]
  }

  /** A cancellation by the owner of the user row runs through and empties the slot. */
  lemma CancellationRuns(s: State, c: Client, u: UserId)
    requires c !in s.tasks && MayCancel(s.slot, u)
    ensures Runs(s, Cancellation(c, u), s.(slot := map[]))
    ensures LastTouch(Cancellation(c, u), RequestedAt) == LastTouch(Cancellation(c, u), ScheduledAt) == 2
  {
    var s1 := Step(s, FindPending(c, u));
    var s2 := Step(s1, FindOwner(c));
    assert s2.tasks - {c} == s.tasks;
    RunsFurther(s, [], s, FindPending(c, u));
    assert [] + [FindPending(c, u)] == [FindPending(c, u)];
    RunsFurther(s, [FindPending(c, u)], s1, FindOwner(c));
    assert [FindPending(c, u)] + [FindOwner(c)] == [FindPending(c, u), FindOwner(c)];
    RunsFurther(s, [FindPending(c, u), FindOwner(c)], s2, Clear(c));
    assert [FindPending(c, u), FindOwner(c)] + [Clear(c)] == Cancellation(c, u);
    assert Touches(Cancellation(c, u)[2], RequestedAt) && Touches(Cancellation(c, u)[2], ScheduledAt);
  }

  /** The user u of an older request cancels it after the first upsert of a new request by v: v's
      deletion will be executed and v cannot cancel it. */
  lemma CancelAfterFirst(u: Request, v: Request)
    requires u.id != v.id
    ensures exists s2, s4 ::
              && RequestRuns(Step(EMPTY, Store(u)), 0, v, Cancellation(1, u.user), s2, [], s4)
              && Step(s4, PutUser(0)).slot == map[ScheduledAt := v, DeletionUser := v]
  {
    var s := Step(EMPTY, Store(u));
    var s1 := Step(s, PutRequested(0, v));
    var s2 := s1.(slot := map[]);
    CancellationRuns(s1, 1, u.user);
    var s4 := Step(s2, PutScheduled(0));
    assert RequestRuns(s, 0, v, Cancellation(1, u.user), s2, [], s4);
  }

  /** After the second upsert: v's request is lost. */
  lemma CancelAfterSecond(u: Request, v: Request)
    requires u.id != v.id
    ensures exists s2, s4 ::
              && RequestRuns(Step(EMPTY, Store(u)), 0, v, [], s2, Cancellation(1, u.user), s4)
              && Step(s4, PutUser(0)).slot == map[DeletionUser := v]
  {
    var s := Step(EMPTY, Store(u));
    var s2 := Step(s, PutRequested(0, v));
    var s3 := Step(s2, PutScheduled(0));
    CancellationRuns(s3, 1, u.user);
    var s4 := s3.(slot := map[]);
    assert RequestRuns(s, 0, v, [], s2, Cancellation(1, u.user), s4);
  }
}
