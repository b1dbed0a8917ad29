/**
  Single-flight refresh of the access token (apps/dashboard/src/lib/api.ts).  JavaScript runs the
  code between two awaits without interruption, so tryRefreshToken is three atomic pieces: from the
  call to the request, from the response to reading its body, and from the body to the end.
*/
module TokenRefresh {
  import opened Text

  /** Calls of tryRefreshToken are numbered in the order in which they start. */
  type Caller = nat

  /** What the browser's storage holds when a call looks: nothing, text that does not parse, a
      session without a refresh token, or one with it. */
  datatype Stored = Absent | Malformed | NoRefreshToken | Present

  /** How the request ends. */
  datatype Response = NetworkError | NotOk | Okay

  /** How reading and using the body ends: an exception (also from writing the storage), no token in
      it, a token of another user, or a token that is stored. */
  datatype Body = Throws | NoToken | OtherUser | Fresh(token: string)

  /** What a leader returns: a token, or null. */
  type Result = Option<string>

  /** How the promise of a waiter settles: resolved with a token, or rejected. */
  datatype Settlement = Settlement(caller: Caller, outcome: Result)

  datatype Phase = Idle | AwaitFetch | AwaitJson

  /** The two module variables, where the leader is, and what has happened so far. */
  datatype State = State(
    isRefreshing: bool,
    failedQueue: seq<Caller>,
    phase: Phase,
    requests: int,                    // refresh requests that are under way
    calls: nat,                       // calls so far
    joined: map<Caller, nat>,         // the round a waiter has joined
    settled: seq<Settlement>,         // settlements so far
    returned: seq<Result>)            // what the leader of each finished round has returned

  const INITIAL := State(false, [], Idle, 0, 0, map[], [], [])

  /** processQueue: everyone in the queue gets the outcome, then the queue is empty. */
  function Settlements(queue: seq<Caller>, outcome: Result): (r: seq<Settlement>)
    ensures |r| == |queue|
  {
    seq(|queue|, i requires 0 <= i < |queue| => Settlement(queue[i], outcome))
  }

  function ProcessQueue(s: State, outcome: Result): State {
    s.(settled := s.settled + Settlements(s.failedQueue, outcome), failedQueue := [])
  }

  /** The finally block, with the leader's return value; the leader's request, if it has sent one, is
      over. */
  function Finish(s: State, outcome: Result): State {
    s.(isRefreshing := false, phase := Idle, requests := s.requests - (if s.phase == Idle then 0 else 1),
       returned := s.returned + [outcome])
  }

  /** A call, up to its first await. */
  function Call(s: State, stored: Stored): State {
    var c := s.calls;
    var t := s.(calls := c + 1);
    if s.isRefreshing then
      t.(failedQueue := s.failedQueue + [c], joined := s.joined[c := |s.returned|])
    else
      var u := t.(isRefreshing := true);
      match stored
      case Absent => Finish(u, None)                          // no processQueue on these two paths
      case NoRefreshToken => Finish(u, None)
      case Malformed => Finish(ProcessQueue(u, None), None)
      case Present => u.(phase := AwaitFetch, requests := u.requests + 1)
  }

  /** The leader goes on when the request has ended. */
  function OnResponse(s: State, r: Response): State {
    if s.phase != AwaitFetch then s
    else if r == Okay then s.(phase := AwaitJson)
    else Finish(ProcessQueue(s, None), None)
  }

  /** The leader goes on when the body has been read. */
  function OnBody(s: State, b: Body): State {
    if s.phase != AwaitJson then s
    else
      var outcome := if b.Fresh? then Some(b.token) else None;
      Finish(ProcessQueue(s, outcome), outcome)
  }

  datatype Event = CallEvent(stored: Stored) | ResponseEvent(response: Response) | BodyEvent(body: Body)

  function Step(s: State, e: Event): State {
    match e
    case CallEvent(stored) => Call(s, stored)
    case ResponseEvent(r) => OnResponse(s, r)
    case BodyEvent(b) => OnBody(s, b)
  }

  function Run(events: seq<Event>): State {
    if events == [] then INITIAL else Step(Run(events[..|events| - 1]), events[|events| - 1])
  }

  // ---------------------------------------------------------------- the code

  class TokenRefresher {
    var isRefreshing: bool
    var failedQueue: seq<Caller>
    var phase: Phase
    var settled: seq<Settlement>
    ghost var requests: int
    ghost var calls: nat
    ghost var joined: map<Caller, nat>
    ghost var returned: seq<Result>

    constructor ()
      ensures View() == INITIAL
    {
      isRefreshing, failedQueue, phase, settled := false, [], Idle, [];
      requests, calls, joined, returned := 0, 0, map[], [];
    }

    ghost function View(): State
      reads this
    {
      State(isRefreshing, failedQueue, phase, requests, calls, joined, settled, returned)
    }

    method DrainQueue(outcome: Result)
      modifies this
      ensures View() == ProcessQueue(old(View()), outcome)
    {
      ghost var all := Settlements(failedQueue, outcome);
      for i := 0 to |failedQueue|
        invariant View() == old(View()).(settled := old(settled) + all[..i])
      {
        settled := settled + [Settlement(failedQueue[i], outcome)];
        assert all[..i + 1] == all[..i] + [all[i]];
      }
      failedQueue := [];
    }

    method End(outcome: Result)
      modifies this
      ensures View() == Finish(old(View()), outcome)
    {
      requests := requests - (if phase == Idle then 0 else 1);
      isRefreshing, phase := false, Idle;
      returned := returned + [outcome];
    }

    /** tryRefreshToken up to its first await, for the next caller number. */
    method TryRefreshToken(c: Caller, stored: Stored)
      requires c == calls
      modifies this
      ensures View() == Call(old(View()), stored)
    {
      calls := c + 1;
      if isRefreshing {
        failedQueue := failedQueue + [c];
        joined := joined[c := |returned|];
        return;
      }
      isRefreshing := true;
      match stored
      case Absent => End(None);
      case NoRefreshToken => End(None);
      case Malformed => DrainQueue(None); End(None);
      case Present => phase, requests := AwaitFetch, requests + 1;
    }

    method AfterFetch(r: Response)
      requires phase == AwaitFetch
      modifies this
      ensures View() == OnResponse(old(View()), r)
    {
      if r != Okay {
        DrainQueue(None);
        End(None);
      } else {
        phase := AwaitJson;
      }
    }

    method AfterJson(b: Body)
      requires phase == AwaitJson
      modifies this
      ensures View() == OnBody(old(View()), b)
    {
      match b
      case Fresh(token) => DrainQueue(Some(token)); End(Some(token));
      case _ => DrainQueue(None); End(None);
    }
  }

  // ---------------------------------------------------------------- every run

  /** The number of times a caller's promise has been settled. */
  function TimesSettled(settled: seq<Settlement>, c: Caller): nat {
    if settled == [] then 0
    else TimesSettled(settled[..|settled| - 1], c) + if settled[|settled| - 1].caller == c then 1 else 0
  }

  /** A waiter is in the queue during its round; afterwards it is settled with what the leader of its
      round has returned. */
  ghost predicate WaiterInOrder(s: State, c: Caller)
    requires c in s.joined
  {
    var round := s.joined[c];
    && c < s.calls
    && round <= |s.returned|
    && (round == |s.returned| ==> c in s.failedQueue && TimesSettled(s.settled, c) == 0)
    && (round < |s.returned| ==> c !in s.failedQueue && TimesSettled(s.settled, c) == 1)
  }

  ghost predicate Inv(s: State) {
    && (s.isRefreshing <==> s.phase != Idle)
    && s.requests == (if s.phase == Idle then 0 else 1)
    && (s.phase == Idle ==> s.failedQueue == [])
    && (forall i, j :: 0 <= i < j < |s.failedQueue| ==> s.failedQueue[i] != s.failedQueue[j])
    && (forall c <- s.failedQueue :: c in s.joined && s.joined[c] == |s.returned|)
    && (forall c <- s.joined :: WaiterInOrder(s, c))
    && (forall x <- s.settled ::
          && x.caller in s.joined
          && s.joined[x.caller] < |s.returned|
          && x.outcome == s.returned[s.joined[x.caller]])
  }

  lemma {:induction false} NoneSettled(settled: seq<Settlement>, c: Caller)
    requires forall x <- settled :: x.caller != c
    ensures TimesSettled(settled, c) == 0
  {
    if settled != [] {
      NoneSettled(settled[..|settled| - 1], c);
    }
  }

  lemma {:induction false} TimesConcat(a: seq<Settlement>, b: seq<Settlement>, c: Caller)
    ensures TimesSettled(a + b, c) == TimesSettled(a, c) + TimesSettled(b, c)
  {
    if b == [] {
      assert a + b == a;
    } else {
      assert (a + b)[..|a + b| - 1] == a + b[..|b| - 1];
      TimesConcat(a, b[..|b| - 1], c);
    }
  }

  /** Draining a queue without duplicates settles each member once and nobody else. */
  lemma {:induction false} DrainSettlesOnce(queue: seq<Caller>, outcome: Result, c: Caller)
    requires forall i, j :: 0 <= i < j < |queue| ==> queue[i] != queue[j]
    ensures TimesSettled(Settlements(queue, outcome), c) == if c in queue then 1 else 0
  {
    if queue != [] {
      var front := queue[..|queue| - 1];
      DrainSettlesOnce(front, outcome, c);
      assert Settlements(queue, outcome)[..|queue| - 1] == Settlements(front, outcome);
      assert queue == front + [queue[|queue| - 1]];
    }
  }

  /** The end of a round keeps the invariant: nobody is lost, nobody is settled twice. */
  lemma EndOfRound(s: State, outcome: Result)
    requires Inv(s)
    ensures Inv(Finish(ProcessQueue(s, outcome), outcome))
  {
    var t := Finish(ProcessQueue(s, outcome), outcome);
    forall c <- t.joined ensures WaiterInOrder(t, c) {
      assert WaiterInOrder(s, c);
      DrainSettlesOnce(s.failedQueue, outcome, c);
      TimesConcat(s.settled, Settlements(s.failedQueue, outcome), c);
    }
  }

  lemma CallKeepsInv(s: State, stored: Stored)
    requires Inv(s)
    ensures Inv(Call(s, stored))
  {
    var t := Call(s, stored);
    if s.isRefreshing {
      forall c <- t.joined ensures WaiterInOrder(t, c) {
        if c == s.calls {
          assert c !in s.joined;
          NoneSettled(s.settled, c);
        } else {
          assert WaiterInOrder(s, c);
        }
      }
      assert s.calls !in s.joined;
    } else {
      var u := s.(calls := s.calls + 1);
      assert Inv(u) by {
        forall c <- u.joined ensures WaiterInOrder(u, c) {
          assert WaiterInOrder(s, c);
        }
      }
      assert u.settled + Settlements([], None) == u.settled;
      EndOfRound(u, None);
    }
  }

  lemma {:induction false} InvHolds(events: seq<Event>)
    ensures Inv(Run(events))
  {
    if events != [] {
      var before, e := Run(events[..|events| - 1]), events[|events| - 1];
      InvHolds(events[..|events| - 1]);
      match e
      case CallEvent(stored) => CallKeepsInv(before, stored);
      case ResponseEvent(r) => EndOfRound(before, None);
      case BodyEvent(b) => EndOfRound(before, if b.Fresh? then Some(b.token) else None);
    }
  }

  /** MAIN RESULT.  In every reachable state at most one refresh request is under way, and nobody
      waits unless there is one. */
  lemma {:induction false} SingleFlight(events: seq<Event>)
    ensures var s := Run(events);
            && 0 <= s.requests <= 1
            && (s.requests == 1 <==> s.isRefreshing)
            && (!s.isRefreshing ==> s.failedQueue == [])
  {
    InvHolds(events);
  }

  lemma {:induction false} SettlementExists(settled: seq<Settlement>, c: Caller)
    requires TimesSettled(settled, c) > 0
    ensures exists x :: x in settled && x.caller == c
  {
    var last := settled[|settled| - 1];
    if last.caller == c {
      assert last in settled;
    } else {
      SettlementExists(settled[..|settled| - 1], c);
    }
  }

  /** MAIN RESULT.  No waiter is lost: while its round lasts it is in the queue, and once the round
      is over it has been settled exactly once, with the leader's token or, when the leader has
      returned null, with a rejection. */
  lemma NoLostWaiter(events: seq<Event>, c: Caller)
    requires c in Run(events).joined
    ensures var s := Run(events);
            var round := s.joined[c];
            && round <= |s.returned|
            && (round == |s.returned| ==> s.isRefreshing && c in s.failedQueue && TimesSettled(s.settled, c) == 0)
            && (round < |s.returned| ==>
                  TimesSettled(s.settled, c) == 1 && Settlement(c, s.returned[round]) in s.settled)
  {
    InvHolds(events);
    var s := Run(events);
    assert WaiterInOrder(s, c);
    if s.joined[c] < |s.returned| {
      SettlementExists(s.settled, c);
    }
  }

  /** Every call is served: during a round it becomes a waiter of that round, behind all others;
      otherwise it starts a request exactly when there is a refresh token, and else ends its own
      round at once with null. */
  lemma EveryCallIsServed(events: seq<Event>, stored: Stored)
    ensures var s, t := Run(events), Run(events + [CallEvent(stored)]);
            if s.isRefreshing
            then && s.calls !in s.failedQueue && t.failedQueue == s.failedQueue + [s.calls]
                 && t.joined == s.joined[s.calls := |s.returned|] && t.requests == s.requests == 1
                 && t.phase == s.phase && t.settled == s.settled && t.returned == s.returned
            else && t.joined == s.joined && t.settled == s.settled
                 && (t.requests == 1 <==> stored == Present)
                 && t.phase == (if stored == Present then AwaitFetch else Idle)
                 && t.returned == s.returned + if stored == Present then [] else [None]
  {
    var s, more := Run(events), events + [CallEvent(stored)];
    assert more[..|more| - 1] == events;
    InvHolds(events);
    forall c | c in s.failedQueue ensures c < s.calls {
      assert WaiterInOrder(s, c);
    }
    assert s.settled + Settlements([], None) == s.settled;
  }

  /** What the leader returns when an event ends its round. */
  function OutcomeOf(e: Event): Result {
    if e.BodyEvent? && e.body.Fresh? then Some(e.body.token) else None
  }

  /** The event that ends a round, however it ends, settles everyone who waits and frees the way for
      the next request. */
  lemma LeaderEndsRound(events: seq<Event>, e: Event)
    requires Run(events).phase != Idle && Run(events + [e]).phase == Idle
    ensures var s, t := Run(events), Run(events + [e]);
            && !t.isRefreshing && t.failedQueue == [] && t.requests == 0
            && t.returned == s.returned + [OutcomeOf(e)]
            && forall c <- s.failedQueue :: TimesSettled(t.settled, c) == 1 && Settlement(c, OutcomeOf(e)) in t.settled
  {
    var s, more := Run(events), events + [e];
    assert more[..|more| - 1] == events;
    InvHolds(events);
    InvHolds(more);
    var t := Run(more);
    assert t == Finish(ProcessQueue(s, OutcomeOf(e)), OutcomeOf(e));
    forall c <- s.failedQueue
      ensures TimesSettled(t.settled, c) == 1 && Settlement(c, OutcomeOf(e)) in t.settled
    {
      assert WaiterInOrder(t, c);
      SettlementExists(t.settled, c);
    }
  }

  lemma RunOneMore(events: seq<Event>, e: Event)
    ensures Run(events + [e]) == Step(Run(events), e)
  {
    assert (events + [e])[..|events + [e]| - 1] == events;
  }

  /** MAIN RESULT.  The leader goes on to the body of an accepted response and changes nothing else; any
      other response ends its round with null. */
  lemma ResponseDecides(events: seq<Event>, r: Response)
    requires Run(events).phase == AwaitFetch
    ensures var s, t := Run(events), Run(events + [ResponseEvent(r)]);
            if r == Okay
            then t == s.(phase := AwaitJson)
            else && t.phase == Idle && !t.isRefreshing && t.failedQueue == [] && t.requests == 0
                 && t.returned == s.returned + [None] && t.calls == s.calls && t.joined == s.joined
                 && (forall c <- s.failedQueue :: Settlement(c, None) in t.settled)
  {
    RunOneMore(events, ResponseEvent(r));
    if r != Okay {
      LeaderEndsRound(events, ResponseEvent(r));
    }
  }

  /** Every body ends the round: with its token if it is fresh, else with null. */
  lemma BodyDecides(events: seq<Event>, b: Body)
    requires Run(events).phase == AwaitJson
    ensures var s, t := Run(events), Run(events + [BodyEvent(b)]);
            && t.phase == Idle && !t.isRefreshing && t.failedQueue == [] && t.requests == 0
            && t.returned == s.returned + [match b { case Fresh(token) => Some(token) case _ => None }]
            && t.calls == s.calls && t.joined == s.joined
  {
    RunOneMore(events, BodyEvent(b));
    LeaderEndsRound(events, BodyEvent(b));
  }

  /** Events of the other kind find nobody waiting for them. */
  lemma StrayEvents(events: seq<Event>, r: Response, b: Body)
    ensures Run(events).phase != AwaitFetch ==> Run(events + [ResponseEvent(r)]) == Run(events)
    ensures Run(events).phase != AwaitJson ==> Run(events + [BodyEvent(b)]) == Run(events)
  {
    RunOneMore(events, ResponseEvent(r));
    RunOneMore(events, BodyEvent(b));
  }

  /** Where further events lead from a state. */
  function Steps(s: State, events: seq<Event>): State {
    if events == [] then s else Step(Steps(s, events[..|events| - 1]), events[|events| - 1])
  }

  lemma {:induction false} StepsOfRun(events: seq<Event>, more: seq<Event>)
    ensures Run(events + more) == Steps(Run(events), more)
  {
    if more == [] {
      assert events + more == events;
    } else {
      assert (events + more)[..|events + more| - 1] == events + more[..|more| - 1];
      StepsOfRun(events, more[..|more| - 1]);
    }
  }

  function Numbers(from: nat, count: nat): (r: seq<Caller>)
    ensures |r| == count
  {
    seq(count, i => from + i)
  }

  /** Calls during a round join it, one after the other, and leave the round where it is. */
  lemma {:induction false} CallsJoin(s: State, calls: seq<Event>)
    requires s.isRefreshing && forall e <- calls :: e.CallEvent?
    ensures var t := Steps(s, calls);
            && t.isRefreshing && t.phase == s.phase && t.requests == s.requests
            && t.returned == s.returned && t.settled == s.settled
            && t.calls == s.calls + |calls| && t.failedQueue == s.failedQueue + Numbers(s.calls, |calls|)
  {
    if calls != [] {
      CallsJoin(s, calls[..|calls| - 1]);
    }
  }

  /** The calls x come before the response, the calls y between the response and its body. */
  function Round(s: State, x: seq<Event>, y: seq<Event>, token: string): State {
    var asked := Steps(Step(s, CallEvent(Present)), x);
    var answered := Steps(Step(asked, ResponseEvent(Okay)), y);
    Step(answered, BodyEvent(Fresh(token)))
  }

  /** Calls that join a round in which the numbers from `from` on are waiting. */
  lemma QueueGrows(s: State, t: State, calls: seq<Event>, from: nat, n: nat)
    requires s.isRefreshing && (forall e <- calls :: e.CallEvent?) && t == Steps(s, calls)
    requires s.failedQueue == Numbers(from, n) && s.calls == from + n
    ensures t.isRefreshing && t.phase == s.phase && t.returned == s.returned && t.settled == s.settled
    ensures t.calls == s.calls + |calls| && t.failedQueue == Numbers(from, n + |calls|)
  {
    CallsJoin(s, calls);
    NumbersConcat(from, n, |calls|);
  }

  lemma RoundIsAsked(s: State, t: State)
    requires Inv(s) && s.phase == Idle && t == Step(s, CallEvent(Present))
    ensures t.isRefreshing && t.phase == AwaitFetch && t.returned == s.returned && t.settled == s.settled
    ensures t.calls == s.calls + 1 && t.failedQueue == Numbers(s.calls + 1, 0)
  {
  }

  lemma NumbersConcat(from: nat, m: nat, n: nat)
    ensures Numbers(from, m) + Numbers(from + m, n) == Numbers(from, m + n)
  {
  }

  /** A round is a stretch of a run. */
  lemma RoundIsRun(events: seq<Event>, x: seq<Event>, y: seq<Event>, token: string)
    ensures Round(Run(events), x, y, token) ==
            Run(events + [CallEvent(Present)] + x + [ResponseEvent(Okay)] + y + [BodyEvent(Fresh(token))])
  {
    var e0 := events + [CallEvent(Present)];
    RunOneMore(events, CallEvent(Present));
    StepsOfRun(e0, x);
    var e1 := e0 + x + [ResponseEvent(Okay)];
    RunOneMore(e0 + x, ResponseEvent(Okay));
    StepsOfRun(e1, y);
    RunOneMore(e1 + y, BodyEvent(Fresh(token)));
  }

  /** MAIN RESULT.  A round that starts with a refresh token, gets an accepted response and finds a
      fresh token in it returns this token, and every call that has joined it on the way is resolved
      with it. */
  lemma RoundSucceeds(events: seq<Event>, x: seq<Event>, y: seq<Event>, token: string)
    requires Run(events).phase == Idle && (forall e <- x :: e.CallEvent?) && (forall e <- y :: e.CallEvent?)
    ensures var s, t := Run(events), Round(Run(events), x, y, token);
            && t.phase == Idle && !t.isRefreshing && t.failedQueue == []
            && t.returned == s.returned + [Some(token)]
            && t.calls == s.calls + 1 + |x| + |y|
            && t.settled == s.settled + Settlements(Numbers(s.calls + 1, |x| + |y|), Some(token))
  {
    var s := Run(events);
    InvHolds(events);
    var s1 := Step(s, CallEvent(Present));
    RoundIsAsked(s, s1);
    var s2 := Steps(s1, x);
    QueueGrows(s1, s2, x, s.calls + 1, 0);
    var s3 := Step(s2, ResponseEvent(Okay));
    assert s3 == s2.(phase := AwaitJson);
    QueueGrows(s3, Steps(s3, y), y, s.calls + 1, |x|);
  }

  lemma DrainedOnce(s: State, queue: seq<Caller>, outcome: Result, c: Caller)
    requires Inv(s) && c in queue && forall x <- queue :: x >= s.calls
    requires forall i, j :: 0 <= i < j < |queue| ==> queue[i] != queue[j]
    ensures TimesSettled(s.settled + Settlements(queue, outcome), c) == 1
  {
    DrainSettlesOnce(queue, outcome, c);
    TimesConcat(s.settled, Settlements(queue, outcome), c);
    NotYetSettled(s, c);
  }

  lemma JoinedOnce(s: State, t: State, n: nat, outcome: Result, c: Caller)
    requires Inv(s) && s.calls < c < s.calls + 1 + n
    requires t.settled == s.settled + Settlements(Numbers(s.calls + 1, n), outcome)
    ensures TimesSettled(t.settled, c) == 1
  {
    var queue := Numbers(s.calls + 1, n);
    assert queue[c - (s.calls + 1)] == c;
    DrainedOnce(s, queue, outcome, c);
  }

  /** And they are resolved just this once. */
  lemma RoundSettlesOnce(events: seq<Event>, x: seq<Event>, y: seq<Event>, token: string, c: Caller)
    requires Run(events).phase == Idle && (forall e <- x :: e.CallEvent?) && (forall e <- y :: e.CallEvent?)
    requires Run(events).calls < c < Run(events).calls + 1 + |x| + |y|
    ensures TimesSettled(Round(Run(events), x, y, token).settled, c) == 1
  {
    InvHolds(events);
    RoundSucceeds(events, x, y, token);
    JoinedOnce(Run(events), Round(Run(events), x, y, token), |x| + |y|, Some(token), c);
  }

  lemma NotYetSettled(s: State, c: Caller)
    requires Inv(s) && c >= s.calls
    ensures TimesSettled(s.settled, c) == 0
  {
    forall x <- s.settled ensures x.caller != c {
      assert WaiterInOrder(s, x.caller);
    }
    NoneSettled(s.settled, c);
  }

  /** Ending a round without processQueue is safe exactly when nobody waits, which the two early
      returns have because no await precedes them. */
  lemma SkippingProcessQueue(s: State, outcome: Result)
    requires Inv(s)
    ensures Inv(Finish(s, outcome)) <==> s.failedQueue == []
  {
    if s.failedQueue == [] {
      assert s.settled + Settlements([], outcome) == s.settled;
      EndOfRound(s, outcome);
    }
  }
}
