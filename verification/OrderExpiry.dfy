/**
  The order operations without interleaving, as the code runs them: createOrder and expireOrders
  (public.service.ts) on one tenant's table, and the job that visits all tenants
  (order-expiry.service.ts).
*/
module OrderExpiry {
  import opened Text
  import opened Decimals
  import opened SelfOrders

  class OrderTable {
    var rows: Rows

    constructor ()
      ensures rows == map[]
    {
      rows := map[];
    }

    /** Stands for the database's own search. */
    method FindLast(letter: char) returns (last: Option<string>)
      ensures IsLast(rows, letter, last)
    {
      last := None;
      var rest := rows.Keys;
      while rest != {}
        invariant rest <= rows.Keys
        invariant last.Some? ==> Key(last.value, letter) in rows
        invariant forall k <- rows.Keys - rest | k.monthLetter == letter ::
                    last.Some? && !StringLess(last.value, k.orderCode)
        decreases |rest|
      {
        var key :| key in rest;
        rest := rest - {key};
        if key.monthLetter == letter {
          if last.None? || StringLess(last.value, key.orderCode) {
            ghost var before := last;
            last := Some(key.orderCode);
            StringLessTotal(key.orderCode, key.orderCode);
            if before.Some? {
              StringLessTotal(before.value, key.orderCode);
              forall k | k in rows.Keys - rest && k.monthLetter == letter && k != key
                ensures !StringLess(key.orderCode, k.orderCode)
              {
                StringLessTransitive(k.orderCode, before.value, key.orderCode);
              }
            }
          }
        }
      }
    }

    /** None: the month's numbers are used up.  Without interleaving the insert never conflicts. */
    method CreateOrder(month: nat, now: int, ghost k: nat) returns (code: Option<string>)
      requires month < 12 && Contiguous(rows, MONTH_LETTERS[month], k)
      modifies this
      ensures var letter := MONTH_LETTERS[month];
              if k < MAX_NUMBER
              then code == Some(CodeOf(letter, k + 1)) && Key(code.value, letter) !in old(rows)
                   && rows == old(rows)[Key(code.value, letter) := Order(Pending, now + LIFETIME_MS)]
                   && Contiguous(rows, letter, k + 1)
              else code == None && rows == old(rows)
    {
      var monthLetter := MONTH_LETTERS[month];
      var lastOrder := FindLast(monthLetter);
      LastIsHighest(rows, monthLetter, k, lastOrder);
      var nextNumber := 1;
      if lastOrder.Some? {
        var numPart := ParseInt(if lastOrder.value == "" then "" else lastOrder.value[1..]);
        if numPart.Some? {
          nextNumber := numPart.value + 1;
        }
      }
      if nextNumber > MAX_NUMBER {
        return None;
      }
      var orderCode := CodeOf(monthLetter, nextNumber);
      ghost var s := State(rows, map[0 := Draft(monthLetter, nextNumber, now)]);
      InsertOutcome(s, 0, k);
      rows := rows[Key(orderCode, monthLetter) := Order(Pending, now + LIFETIME_MS)];
      NextIsContiguous(old(rows), monthLetter, k, rows[Key(orderCode, monthLetter)]);
      return Some(orderCode);
    }

    /** The orders to notify; without interleaving they are exactly the orders that expire. */
    method ExpireOrders(now: int) returns (expiring: set<Key>)
      modifies this
      ensures expiring == FindDue(old(rows), now)
      ensures forall k :: k in expiring <==>
                          k in old(rows) && old(rows)[k].status == Pending && old(rows)[k].expiresAt < now
      ensures rows == ExpireDue(old(rows), now)
      ensures rows.Keys == old(rows).Keys
      ensures forall k <- rows ::
                rows[k] == if k in expiring then Order(Expired, old(rows)[k].expiresAt) else old(rows)[k]
    {
      expiring := FindDue(rows, now);
      if expiring == {} {
        assert forall k <- rows :: !IsDue(rows[k], now) by {
          assert forall k <- rows :: k !in FindDue(rows, now);
        }
        return;
      }
      rows := ExpireDue(rows, now);
    }
  }

  lemma NextIsContiguous(rows: Rows, letter: char, k: nat, o: Order)
    requires Contiguous(rows, letter, k) && k < MAX_NUMBER
    ensures Contiguous(rows[Key(CodeOf(letter, k + 1), letter) := o], letter, k + 1)
  {
  }

  // ---------------------------------------------------------------- all tenants

  /** Where a tenant's turn fails, if it does: before its bulk update, or between that and its messages. */
  datatype Failure = NoFailure | BeforeUpdate | AfterUpdate

  /** One turn of the job for a tenant.  Other operations go on meanwhile, so the count, the find and the
      update meet different tables; find and update use one time, the count an earlier one. */
  datatype Visit = Visit(failure: Failure, countedAt: int, counted: Rows, now: int, found: Rows, met: Rows)

  predicate Updates(v: Visit) {
    v.failure != BeforeUpdate && FindDue(v.counted, v.countedAt) != {} && FindDue(v.found, v.now) != {}
  }

  /** The table that the turn writes, if it writes one. */
  function Written(v: Visit): Option<Rows> {
    if Updates(v) then Some(ExpireDue(v.met, v.now)) else None
  }

  function Notifies(v: Visit): set<Key> {
    if Updates(v) && v.failure == NoFailure then FindDue(v.found, v.now) else {}
  }

  /** What a turn is, in terms of what its three database calls meet. */
  ghost predicate IsTurn(v: Visit, update: Option<Rows>, message: set<Key>) {
    && (update.Some? <==>
          && v.failure != BeforeUpdate
          && (exists k <- v.counted :: v.counted[k].status == Pending && v.counted[k].expiresAt < v.countedAt)
          && (exists k <- v.found :: v.found[k].status == Pending && v.found[k].expiresAt < v.now))
    && (update.Some? ==>
          && update.value.Keys == v.met.Keys
          && forall k <- v.met :: update.value[k] ==
                                  if v.met[k].status == Pending && v.met[k].expiresAt < v.now
                                  then Order(Expired, v.met[k].expiresAt) else v.met[k])
    && (forall k :: k in message <==>
                    && update.Some? && v.failure == NoFailure
                    && k in v.found && v.found[k].status == Pending && v.found[k].expiresAt < v.now)
  }

  lemma DueExists(rows: Rows, now: int)
    ensures FindDue(rows, now) != {} <==> exists k <- rows :: rows[k].status == Pending && rows[k].expiresAt < now
  {
    if exists k <- rows :: rows[k].status == Pending && rows[k].expiresAt < now {
      var k :| k in rows && rows[k].status == Pending && rows[k].expiresAt < now;
      assert k in FindDue(rows, now);
    } else {
      assert forall k <- rows :: k !in FindDue(rows, now);
    }
  }

  /** MAIN RESULT.  The job does its work exactly when the count and the find meet an overdue order; it
      expires the overdue orders that the update meets and notifies those that the find has met. */
  lemma TurnIsRight(v: Visit)
    ensures IsTurn(v, Written(v), Notifies(v))
  {
    DueExists(v.counted, v.countedAt);
    DueExists(v.found, v.now);
  }

  class OrderExpiryService {
    var running: bool
    var written: seq<Option<Rows>>
    var notified: seq<set<Key>>

    constructor ()
      ensures !running && written == [] && notified == []
    {
      running, written, notified := false, [], [];
    }

    /** A tenant whose turn fails keeps no other tenant from its turn; the flag is always taken back. */
    method HandleExpiry(visits: seq<Visit>)
      modifies this
      ensures old(running) ==> running && written == old(written) && notified == old(notified)
      ensures !old(running) ==>
                && !running && |written| == |notified| == |visits|
                && (forall i :: 0 <= i < |visits| ==> written[i] == Written(visits[i]))
                && (forall i :: 0 <= i < |visits| ==> notified[i] == Notifies(visits[i]))
                && (forall i :: 0 <= i < |visits| ==> IsTurn(visits[i], written[i], notified[i]))
    {
      if running {
        return;
      }
      running := true;
      written, notified := [], [];
      for i := 0 to |visits|
        invariant |written| == |notified| == i
        invariant forall j :: 0 <= j < i ==> written[j] == Written(visits[j])
        invariant forall j :: 0 <= j < i ==> notified[j] == Notifies(visits[j])
        invariant forall j :: 0 <= j < i ==> IsTurn(visits[j], written[j], notified[j])
      {
        var update, message := Turn(visits[i]);
        assert IsTurn(visits[i], update, message);
        written, notified := written + [update], notified + [message];
      }
      running := false;
    }
  }

  /** The body of the loop over the tenants. */
  method Turn(v: Visit) returns (update: Option<Rows>, message: set<Key>)
    ensures update == Written(v) && message == Notifies(v) && IsTurn(v, update, message)
  {
    TurnIsRight(v);
    update, message := None, {};
    if v.failure == BeforeUpdate {
      return;
    }
    var pendingCount := |FindDue(v.counted, v.countedAt)|;
    if pendingCount == 0 {
      return;
    }
    var expiring := FindDue(v.found, v.now);
    if expiring == {} {
      return;
    }
    update := Some(ExpireDue(v.met, v.now));
    if v.failure == AfterUpdate {
      return;
    }
    message := expiring;
  }

  /** With any operations between find and update: a turn that updates notifies everyone whose order it
      expires if and only if it does not fail afterwards and no order inserted in between is due, or it
      expires nothing. */
  lemma TurnNotifiesExpired(v: Visit, drafts: map<Client, Draft>, events: seq<Event>, t: State)
    requires Updates(v) && Runs(State(v.found, drafts), events, t) && t.rows == v.met
    ensures FindDue(v.met, v.now) <= Notifies(v) <==>
            || FindDue(v.met, v.now) == {}
            || (v.failure == NoFailure && forall k <- v.met | k !in v.found :: !IsDue(v.met[k], v.now))
  {
    ReportedAndExpired(State(v.found, drafts), events, t, v.now);
  }

  /** A turn that nothing disturbs between find and update, and that does not fail after the update,
      notifies exactly the orders that it turns from pending to expired. */
  lemma JobNotifiesExpired(v: Visit, key: Key)
    requires v.failure != AfterUpdate && v.met == v.found && key in v.met
    ensures key in Notifies(v) <==>
            Written(v).Some? && Written(v).value[key].status == Expired && v.met[key].status == Pending
  {
    ExpiresOnlyDue(v.met, v.now, key);
  }
}
