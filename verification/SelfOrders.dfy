/**
  Self-service orders of a tenant: code allocation in createOrder, lookup in getOrder and expiry in
  expireOrders (public.service.ts), with claiming and paying (self-orders.service.ts,
  invoices.service.ts) in between.  Every database call is one atomic step; between two steps of an
  operation any other operation may take steps.
*/
module SelfOrders {
  import opened Text
  import opened Decimals

  const MONTH_LETTERS := "ABCDEFGHIJKL"
  const MAX_NUMBER := 999
  const CODE_DIGITS := 3
  const LIFETIME_MS := 30 * 60 * 1000

  datatype Status = Pending | Claimed | Paid | Expired

  /** The columns of the unique constraint. */
  datatype Key = Key(orderCode: string, monthLetter: char)

  datatype Order = Order(status: Status, expiresAt: int)

  type Rows = map<Key, Order>

  type Client = nat

  /** What a createOrder call remembers between its read and its insert. */
  datatype Draft = Draft(monthLetter: char, nextNumber: nat, now: int)

  datatype State = State(rows: Rows, drafts: map<Client, Draft>)

  const EMPTY := State(map[], map[])

  function CodeOf(letter: char, n: nat): string {
    [letter] + PadStart(Decimal(n), CODE_DIGITS)
  }

  predicate HasLetter(rows: Rows, letter: char) {
    exists k <- rows :: k.monthLetter == letter
  }

  /** `findFirst` with the month letter, ordered by code, descending: no row, or one whose code no
      other code of the letter exceeds. */
  predicate IsLast(rows: Rows, letter: char, last: Option<string>) {
    match last
    case None => !HasLetter(rows, letter)
    case Some(code) =>
      && Key(code, letter) in rows
      && forall k <- rows | k.monthLetter == letter :: !StringLess(code, k.orderCode)
  }

  /** The number that follows the last code. */
  function NextNumber(last: Option<string>): nat {
    match last
    case None => 1
    case Some(code) =>
      match ParseInt(if code == "" then "" else code[1..])
      case None => 1
      case Some(n) => n + 1
  }

  /** The first half of createOrder, up to the insert; above 999 the call is refused. */
  function ReadStep(s: State, c: Client, month: nat, now: int, last: Option<string>): State
    requires month < 12
  {
    var letter := MONTH_LETTERS[month];
    var n := NextNumber(last);
    if n > MAX_NUMBER then s else s.(drafts := s.drafts[c := Draft(letter, n, now)])
  }

  /** The insert: refused by the unique constraint, or a new pending row. */
  function InsertStep(s: State, c: Client): State
    requires c in s.drafts
  {
    var d := s.drafts[c];
    var key := Key(CodeOf(d.monthLetter, d.nextNumber), d.monthLetter);
    var t := s.(drafts := s.drafts - {c});
    if key in s.rows then t
    else t.(rows := s.rows[key := Order(Pending, d.now + LIFETIME_MS)])
  }

  /** Claiming writes `claimed` or `expired`, a payment writes `paid`, whatever the row holds by then. */
  function WriteStep(s: State, key: Key, status: Status): State
    requires key in s.rows
  {
    s.(rows := s.rows[key := s.rows[key].(status := status)])
  }

  predicate IsDue(o: Order, now: int) {
    o.status == Pending && o.expiresAt < now
  }

  /** `findMany` of the expiry job, with its `now`. */
  function FindDue(rows: Rows, now: int): set<Key> {
    set k <- rows | IsDue(rows[k], now)
  }

  /** `updateMany` of the expiry job, with the same `now`. */
  function ExpireDue(rows: Rows, now: int): Rows {
    map k <- rows :: if IsDue(rows[k], now) then rows[k].(status := Expired) else rows[k]
  }

  datatype Event =
    | Read(client: Client, month: nat, now: int, last: Option<string>)
    | Insert(client: Client)
    | Write(key: Key, status: Status)
    | BulkExpire(now: int)

  /** Which events can happen in a state. */
  predicate Possible(s: State, e: Event) {
    match e
    case Read(c, month, now, last) => month < 12 && IsLast(s.rows, MONTH_LETTERS[month], last)
    case Insert(c) => c in s.drafts
    case Write(key, status) => key in s.rows && status != Pending
    case BulkExpire(now) => true
  }

  function Step(s: State, e: Event): State
    requires Possible(s, e)
  {
    match e
    case Read(c, month, now, last) => ReadStep(s, c, month, now, last)
    case Insert(c) => InsertStep(s, c)
    case Write(key, status) => WriteStep(s, key, status)
    case BulkExpire(now) => s.(rows := ExpireDue(s.rows, now))
  }

  /** t can be reached from s by the events, in any order and interleaving. */
  predicate Runs(s: State, events: seq<Event>, t: State)
    decreases |events|
  {
    if events == [] then s == t
    else Possible(s, events[0]) && Runs(Step(s, events[0]), events[1..], t)
  }

  // ---------------------------------------------------------------- codes

  lemma CodeIsFixed(letter: char, n: nat)
    requires n <= MAX_NUMBER
    ensures CodeOf(letter, n) == [letter] + FixedDigits(n, CODE_DIGITS)
    ensures Pow10(CODE_DIGITS) == 1000
  {
    assert Pow10(1) == 10 && Pow10(2) == 100 && Pow10(3) == 1000;
    PaddedDecimal(n, CODE_DIGITS);
  }

  /** The descending order of the codes of a month is the descending order of their numbers. */
  lemma CodeOrder(letter: char, m: nat, n: nat)
    requires m <= MAX_NUMBER && n <= MAX_NUMBER
    ensures StringLess(CodeOf(letter, m), CodeOf(letter, n)) <==> m < n
    ensures CodeOf(letter, m) == CodeOf(letter, n) <==> m == n
  {
    CodeIsFixed(letter, m);
    CodeIsFixed(letter, n);
    var a, b := CodeOf(letter, m), CodeOf(letter, n);
    assert a[1..] == FixedDigits(m, CODE_DIGITS) && b[1..] == FixedDigits(n, CODE_DIGITS);
    NumeralOrder(m, n, CODE_DIGITS);
    if a == b {
      FixedDigitsInjective(m, n, CODE_DIGITS);
    }
  }

  lemma NextOfCode(letter: char, n: nat)
    requires n <= MAX_NUMBER
    ensures NextNumber(Some(CodeOf(letter, n))) == n + 1
  {
    CodeIsFixed(letter, n);
    assert CodeOf(letter, n)[1..] == FixedDigits(n, CODE_DIGITS);
    ParsesBack(n, CODE_DIGITS);
  }

  /** Numbers start at 1, also behind a code that does not read as a number. */
  lemma NumbersStartAtOne(code: string)
    requires |code| > 1 && !('0' <= code[1] <= '9')
    ensures NextNumber(None) == 1 && NextNumber(Some(code)) == 1
  {
    assert LeadingDigits(code[1..]) == "";
  }

  /** The codes stored for a letter are exactly L001 up to Lk. */
  ghost predicate Contiguous(rows: Rows, letter: char, k: nat) {
    && k <= MAX_NUMBER
    && (forall n :: 1 <= n <= k ==> Key(CodeOf(letter, n), letter) in rows)
    && (forall key <- rows | key.monthLetter == letter :: exists n :: 1 <= n <= k && key.orderCode == CodeOf(letter, n))
  }

  /** Contiguous codes, and nobody is about to insert a code that leaves a gap. */
  ghost predicate LetterInv(s: State, letter: char, k: nat) {
    && Contiguous(s.rows, letter, k)
    && forall c <- s.drafts | s.drafts[c].monthLetter == letter :: 1 <= s.drafts[c].nextNumber <= k + 1
                                                               && s.drafts[c].nextNumber <= MAX_NUMBER
  }

  /** The read finds Lk, or nothing when there is no code yet. */
  lemma LastIsHighest(rows: Rows, letter: char, k: nat, last: Option<string>)
    requires Contiguous(rows, letter, k) && IsLast(rows, letter, last)
    ensures NextNumber(last) == k + 1
  {
    if k == 0 {
      assert last == None;
    } else {
      assert Key(CodeOf(letter, k), letter) in rows;
      assert last.Some?;
      assert Key(last.value, letter) in rows;
      var n :| 1 <= n <= k && last.value == CodeOf(letter, n);
      CodeOrder(letter, n, k);
      NextOfCode(letter, n);
    }
  }

  lemma LetterStep(s: State, e: Event, letter: char, k: nat) returns (k': nat)
    requires LetterInv(s, letter, k) && Possible(s, e)
    ensures LetterInv(Step(s, e), letter, k') && k <= k' <= k + 1
  {
    k' := k;
    match e
    case Read(c, month, now, last) =>
      if MONTH_LETTERS[month] == letter {
        LastIsHighest(s.rows, letter, k, last);
      }
    case Insert(c) =>
      var d := s.drafts[c];
      if d.monthLetter == letter && Key(CodeOf(letter, d.nextNumber), letter) !in s.rows {
        assert d.nextNumber == k + 1;
        k' := k + 1;
        assert Contiguous(Step(s, e).rows, letter, k');
      }
    case Write(key, status) =>
    case BulkExpire(now) =>
  }

  lemma {:induction false} LetterRun(s: State, events: seq<Event>, t: State, letter: char, k: nat) returns (k': nat)
    requires LetterInv(s, letter, k) && Runs(s, events, t)
    ensures LetterInv(t, letter, k') && k <= k'
    decreases |events|
  {
    k' := k;
    if events != [] {
      k' := LetterStep(s, events[0], letter, k);
      k' := LetterRun(Step(s, events[0]), events[1..], t, letter, k');
    }
  }

  /** MAIN RESULT.  Whatever the interleaving of reads, inserts, claims, payments and expiry, the codes
      of every letter are L001 up to Lk for some k: unique, without gaps, and at most 999. */
  lemma CodesAreContiguous(events: seq<Event>, t: State, letter: char) returns (k: nat)
    requires Runs(EMPTY, events, t)
    ensures Contiguous(t.rows, letter, k)
  {
    assert LetterInv(EMPTY, letter, 0);
    k := LetterRun(EMPTY, events, t, letter, 0);
  }

  /** A single insert: it takes the next free code, or fails because another call has taken it since
      the read. */
  lemma InsertOutcome(s: State, c: Client, k: nat)
    requires c in s.drafts && LetterInv(s, s.drafts[c].monthLetter, k)
    ensures var d, t := s.drafts[c], InsertStep(s, c);
            if d.nextNumber == k + 1
            then t.rows == s.rows[Key(CodeOf(d.monthLetter, k + 1), d.monthLetter) :=
                           Order(Pending, d.now + LIFETIME_MS)]
                 && Key(CodeOf(d.monthLetter, k + 1), d.monthLetter) !in s.rows
            else t.rows == s.rows
  {
    var d := s.drafts[c];
    if d.nextNumber == k + 1 && Key(CodeOf(d.monthLetter, k + 1), d.monthLetter) in s.rows {
      var n :| 1 <= n <= k && CodeOf(d.monthLetter, k + 1) == CodeOf(d.monthLetter, n);
      CodeOrder(d.monthLetter, k + 1, n);
    }
  }

  /** The limit counts a letter over all years: with 999 codes stored, no call gets past its read. */
  lemma LetterIsFull(s: State, c: Client, month: nat, now: int, last: Option<string>)
    requires month < 12 && Contiguous(s.rows, MONTH_LETTERS[month], MAX_NUMBER)
    requires IsLast(s.rows, MONTH_LETTERS[month], last)
    ensures ReadStep(s, c, month, now, last) == s
  {
    LastIsHighest(s.rows, MONTH_LETTERS[month], MAX_NUMBER, last);
  }

  /** With k codes of the month's letter stored, a read leads to an insert of number k + 1, or to a
      refusal when there are 999. */
  lemma ReadPicksNext(s: State, c: Client, month: nat, now: int, last: Option<string>, k: nat)
    requires month < 12 && Contiguous(s.rows, MONTH_LETTERS[month], k) && IsLast(s.rows, MONTH_LETTERS[month], last)
    ensures var t := ReadStep(s, c, month, now, last);
            if k < 999
            then t == s.(drafts := s.drafts[c := Draft(('A' as int + month) as char, k + 1, now)])
            else t == s
  {
    LastIsHighest(s.rows, MONTH_LETTERS[month], k, last);
  }

  /** A code is its letter and three digits that read as its number. */
  lemma CodeReads(letter: char, n: nat)
    requires n <= 999
    ensures var code := CodeOf(letter, n);
            |code| == 4 && code[0] == letter && AllDigits(code[1..]) && DigitsValue(code[1..]) == n
  {
    CodeIsFixed(letter, n);
    assert CodeOf(letter, n)[1..] == FixedDigits(n, CODE_DIGITS);
    FixedDigitsAreDigits(n, CODE_DIGITS);
  }

  // ---------------------------------------------------------------- lookup

  /** findUnique with the letter that the code itself starts with. */
  function GetOrder(rows: Rows, upperCode: string): Option<Order> {
    if upperCode == "" || upperCode[0] !in MONTH_LETTERS then None
    else
      var key := Key(upperCode, upperCode[0]);
      if key in rows then Some(rows[key]) else None
  }

  predicate KeysAreCodes(s: State) {
    && (forall k <- s.rows :: k.orderCode != "" && k.orderCode[0] == k.monthLetter && k.monthLetter in MONTH_LETTERS)
    && (forall c <- s.drafts :: s.drafts[c].monthLetter in MONTH_LETTERS)
  }

  lemma {:induction false} KeysStayCodes(s: State, events: seq<Event>, t: State)
    requires KeysAreCodes(s) && Runs(s, events, t)
    ensures KeysAreCodes(t)
    decreases |events|
  {
    if events != [] {
      KeysStayCodes(Step(s, events[0]), events[1..], t);
    }
  }

  /** Every stored order is found by its code alone, in whatever month it is looked up. */
  lemma OrderIsFound(events: seq<Event>, t: State, key: Key)
    requires Runs(EMPTY, events, t) && key in t.rows
    ensures GetOrder(t.rows, key.orderCode) == Some(t.rows[key])
  {
    KeysStayCodes(EMPTY, events, t);
  }

  /** An answer is the stored order; a code that is not stored gets none. */
  lemma LookupIsExact(events: seq<Event>, t: State, code: string)
    requires Runs(EMPTY, events, t)
    ensures match GetOrder(t.rows, code) {
              case Some(o) => exists key <- t.rows :: key.orderCode == code && t.rows[key] == o
              case None => forall key <- t.rows :: key.orderCode != code
            }
  {
    KeysStayCodes(EMPTY, events, t);
    if GetOrder(t.rows, code).Some? {
      assert Key(code, code[0]) in t.rows;
    }
  }

  // ---------------------------------------------------------------- expiry

  /** No event makes a row pending again, removes it or changes when it expires. */
  lemma {:induction false} RowsAreKept(s: State, events: seq<Event>, t: State, key: Key)
    requires Runs(s, events, t) && key in s.rows
    ensures key in t.rows && t.rows[key].expiresAt == s.rows[key].expiresAt
    ensures t.rows[key].status == Pending ==> s.rows[key].status == Pending
    decreases |events|
  {
    if events != [] {
      RowsAreKept(Step(s, events[0]), events[1..], t, key);
    }
  }

  /** The request time of every row that is or will be inserted by the drafts of s and by events. */
  ghost predicate RequestedSince(s: State, events: seq<Event>, earliest: int) {
    && (forall c <- s.drafts :: s.drafts[c].now >= earliest)
    && (forall e <- events :: e.Read? ==> e.now >= earliest)
  }

  lemma {:induction false} NewRowsAreYoung(s: State, events: seq<Event>, t: State, earliest: int, key: Key)
    requires Runs(s, events, t) && RequestedSince(s, events, earliest)
    requires key in t.rows && key !in s.rows
    ensures t.rows[key].expiresAt >= earliest + LIFETIME_MS
    decreases |events|
  {
    var u := Step(s, events[0]);
    assert RequestedSince(u, events[1..], earliest) by {
      assert events[0] in events;
    }
    if key in u.rows {
      RowsAreKept(u, events[1..], t, key);
    } else {
      NewRowsAreYoung(u, events[1..], t, earliest, key);
    }
  }

  /** MAIN RESULT.  The job finds the due orders in s and updates the due ones in t, with anything in
      between.  Every order it expires is among those it reports if and only if no order that was
      inserted in between is due; every order it reports is expired if and only if all of them are
      still pending. */
  lemma ReportedAndExpired(s: State, events: seq<Event>, t: State, now: int)
    requires Runs(s, events, t)
    ensures FindDue(t.rows, now) <= FindDue(s.rows, now) <==>
           forall k <- t.rows | k !in s.rows :: !IsDue(t.rows[k], now)
    ensures FindDue(s.rows, now) <= FindDue(t.rows, now) <==>
           forall k <- FindDue(s.rows, now) :: k in t.rows && t.rows[k].status == Pending
  {
    forall k | k in s.rows
      ensures k in t.rows && t.rows[k].expiresAt == s.rows[k].expiresAt
      ensures t.rows[k].status == Pending ==> s.rows[k].status == Pending
    {
      RowsAreKept(s, events, t, k);
    }
    if exists k <- t.rows :: k !in s.rows && IsDue(t.rows[k], now) {
      var k :| k in t.rows && k !in s.rows && IsDue(t.rows[k], now);
      assert k in FindDue(t.rows, now) && k !in FindDue(s.rows, now);
    }
  }

  /** No notification is lost as long as no insert in between belongs to a call that began thirty
      minutes before the job. */
  lemma NoLostNotification(s: State, events: seq<Event>, t: State, now: int)
    requires Runs(s, events, t) && RequestedSince(s, events, now - LIFETIME_MS)
    ensures FindDue(t.rows, now) <= FindDue(s.rows, now)
  {
    forall k | k in t.rows && k !in s.rows ensures !IsDue(t.rows[k], now) {
      NewRowsAreYoung(s, events, t, now - LIFETIME_MS, k);
    }
    ReportedAndExpired(s, events, t, now);
  }

  /** An order that is requested at time 0, and the two steps that store it. */
  function FirstKey(): Key {
    Key(CodeOf(MONTH_LETTERS[0], 1), MONTH_LETTERS[0])
  }

  function FirstDraft(): State {
    State(map[], map[0 := Draft(MONTH_LETTERS[0], 1, 0)])
  }

  function FirstStored(): State {
    State(map[FirstKey() := Order(Pending, LIFETIME_MS)], map[])
  }

  lemma FirstOrder()
    ensures Runs(EMPTY, [Read(0, 0, 0, None)], FirstDraft())
    ensures Runs(FirstDraft(), [Insert(0)], FirstStored())
    ensures Runs(EMPTY, [Read(0, 0, 0, None), Insert(0)], FirstStored())
  {
    var read, insert := Read(0, 0, 0, None), Insert(0);
    assert Step(EMPTY, read) == FirstDraft();
    assert Step(FirstDraft(), insert) == FirstStored();
    assert [read][1..] == [] && [insert][1..] == [] && [read, insert][1..] == [insert];
    assert Runs(FirstDraft(), [insert], FirstStored());
  }

  /** An order that is claimed between the job's find and its update is reported as expired and is not:
      it stays claimed. */
  lemma ClaimedOrderIsReported(now: int)
    requires now > LIFETIME_MS
    ensures exists events, s, t ::
              && Runs(EMPTY, events, s) && Runs(s, [Write(FirstKey(), Claimed)], t)
              && FirstKey() in FindDue(s.rows, now)
              && FirstKey() in t.rows && ExpireDue(t.rows, now)[FirstKey()].status == Claimed
  {
    FirstOrder();
    var s, write := FirstStored(), Write(FirstKey(), Claimed);
    var t := Step(s, write);
    assert [write][1..] == [];
    assert Runs(s, [write], t);
    assert FirstKey() in FindDue(s.rows, now);
  }

  /** An order whose insert comes half an hour after its request, between the job's find and its update,
      expires without being reported. */
  lemma LateOrderIsNotReported(now: int)
    requires now > LIFETIME_MS
    ensures exists events, s, t ::
              && Runs(EMPTY, events, s) && Runs(s, [Insert(0)], t)
              && FindDue(s.rows, now) == {}
              && FirstKey() in t.rows && ExpireDue(t.rows, now)[FirstKey()].status == Expired
  {
    FirstOrder();
    assert FindDue(FirstDraft().rows, now) == {};
    assert IsDue(FirstStored().rows[FirstKey()], now);
  }

  /** The bulk update changes due orders only, and those only to expired. */
  lemma ExpiresOnlyDue(rows: Rows, now: int, key: Key)
    requires key in rows
    ensures key in ExpireDue(rows, now)
    ensures ExpireDue(rows, now)[key] != rows[key] <==> key in FindDue(rows, now)
    ensures key in FindDue(rows, now) ==> ExpireDue(rows, now)[key] == Order(Expired, rows[key].expiresAt)
  {
  }

  lemma {:induction false} RowsStem(s: State, events: seq<Event>, t: State, key: Key)
    requires Runs(s, events, t) && key in t.rows
    requires key !in s.rows
    ensures (exists e <- events :: e.Read? && t.rows[key].expiresAt == e.now + LIFETIME_MS)
         || (exists c <- s.drafts :: t.rows[key].expiresAt == s.drafts[c].now + LIFETIME_MS)
    decreases |events|
  {
    var e, u := events[0], Step(s, events[0]);
    if key in u.rows {
      RowsAreKept(u, events[1..], t, key);
    } else {
      RowsStem(u, events[1..], t, key);
      if exists c <- u.drafts :: t.rows[key].expiresAt == u.drafts[c].now + LIFETIME_MS {
        var c :| c in u.drafts && t.rows[key].expiresAt == u.drafts[c].now + LIFETIME_MS;
        if c !in s.drafts || s.drafts[c] != u.drafts[c] {
          assert e.Read? && e in events;
        }
      }
    }
  }

  /** No order expires within thirty minutes of its request. */
  lemma NeverEarly(events: seq<Event>, t: State, now: int, key: Key)
    requires Runs(EMPTY, events, t) && key in FindDue(t.rows, now)
    ensures exists e <- events :: e.Read? && e.now + 1_800_000 == t.rows[key].expiresAt && e.now < now - 1_800_000
  {
    RowsStem(EMPTY, events, t, key);
  }
}
