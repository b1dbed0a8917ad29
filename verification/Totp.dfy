/**
  One-time codes of two-factor.service.ts, against section 5 of RFC 4226 (the counter and dynamic
  truncation) and section 4 of RFC 6238 (the time step).  HMAC-SHA-1 is a parameter.
*/
module Totp {
  import opened Text
  import opened Words
  import opened Decimals
  import Base32

  type Digest = h: Bytes | |h| == 20 witness seq(20, _ => 0)
  type Hmac = (Bytes, Bytes) -> Digest

  const PERIOD := 30
  const COUNTER_LENGTH := 8
  const DIGITS := 6
  const MODULUS := 1_000_000

  // ---------------------------------------------------------------- the counter

  /** The 32-bit signed reading that JavaScript's bit operators work on. */
  function ToInt32(x: int): (r: int)
    ensures -0x8000_0000 <= r < 0x8000_0000
  {
    var m := x % WORD;
    if m < 0x8000_0000 then m else m - WORD
  }

  /** x as k bytes, most significant first; a negative x in two's complement. */
  function ToBytes(x: int, k: nat): (r: Bytes)
    ensures |r| == k
    decreases k, x
  {
    if k == 0 then [] else ToBytes(x / 256, k - 1) + [x % 256]
  }

  function FromBytes(b: Bytes): nat {
    if b == [] then 0 else 256 * FromBytes(b[..|b| - 1]) + b[|b| - 1]
  }

  function Pow256(k: nat): (r: nat)
    ensures r > 0
  {
    if k == 0 then 1 else 256 * Pow256(k - 1)
  }

  lemma DigitsMod(x: int, p: nat)
    requires p > 0
    ensures x % (256 * p) == 256 * (x / 256 % p) + x % 256
  {
    var q := x / 256;
    var s, t := q / p, q % p;
    Division(q, p);
    assert 256 * (p * s) == (256 * p) * s;
    assert x == (256 * p) * s + (256 * t + x % 256);
    ModUnique(x, 256 * p, s, 256 * t + x % 256);
  }

  lemma {:induction false} FromToBytes(x: int, k: nat)
    ensures FromBytes(ToBytes(x, k)) == x % Pow256(k)
    decreases k
  {
    if k > 0 {
      FromToBytes(x / 256, k - 1);
      assert ToBytes(x, k)[..k - 1] == ToBytes(x / 256, k - 1);
      DigitsMod(x, Pow256(k - 1));
    }
  }

  lemma SameBytes(x: int, y: int, k: nat)
    requires ToBytes(x, k) == ToBytes(y, k)
    ensures x % Pow256(k) == y % Pow256(k)
  {
    FromToBytes(x, k);
    FromToBytes(y, k);
  }

  /** The counter of section 5.2 of RFC 4226: eight bytes, high-order byte first. */
  function RfcCounter(counter: nat): Bytes {
    ToBytes(counter, COUNTER_LENGTH)
  }

  lemma DivDiv(x: int, a: nat, b: nat)
    requires a > 0 && b > 0
    ensures a * b > 0 && x / (a * b) == x / a / b
  {
    MulAtLeast(a, b);
    var q, r := x / a, x % a;
    var s, t := q / b, q % b;
    Division(x, a);
    Division(q, b);
    assert x == (a * b) * s + (a * t + r) by {
      Distribute(a, b * s, t);
      assert a * (b * s) == (a * b) * s;
    }
    assert 0 <= a * t + r < a * b by {
      MulNonNegative(a, t);
      MulNonNegative(a, b - 1 - t);
      assert a * (b - 1 - t) == a * b - a - a * t;
    }
    ModUnique(x, a * b, s, a * t + r);
  }

  /** Byte i of k is the digit of weight 256^(k-1-i). */
  lemma {:induction false} BytesInOrder(x: int, k: nat, i: nat)
    requires i < k
    ensures ToBytes(x, k)[i] == x / Pow256(k - 1 - i) % 256
    decreases k
  {
    if i < k - 1 {
      BytesInOrder(x / 256, k - 1, i);
      DivDiv(x, 256, Pow256(k - 2 - i));
    }
  }

  /** What the loop writes: the bytes of the 32-bit reading, with its sign. */
  function CounterBytes(counter: int): Bytes {
    ToBytes(ToInt32(counter), COUNTER_LENGTH)
  }

  lemma LowByte(x: int)
    ensures ToInt32(x) % 256 == x % 256
  {
  }

  lemma SmallToInt32(x: int)
    requires -0x8000_0000 <= x < 0x8000_0000
    ensures ToInt32(x) == x
  {
    if x < 0 {
      ModUnique(x, WORD, -1, x + WORD);
    } else {
      ModUnique(x, WORD, 0, x);
    }
  }

  /** One turn of the loop: the low byte is written, the rest is shifted down. */
  lemma WriteByte(tmp: int, i: nat, tail: Bytes)
    ensures ToBytes(ToInt32(tmp), i + 1) + tail == ToBytes(ToInt32(ToInt32(tmp) / 256), i) + ([tmp % 256] + tail)
  {
    var t := ToInt32(tmp);
    LowByte(tmp);
    SmallToInt32(t / 256);
    assert (ToBytes(t / 256, i) + [t % 256]) + tail == ToBytes(t / 256, i) + ([t % 256] + tail);
  }

  method CounterBuffer(counter: int) returns (buffer: array<Byte>)
    ensures fresh(buffer) && buffer.Length == 8 && buffer[..] == CounterBytes(counter)
  {
    buffer := new Byte[8](_ => 0);
    var tmp := counter;
    var i := 7;
    while i >= 0
      invariant -1 <= i <= 7
      invariant ToBytes(ToInt32(tmp), i + 1) + buffer[i + 1..] == CounterBytes(counter)
    {
      ghost var written := buffer[i + 1..];
      WriteByte(tmp, i, written);
      buffer[i] := tmp % 256;
      tmp := ToInt32(tmp) / 256;
      assert buffer[i..] == [buffer[i]] + written;
      i := i - 1;
    }
    assert buffer[0..] == buffer[..];
  }

  /** The largest counter a JavaScript number holds exactly is below 2^53. */
  const MAX_COUNTER := 0x20_0000_0000_0000

  lemma Pow256Is64Bits()
    ensures Pow256(8) == 0x1_0000_0000_0000_0000
  {
    assert Pow256(4) == WORD;
    assert Pow256(8) == 256 * (256 * (256 * (256 * Pow256(4))));
  }

  /** MAIN RESULT.  The loop writes the counter of the standard if and only if it is below 2^31. */
  lemma CounterIsStandard(counter: nat)
    requires counter < MAX_COUNTER
    ensures CounterBytes(counter) == RfcCounter(counter) <==> counter < 0x8000_0000
  {
    if counter < 0x8000_0000 {
      SmallToInt32(counter);
    } else if CounterBytes(counter) == RfcCounter(counter) {
      SameBytes(ToInt32(counter), counter, 8);
      LargeCounterDiffers(counter, ToInt32(counter));
    }
  }

  lemma LargeCounterDiffers(counter: nat, t: int)
    requires 0x8000_0000 <= counter < MAX_COUNTER && -0x8000_0000 <= t < 0x8000_0000
    ensures t % Pow256(8) != counter % Pow256(8)
  {
    var p := 0x1_0000_0000_0000_0000;
    Pow256Is64Bits();
    ModUnique(counter, p, 0, counter);
    if t < 0 {
      ModUnique(t, p, -1, t + p);
    } else {
      ModUnique(t, p, 0, t);
    }
  }

  // ---------------------------------------------------------------- dynamic truncation

  function Offset(h: Digest): (r: nat)
    ensures r <= 15
  {
    h[19] % 16
  }

  /** Section 5.3 of RFC 4226: the four bytes at the offset, without their first bit. */
  function Truncate(h: Digest): (r: nat)
    ensures r < 0x8000_0000
  {
    var p := h[Offset(h)..Offset(h) + 4];
    FromBytes(p) % 0x8000_0000
  }

  lemma MaskWith(x: nat, k: nat, m: nat, r: nat)
    requires Pow2(k) == m + 1 && x % (m + 1) == r
    ensures And(x, m) == r
  {
    AndMask(x, k);
  }

  lemma PowersOfTwo()
    ensures Pow2(4) == 16 && Pow2(7) == 128 && Pow2(8) == 256 && Pow2(16) == 0x1_0000 && Pow2(24) == 0x100_0000
  {
    assert Pow2(8) == 256;
    Pow2Sum(8, 8);
    Pow2Sum(16, 8);
  }

  lemma Masks(b: nat)
    requires b < 256
    ensures And(b, 0x0f) == b % 16 && And(b, 0x7f) == b % 128 && And(b, 0xff) == b
  {
    PowersOfTwo();
    MaskWith(b, 4, 0x0f, b % 16);
    MaskWith(b, 7, 0x7f, b % 128);
    MaskWith(b, 8, 0xff, b);
  }

  /** The code's expression of shifts and masks. */
  function Binary(h: Digest): nat {
    var o := And(h[19], 0x0f);
    Masks(h[19]);
    Or(Or(Or(And(h[o], 0x7f) * 0x100_0000, And(h[o + 1], 0xff) * 0x1_0000), And(h[o + 2], 0xff) * 0x100),
       And(h[o + 3], 0xff))
  }

  function FourBytes(a: nat, b: nat, c: nat, d: nat): nat {
    a * 0x100_0000 + b * 0x1_0000 + c * 0x100 + d
  }

  lemma FromFourBytes(a: Byte, b: Byte, c: Byte, d: Byte)
    ensures FromBytes([a, b, c, d]) == FourBytes(a, b, c, d)
  {
    assert [a, b, c, d][..3] == [a, b, c] && [a, b, c][..2] == [a, b] && [a, b][..1] == [a] && [a][..0] == [];
    assert FromBytes([a]) == a;
    assert FromBytes([a, b]) == 256 * a + b;
    assert FromBytes([a, b, c]) == 256 * (256 * a + b) + c;
  }

  lemma OrBelow(x: nat, y: nat, k: nat, p: nat, q: nat)
    requires Pow2(k) == p && x == p * q && y < p
    ensures Or(x, y) == x + y
  {
    ModOfMultiple(p, q);
    OrDisjoint(x, y, k);
  }

  lemma FourBytesByOr(a: nat, b: nat, c: nat, d: nat)
    requires b < 256 && c < 256 && d < 256
    ensures Or(Or(Or(a * 0x100_0000, b * 0x1_0000), c * 0x100), d) == FourBytes(a, b, c, d)
  {
    var x := a * 0x100_0000;
    var y := x + b * 0x1_0000;
    var z := y + c * 0x100;
    PowersOfTwo();
    OrBelow(x, b * 0x1_0000, 24, 0x100_0000, a);
    OrBelow(y, c * 0x100, 16, 0x1_0000, a * 0x100 + b);
    OrBelow(z, d, 8, 0x100, a * 0x1_0000 + b * 0x100 + c);
  }

  lemma BinaryIsTruncation(h: Digest)
    ensures Binary(h) == Truncate(h)
  {
    var o := h[19] % 16;
    Masks(h[19]);
    Masks(h[o]);
    Masks(h[o + 1]);
    Masks(h[o + 2]);
    Masks(h[o + 3]);
    FourBytesByOr(h[o] % 128, h[o + 1], h[o + 2], h[o + 3]);
    TruncateByBytes(h, o);
  }

  lemma TruncateByBytes(h: Digest, o: nat)
    requires o == Offset(h)
    ensures Truncate(h) == FourBytes(h[o] % 128, h[o + 1], h[o + 2], h[o + 3])
  {
    assert h[o..o + 4] == [h[o], h[o + 1], h[o + 2], h[o + 3]];
    FromFourBytes(h[o], h[o + 1], h[o + 2], h[o + 3]);
    DropFirstBit(h[o], h[o + 1], h[o + 2], h[o + 3]);
  }

  /** The example of section 5.4 of RFC 4226. */
  lemma ExampleOfStandard()
    ensures var h: Bytes := [0x1f, 0x86, 0x98, 0x69, 0x0e, 0x02, 0xca, 0x16, 0x61, 0x85,
                             0x50, 0xef, 0x7f, 0x19, 0xda, 0x8e, 0x94, 0x5b, 0x55, 0x5a];
            Truncate(h) == 0x50ef7f19 && Truncate(h) % 1_000_000 == 872921
  {
    var h: Bytes := [0x1f, 0x86, 0x98, 0x69, 0x0e, 0x02, 0xca, 0x16, 0x61, 0x85,
                     0x50, 0xef, 0x7f, 0x19, 0xda, 0x8e, 0x94, 0x5b, 0x55, 0x5a];
    TruncateByBytes(h, 10);
  }

  lemma DropFirstBit(a: nat, b: nat, c: nat, d: nat)
    requires b < 256 && c < 256 && d < 256
    ensures FourBytes(a, b, c, d) % 0x8000_0000 == FourBytes(a % 128, b, c, d)
  {
    ModUnique(FourBytes(a, b, c, d), 0x8000_0000, a / 128, FourBytes(a % 128, b, c, d));
  }

  // ---------------------------------------------------------------- codes and the window

  /** HOTP of section 5.3 of RFC 4226 with six digits, for the counter bytes given. */
  function CodeFor(hmac: Hmac, key: Bytes, counterBytes: Bytes): (r: string)
    ensures |r| == DIGITS
  {
    FixedDigits(Truncate(hmac(key, counterBytes)) % MODULUS, DIGITS)
  }

  /** The service's code: CodeFor with the bytes that its loop writes. */
  function Code(hmac: Hmac, key: Bytes, counter: int): (r: string)
    ensures |r| == DIGITS
  {
    CodeFor(hmac, key, CounterBytes(counter))
  }

  lemma SixDigits(n: nat)
    requires n < MODULUS
    ensures PadStart(Decimal(n), DIGITS) == FixedDigits(n, DIGITS)
  {
    assert Pow10(6) == MODULUS;
    PaddedDecimal(n, DIGITS);
  }

  /** The code for a decoded secret, if there is one. */
  function CodeWith(hmac: Hmac, key: Option<Bytes>, counter: int): Option<string> {
    match key
    case None => None
    case Some(k) => Some(Code(hmac, k, counter))
  }

  /** None stands for the exception of the Base32 decoder. */
  method GenerateTOTP(hmac: Hmac, secret: string, table: char -> string, counter: int) returns (r: Option<string>)
    ensures r == CodeWith(hmac, Base32.Decode(secret, table), counter)
  {
    var decodedSecret := Base32.Base32Decode(secret, table);
    if decodedSecret.None? {
      return None;
    }
    var buffer := CounterBuffer(counter);
    var hmacResult := hmac(decodedSecret.value, buffer[..]);
    BinaryIsTruncation(hmacResult);
    var otp := Binary(hmacResult) % MODULUS;
    SixDigits(otp);
    return Some(PadStart(Decimal(otp), DIGITS));
  }

  function TimeStep(nowMs: nat): nat {
    nowMs / 1000 / PERIOD
  }

  /** The token is the code of the step that lies i steps from the given one. */
  predicate IsCodeAt(hmac: Hmac, key: Bytes, token: string, step: int, i: int) {
    token == Code(hmac, key, step + i)
  }

  /** Accepted: the code of the current time step or of one of its neighbours. */
  predicate Accepts(hmac: Hmac, key: Bytes, token: string, step: int) {
    IsCodeAt(hmac, key, token, step, -1) || IsCodeAt(hmac, key, token, step, 0) || IsCodeAt(hmac, key, token, step, 1)
  }

  lemma NeighbourStep(now: nat, i: int)
    ensures (now + i * PERIOD) / PERIOD == now / PERIOD + i
  {
  }

  /** The body of the loop over the window. */
  method MatchesAt(hmac: Hmac, secret: string, table: char -> string, token: string, now: nat, i: int)
     returns (r: Option<bool>)
    ensures r.None? <==> Base32.Decode(secret, table).None?
    ensures r.Some? ==> (r.value <==> IsCodeAt(hmac, Base32.Decode(secret, table).value, token, now / PERIOD, i))
  {
    var counter := (now + i * PERIOD) / PERIOD;
    NeighbourStep(now, i);
    var expected := GenerateTOTP(hmac, secret, table, counter);
    if expected.None? {
      return None;
    }
    CodeMatches(hmac, Base32.Decode(secret, table), token, now / PERIOD, i, counter);
    return Some(expected.value == token);
  }

  lemma CodeMatches(hmac: Hmac, key: Option<Bytes>, token: string, step: int, i: int, counter: int)
    requires key.Some? && counter == step + i
    ensures CodeWith(hmac, key, counter) == Some(token) <==> IsCodeAt(hmac, key.value, token, step, i)
  {
  }

  ghost predicate NoCodeBefore(hmac: Hmac, key: Bytes, token: string, step: int, i: int)
    decreases i + 1
  {
    i > -1 ==> !IsCodeAt(hmac, key, token, step, i - 1) && NoCodeBefore(hmac, key, token, step, i - 1)
  }

  lemma NoCodeHere(hmac: Hmac, key: Bytes, token: string, step: int, i: int)
    requires i >= -1 && NoCodeBefore(hmac, key, token, step, i) && !IsCodeAt(hmac, key, token, step, i)
    ensures NoCodeBefore(hmac, key, token, step, i + 1)
  {
  }

  lemma CodeInWindow(hmac: Hmac, key: Bytes, token: string, step: int, i: int)
    requires -1 <= i < 2 && IsCodeAt(hmac, key, token, step, i)
    ensures Accepts(hmac, key, token, step)
  {
  }

  lemma NoCodeInWindow(hmac: Hmac, key: Bytes, token: string, step: int)
    requires NoCodeBefore(hmac, key, token, step, 2)
    ensures !Accepts(hmac, key, token, step)
  {
    assert NoCodeBefore(hmac, key, token, step, 0) <==> !IsCodeAt(hmac, key, token, step, -1);
    assert NoCodeBefore(hmac, key, token, step, 1) <==>
           !IsCodeAt(hmac, key, token, step, 0) && NoCodeBefore(hmac, key, token, step, 0);
  }

  /** The loop over the window, for a token of the right length. */
  method VerifyWindow(hmac: Hmac, secret: string, table: char -> string, token: string, now: nat)
     returns (r: Option<bool>)
    ensures r.None? <==> Base32.Decode(secret, table).None?
    ensures r.Some? ==> (r.value <==> Accepts(hmac, Base32.Decode(secret, table).value, token, now / PERIOD))
  {
    ghost var key, step := Base32.Decode(secret, table), now / PERIOD;
    for i := -1 to 2
      invariant i >= 0 ==> key.Some?
      invariant key.Some? ==> NoCodeBefore(hmac, key.value, token, step, i)
    {
      var matches := MatchesAt(hmac, secret, table, token, now, i);
      if matches.None? {
        return None;
      }
      if matches.value {
        CodeInWindow(hmac, key.value, token, step, i);
        return Some(true);
      }
      NoCodeHere(hmac, key.value, token, step, i);
    }
    NoCodeInWindow(hmac, key.value, token, step);
    return Some(false);
  }

  method VerifyToken(hmac: Hmac, secret: string, table: char -> string, token: string, nowMs: nat)
     returns (r: Option<bool>)
    ensures |token| != DIGITS ==> r == Some(false)
    ensures |token| == DIGITS ==> (r.None? <==> Base32.Decode(secret, table).None?)
    ensures |token| == DIGITS && r.Some? ==>
              (r.value <==> Accepts(hmac, Base32.Decode(secret, table).value, token, TimeStep(nowMs)))
  {
    if |token| != DIGITS {
      return Some(false);
    }
    r := VerifyWindow(hmac, secret, table, token, nowMs / 1000);
  }

  /** Section 5.2 of RFC 6238 with one step of tolerance on both sides. */
  predicate StandardAccepts(hmac: Hmac, key: Bytes, token: string, step: nat) {
    || (step >= 1 && token == CodeFor(hmac, key, RfcCounter(step - 1)))
    || token == CodeFor(hmac, key, RfcCounter(step))
    || token == CodeFor(hmac, key, RfcCounter(step + 1))
  }

  /** MAIN RESULT.  While the counter fits (until the year 4011), a six-character token is accepted
      exactly when it is the code that the standards give for the current time step or one of its
      neighbours; in the very first step, which has no predecessor, the code of -1 is accepted too. */
  lemma AcceptsStandardCodes(hmac: Hmac, key: Bytes, token: string, nowMs: nat)
    requires TimeStep(nowMs) < 0x8000_0000 - 1
    ensures Accepts(hmac, key, token, TimeStep(nowMs)) <==>
            || StandardAccepts(hmac, key, token, TimeStep(nowMs))
            || (TimeStep(nowMs) == 0 && token == CodeFor(hmac, key, ToBytes(-1, COUNTER_LENGTH)))
  {
    var step := TimeStep(nowMs);
    if step > 0 {
      CounterIsStandard(step - 1);
    } else {
      SmallToInt32(-1);
    }
    CounterIsStandard(step);
    CounterIsStandard(step + 1);
  }

  /** MAIN RESULT.  A code has six digits, and the number they stand for is the one that section 5.3 of
      RFC 4226 reads from the digest, modulo a million: four bytes from the offset that the last byte
      gives, the first of them without its highest bit. */
  lemma CodeReads(hmac: Hmac, key: Bytes, counterBytes: Bytes)
    ensures var h, code := hmac(key, counterBytes), CodeFor(hmac, key, counterBytes);
            var o := h[19] % 16;
            var a: int, b: int, c: int, d: int := h[o], h[o + 1], h[o + 2], h[o + 3];
            && |code| == 6 && AllDigits(code)
            && DigitsValue(code) == (a % 128 * 0x100_0000 + b * 0x1_0000 + c * 0x100 + d) % 1_000_000
  {
    var h := hmac(key, counterBytes);
    TruncateByBytes(h, h[19] % 16);
    assert Pow10(6) == MODULUS;
    FixedDigitsAreDigits(Truncate(h) % MODULUS, DIGITS);
  }

  /** A time step lasts thirty seconds. */
  lemma StepIsThirtySeconds(nowMs: nat)
    ensures TimeStep(nowMs) * 30_000 <= nowMs < (TimeStep(nowMs) + 1) * 30_000
  {
  }

  /** Padding loses nothing: equal codes come from equal numbers. */
  lemma CodesDetermineNumbers(hmac: Hmac, key: Bytes, m: Bytes, n: Bytes)
    requires CodeFor(hmac, key, m) == CodeFor(hmac, key, n)
    ensures Truncate(hmac(key, m)) % MODULUS == Truncate(hmac(key, n)) % MODULUS
  {
    assert Pow10(6) == MODULUS;
    FixedDigitsInjective(Truncate(hmac(key, m)) % MODULUS, Truncate(hmac(key, n)) % MODULUS, DIGITS);
  }
}
