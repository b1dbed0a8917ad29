/**
  JavaScript's 32-bit operators (sections 6.1.6.1 and 7.1.6 of ECMA-262) and bit strings.  A word is
  given by its unsigned reading; `value >>> n` works on that reading, `<<` and `|` agree with the
  signed one modulo 2^32.
*/
module Words {

  type Byte = b: int | 0 <= b < 256
  type Bytes = seq<Byte>

  const WORD := 0x1_0000_0000

  type Word = x: int | 0 <= x < WORD

  function Pow2(n: nat): (r: nat)
    ensures r > 0
  {
    if n == 0 then 1 else 2 * Pow2(n - 1)
  }

  function Shl(x: Word, n: nat): Word { x * Pow2(n) % WORD }

  function Ushr(x: Word, n: nat): (r: Word)
  {
    DivLeq(x, Pow2(n));
    x / Pow2(n)
  }

  function Or(x: nat, y: nat): nat {
    if x == 0 && y == 0 then 0
    else 2 * Or(x / 2, y / 2) + if x % 2 == 1 || y % 2 == 1 then 1 else 0
  }

  function And(x: nat, y: nat): nat {
    if x == 0 || y == 0 then 0
    else 2 * And(x / 2, y / 2) + if x % 2 == 1 && y % 2 == 1 then 1 else 0
  }

  lemma MulNonNegative(a: int, b: int)
    requires a >= 0 && b >= 0
    ensures a * b >= 0
  {
  }

  lemma MulAtLeast(d: nat, m: int)
    requires m >= 1
    ensures d * m >= d
  {
    MulNonNegative(d, m - 1);
    assert d * m == d * (m - 1) + d;
  }

  lemma Division(x: int, d: nat)
    requires d > 0
    ensures x == d * (x / d) + x % d && 0 <= x % d < d
  {
  }

  lemma UniqueQuotient(d: nat, q: int, r: nat, q': int, r': nat)
    requires d * q + r == d * q' + r' && r < d && r' < d
    ensures q == q' && r == r'
  {
    assert d * (q - q') == r' - r;
    assert d * (q' - q) == r - r';
    if q > q' {
      MulAtLeast(d, q - q');
    } else if q < q' {
      MulAtLeast(d, q' - q);
    }
  }

  /** Quotient and remainder are unique. */
  lemma ModUnique(x: int, d: nat, q: int, r: nat)
    requires d > 0 && x == d * q + r && r < d
    ensures x / d == q && x % d == r
  {
    Division(x, d);
    UniqueQuotient(d, q, r, x / d, x % d);
  }

  lemma DivLeq(x: nat, d: nat)
    requires d > 0
    ensures 0 <= x / d <= x
  {
    Division(x, d);
    var q := x / d;
    if q < 0 {
      MulAtLeast(d, -q);
    } else if q > 0 {
      MulAtLeast(q, d);
    }
  }

  lemma {:induction false} OrZero(x: nat)
    ensures Or(x, 0) == x
  {
    if x > 0 {
      OrZero(x / 2);
    }
  }

  /** Bits that do not overlap add up. */
  lemma {:induction false} OrDisjoint(x: nat, y: nat, k: nat)
    requires x % Pow2(k) == 0 && y < Pow2(k)
    ensures Or(x, y) == x + y
  {
    if k == 0 {
      OrZero(x);
    } else {
      var p := Pow2(k - 1);
      var q := x / Pow2(k);
      Division(x, Pow2(k));
      DivLeq(x, Pow2(k));
      assert (2 * p) * q == 2 * (p * q);
      assert x / 2 == p * q && x % 2 == 0;
      ModOfMultiple(p, q);
      OrDisjoint(x / 2, y / 2, k - 1);
      if x > 0 || y > 0 {
        assert Or(x, y) == 2 * (x / 2 + y / 2) + y % 2;
      }
    }
  }

  lemma ModOfMultiple(p: nat, q: nat)
    requires p > 0
    ensures (p * q) % p == 0
  {
    ModUnique(p * q, p, q, 0);
  }

  lemma AndOfOdd(x: nat, p: nat)
    requires p > 0
    ensures And(x, 2 * p - 1) == 2 * And(x / 2, p - 1) + x % 2
  {
    assert (2 * p - 1) / 2 == p - 1 && (2 * p - 1) % 2 == 1;
  }

  lemma {:induction false} AndMask(x: nat, k: nat)
    ensures And(x, Pow2(k) - 1) == x % Pow2(k)
  {
    if k > 0 {
      var p := Pow2(k - 1);
      AndMask(x / 2, k - 1);
      AndOfOdd(x, p);
      HalfMod(x, p);
    }
  }

  lemma HalfMod(x: nat, p: nat)
    requires p > 0
    ensures x % (2 * p) == 2 * (x / 2 % p) + x % 2
  {
    var h := x / 2;
    Division(h, p);
    assert x == (2 * p) * (h / p) + (2 * (h % p) + x % 2);
    ModUnique(x, 2 * p, h / p, 2 * (h % p) + x % 2);
  }

  lemma {:induction false} Pow2Sum(a: nat, b: nat)
    ensures Pow2(a + b) == Pow2(a) * Pow2(b)
  {
    if a > 0 {
      Pow2Sum(a - 1, b);
      assert Pow2(a + b) == 2 * (Pow2(a - 1) * Pow2(b));
    }
  }

  /** (x / a) mod b and (x mod ab) / a are the same digits; the digits below stay. */
  lemma DivMod(x: nat, a: nat, b: nat)
    requires a > 0 && b > 0
    ensures a * b > 0
    ensures x / a % b == x % (a * b) / a
    ensures x % (a * b) % a == x % a
  {
    MulAtLeast(a, b);
    var q, r := x / a, x % a;
    Division(x, a);
    DivLeq(x, a);
    var s, t := q / b, q % b;
    Division(q, b);
    assert a * q == (a * b) * s + a * t by {
      Distribute(a, b * s, t);
      assert a * (b * s) == (a * b) * s;
    }
    assert a * t + a <= a * b by {
      MulNonNegative(a, b - 1 - t);
      assert a * (b - 1 - t) == a * b - a - a * t;
    }
    MulNonNegative(a, t);
    ModUnique(x, a * b, s, a * t + r);
    ModUnique(a * t + r, a, t, r);
  }

  lemma Distribute(a: int, x: int, y: int)
    ensures a * (x + y) == a * x + a * y
  {
  }

  /** Reducing modulo a multiple first changes nothing. */
  lemma ModMod(x: nat, a: nat, b: nat)
    requires a > 0 && b > 0
    ensures a * b > 0 && x % (a * b) % a == x % a
  {
    DivMod(x, a, b);
  }

  // ---------------------------------------------------------------- bit strings

  type Bits = seq<bool>

  /** The number a bit string stands for, most significant bit first. */
  function Num(p: Bits): nat {
    if p == [] then 0 else 2 * Num(p[..|p| - 1]) + if p[|p| - 1] then 1 else 0
  }

  /** The k low bits of n. */
  function ToBits(n: nat, k: nat): (r: Bits)
    ensures |r| == k
  {
    if k == 0 then [] else ToBits(n / 2, k - 1) + [n % 2 == 1]
  }

  function Zeros(k: nat): (r: Bits)
    ensures |r| == k
  {
    seq(k, _ => false)
  }

  lemma {:induction false} NumBound(p: Bits)
    ensures Num(p) < Pow2(|p|)
  {
    if p != [] {
      NumBound(p[..|p| - 1]);
    }
  }

  lemma {:induction false} NumToBits(n: nat, k: nat)
    requires n < Pow2(k)
    ensures Num(ToBits(n, k)) == n
  {
    if k > 0 {
      NumToBits(n / 2, k - 1);
      assert ToBits(n, k)[..k - 1] == ToBits(n / 2, k - 1);
    }
  }

  lemma {:induction false} ToBitsNum(p: Bits)
    ensures ToBits(Num(p), |p|) == p
  {
    if p != [] {
      var front := p[..|p| - 1];
      ToBitsNum(front);
      assert Num(p) / 2 == Num(front);
      assert p == front + [p[|p| - 1]];
    }
  }

  lemma DoubledProduct(n: nat, k: nat)
    ensures 2 * (n * Pow2(k)) == n * Pow2(k + 1)
  {
  }

  lemma {:induction false} NumConcat(a: Bits, b: Bits)
    ensures Num(a + b) == Num(a) * Pow2(|b|) + Num(b)
  {
    if b == [] {
      assert a + b == a;
    } else {
      var front := b[..|b| - 1];
      NumConcat(a, front);
      assert (a + b)[..|a + b| - 1] == a + front;
      DoubledProduct(Num(a), |front|);
    }
  }
}
