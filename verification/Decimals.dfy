/**
  Decimal numerals: `toString`, `padStart` with zeros and `parseInt`, and the string order of numerals
  of equal length.
*/
module Decimals {
  import opened Text

  function Decimal(n: nat): (r: string)
    ensures r != ""
  {
    var last := ('0' as int + n % 10) as char;
    if n < 10 then [last] else Decimal(n / 10) + [last]
  }

  function PadStart(s: string, k: nat): (r: string)
    ensures |r| == if |s| < k then k else |s|
  {
    seq(if |s| < k then k - |s| else 0, _ => '0') + s
  }

  /** The decimal number that k digits stand for; k digits of n, padded. */
  function FixedDigits(n: nat, k: nat): (r: string)
    ensures |r| == k
  {
    if k == 0 then "" else FixedDigits(n / 10, k - 1) + [('0' as int + n % 10) as char]
  }

  function Pow10(k: nat): (r: nat)
    ensures r > 0
  {
    if k == 0 then 1 else 10 * Pow10(k - 1)
  }

  lemma {:induction false} FixedDigitsOfZero(k: nat)
    ensures FixedDigits(0, k) == seq(k, _ => '0')
  {
    if k > 0 {
      FixedDigitsOfZero(k - 1);
    }
  }

  /** toString and padStart together give exactly k digits. */
  lemma {:induction false} PaddedDecimal(n: nat, k: nat)
    requires n < Pow10(k) && k > 0
    ensures PadStart(Decimal(n), k) == FixedDigits(n, k)
  {
    if n < 10 {
      FixedDigitsOfZero(k - 1);
    } else {
      assert k > 1;
      PaddedDecimal(n / 10, k - 1);
      assert |Decimal(n)| == |Decimal(n / 10)| + 1;
    }
  }

  lemma {:induction false} FixedDigitsInjective(m: nat, n: nat, k: nat)
    requires m < Pow10(k) && n < Pow10(k) && FixedDigits(m, k) == FixedDigits(n, k)
    ensures m == n
  {
    if k > 0 {
      var x, y := FixedDigits(m, k), FixedDigits(n, k);
      assert x[k - 1] == y[k - 1] && x[..k - 1] == FixedDigits(m / 10, k - 1)
          && y[..k - 1] == FixedDigits(n / 10, k - 1);
      FixedDigitsInjective(m / 10, n / 10, k - 1);
    }
  }

  /** `parseInt(s, 10)` for a text without leading white space or sign; None stands for NaN. */
  function ParseInt(s: string): Option<nat> {
    var d := LeadingDigits(s);
    if d == "" then None else Some(DigitsValue(d))
  }

  predicate AllDigits(s: string) {
    forall i :: 0 <= i < |s| ==> '0' <= s[i] <= '9'
  }

  function LeadingDigits(s: string): (r: string)
    ensures AllDigits(r)
  {
    if s != "" && '0' <= s[0] <= '9' then [s[0]] + LeadingDigits(s[1..]) else ""
  }

  function DigitsValue(d: string): nat
    requires AllDigits(d)
  {
    if d == "" then 0 else 10 * DigitsValue(d[..|d| - 1]) + (d[|d| - 1] as int - '0' as int)
  }

  lemma {:induction false} FixedDigitsAreDigits(n: nat, k: nat)
    ensures AllDigits(FixedDigits(n, k))
    ensures n < Pow10(k) ==> DigitsValue(FixedDigits(n, k)) == n
  {
    if k > 0 {
      FixedDigitsAreDigits(n / 10, k - 1);
      assert FixedDigits(n, k)[..k - 1] == FixedDigits(n / 10, k - 1);
    }
  }

  lemma {:induction false} AllLeadingDigits(s: string)
    requires AllDigits(s)
    ensures LeadingDigits(s) == s
  {
    if s != "" {
      AllLeadingDigits(s[1..]);
      assert s == [s[0]] + s[1..];
    }
  }

  lemma ParsesBack(n: nat, k: nat)
    requires n < Pow10(k) && k > 0
    ensures ParseInt(FixedDigits(n, k)) == Some(n)
  {
    FixedDigitsAreDigits(n, k);
    AllLeadingDigits(FixedDigits(n, k));
  }

  /** The order of strings by character codes. */
  predicate StringLess(a: string, b: string) {
    b != "" && (a == "" || a[0] < b[0] || (a[0] == b[0] && StringLess(a[1..], b[1..])))
  }

  lemma {:induction false} StringLessLast(a: string, b: string, x: char, y: char)
    requires |a| == |b|
    ensures StringLess(a + [x], b + [y]) <==> StringLess(a, b) || (a == b && x < y)
  {
    if a == "" {
      assert a + [x] == [x] && b + [y] == [y];
    } else {
      assert (a + [x])[1..] == a[1..] + [x] && (b + [y])[1..] == b[1..] + [y];
      StringLessLast(a[1..], b[1..], x, y);
      assert a == [a[0]] + a[1..] && b == [b[0]] + b[1..];
    }
  }

  /** Numerals of equal length are ordered like their numbers. */
  lemma {:induction false} NumeralOrder(m: nat, n: nat, k: nat)
    requires m < Pow10(k) && n < Pow10(k)
    ensures StringLess(FixedDigits(m, k), FixedDigits(n, k)) <==> m < n
  {
    if k > 0 {
      var x, y := ('0' as int + m % 10) as char, ('0' as int + n % 10) as char;
      NumeralOrder(m / 10, n / 10, k - 1);
      StringLessLast(FixedDigits(m / 10, k - 1), FixedDigits(n / 10, k - 1), x, y);
      if FixedDigits(m / 10, k - 1) == FixedDigits(n / 10, k - 1) {
        FixedDigitsInjective(m / 10, n / 10, k - 1);
      }
    }
  }

  lemma {:induction false} StringLessTransitive(a: string, b: string, c: string)
    requires !StringLess(b, a) && !StringLess(c, b)
    ensures !StringLess(c, a)
  {
    if a != "" && b != "" && c != "" && a[0] == b[0] == c[0] {
      StringLessTransitive(a[1..], b[1..], c[1..]);
    }
  }

  lemma {:induction false} StringLessTotal(a: string, b: string)
    ensures StringLess(a, b) ==> !StringLess(b, a)
    ensures !StringLess(a, a)
  {
    if a != "" {
      StringLessTotal(a[1..], if b == "" then "" else b[1..]);
    }
  }
}
