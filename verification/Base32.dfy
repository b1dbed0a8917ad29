/**
  The hand-written Base32 codec of two-factor.service.ts.  Its accumulator is a 32-bit word that is
  never masked; the specification is the regrouping of an unbounded bit string of section 6 of
  RFC 4648.
*/
module Base32 {
  import opened Text
  import opened Words

  const ALPHABET := "ABCDEFGHIJKLMNOPQRSTUVWXYZ234567"

  type Digit = d: int | 0 <= d < 32

  function DigitChar(d: Digit): char {
    ALPHABET[d]
  }

  /** `lookup[char]` */
  function CharDigit(c: char): Option<Digit> {
    if 'A' <= c <= 'Z' then Some(c as int - 'A' as int)
    else if '2' <= c <= '7' then Some(c as int - '2' as int + 26)
    else None
  }

  // ---------------------------------------------------------------- RFC 4648, section 6

  /** The bytes as one bit string. */
  function ByteBits(b: Bytes): (r: Bits)
    ensures |r| == 8 * |b|
  {
    if b == [] then [] else ToBits(b[0], 8) + ByteBits(b[1..])
  }

  function DigitBits(d: seq<Digit>): (r: Bits)
    ensures |r| == 5 * |d|
  {
    if d == [] then [] else ToBits(d[0], 5) + DigitBits(d[1..])
  }

  function ToDigit(p: Bits): Digit
    requires |p| == 5
  {
    NumBound(p);
    assert Pow2(5) == 32;
    Num(p)
  }

  function ToByte(p: Bits): Byte
    requires |p| == 8
  {
    NumBound(p);
    assert Pow2(8) == 256;
    Num(p)
  }

  /** Groups of five bits; a short last group is filled with zero bits. */
  function Quintets(p: Bits): (r: seq<Digit>)
    ensures |r| == (|p| + 4) / 5
  {
    if p == [] then []
    else if |p| < 5 then [ToDigit(p + Zeros(5 - |p|))]
    else [ToDigit(p[..5])] + Quintets(p[5..])
  }

  /** Groups of eight bits; a short last group is dropped. */
  function Octets(p: Bits): Bytes {
    if |p| < 8 then [] else [ToByte(p[..8])] + Octets(p[8..])
  }

  function Chars(d: seq<Digit>): (r: string)
    ensures |r| == |d|
  {
    seq(|d|, i requires 0 <= i < |d| => DigitChar(d[i]))
  }

  function Encode(b: Bytes): string {
    Chars(Quintets(ByteBits(b)))
  }

  /** The digits of a text, if all its characters are in the alphabet. */
  function Digits(s: string): Option<seq<Digit>> {
    if s == "" then Some([])
    else match CharDigit(s[0])
      case None => None
      case Some(d) =>
        match Digits(s[1..])
        case None => None
        case Some(ds) => Some([d] + ds)
  }

  /** `encoded.replace(/=+$/, '')` */
  function StripPadding(s: string): string {
    if s != "" && s[|s| - 1] == '=' then StripPadding(s[..|s| - 1]) else s
  }

  /** `toUpperCase`: ASCII letters are shifted, and `table` holds what becomes of the characters
      outside ASCII. */
  function UpperChar(c: char, table: char -> string): string {
    if 'a' <= c <= 'z' then [(c as int - 32) as char]
    else if c < 128 as char then [c]
    else table(c)
  }

  function Upper(s: string, table: char -> string): string {
    if s == "" then "" else UpperChar(s[0], table) + Upper(s[1..], table)
  }

  function DecodeDigits(s: string): Option<Bytes> {
    match Digits(s)
    case None => None
    case Some(d) => Some(Octets(DigitBits(d)))
  }

  /** None stands for the 'Invalid base32 character' exception. */
  function Decode(s: string, table: char -> string): Option<Bytes> {
    DecodeDigits(Upper(StripPadding(s), table))
  }

  // ---------------------------------------------------------------- the accumulator

  /** The low bits of the accumulator are the pending bits. */
  ghost predicate Holds(value: Word, p: Bits) {
    value % Pow2(|p|) == Num(p)
  }

  /** Shifting k bits in behind at most seven pending ones: the 32-bit overflow loses none. */
  lemma ShiftIn(value: Word, p: Bits, x: nat, k: nat)
    requires Holds(value, p) && |p| + k <= 32 && x < Pow2(k) && k > 0
    ensures Or(Shl(value, k), x) < WORD
    ensures Or(Shl(value, k), x) % Pow2(|p| + k) == Num(p + ToBits(x, k))
  {
    var n, r := Num(p), Or(Shl(value, k), x);
    assert r < WORD && r % Pow2(|p| + k) == n * Pow2(k) + x by {
      ShiftWord(value, |p|, n, x, k);
    }
    assert Num(p + ToBits(x, k)) == n * Pow2(k) + x by {
      NumConcat(p, ToBits(x, k));
      NumToBits(x, k);
    }
  }

  lemma ShiftWord(value: Word, j: nat, n: nat, x: nat, k: nat)
    requires value % Pow2(j) == n && j + k <= 32 && x < Pow2(k)
    ensures Or(Shl(value, k), x) < WORD
    ensures Or(Shl(value, k), x) % Pow2(j + k) == n * Pow2(k) + x
  {
    var a, m, c, y := Pow2(k), Pow2(j), Pow2(32 - j - k), Shl(value, k);
    assert Pow2(j + k) == m * a by {
      Pow2Sum(j, k);
    }
    assert WORD == m * a * c by {
      Pow2Is32();
      Pow2Sum(j + k, 32 - j - k);
    }
    assert y % a == 0 && y + x < WORD && (y + x) % (m * a) == n * a + x by {
      ShiftNumbers(value, m, a, c, n, x);
    }
    OrDisjoint(y, x, k);
  }

  /** The same on numbers: the word size is m * a * c. */
  lemma ShiftNumbers(v: nat, m: nat, a: nat, c: nat, n: nat, x: nat)
    requires m > 0 && a > 0 && c > 0 && v % m == n && x < a
    ensures m * a * c > 0
    ensures var y := v * a % (m * a * c);
            y % a == 0 && y + x < m * a * c && (y + x) % (m * a) == n * a + x
  {
    MulAtLeast(m, a);
    MulAtLeast(m * a, c);
    MulAtLeast(m, c);
    assert m * a * c == a * (m * c);
    var y := v * a % (m * a * c);
    assert y % a == 0 by {
      ModMod(v * a, a, m * c);
      ModOfMultiple(a, v);
      assert v * a == a * v;
    }
    MultipleBelow(y, a, m * c, x);
    ModMod(v * a, m * a, c);
    ScaledMod(v, m, a);
    AddBelow(y, m, a, n, x);
  }

  lemma Pow2Is32()
    ensures Pow2(32) == WORD
  {
    assert Pow2(8) == 256;
    Pow2Sum(8, 8);
    Pow2Sum(16, 16);
  }

  lemma MultipleBelow(y: nat, a: nat, c: nat, x: nat)
    requires a > 0 && y % a == 0 && y < a * c && x < a
    ensures y + x < a * c
  {
    Division(y, a);
    var q := y / a;
    if q >= c {
      MulNonNegative(a, q - c);
    } else {
      MulNonNegative(a, c - 1 - q);
      assert a * (c - 1 - q) == a * c - a - a * q;
    }
  }

  lemma ScaledMod(v: nat, m: nat, a: nat)
    requires m > 0 && a > 0
    ensures m * a > 0 && (v * a) % (m * a) == (v % m) * a
  {
    MulAtLeast(m, a);
    Division(v, m);
    var q, r := v / m, v % m;
    assert v * a == (m * a) * q + r * a by {
      assert v * a == (m * q + r) * a;
      assert (m * q) * a == (m * a) * q;
    }
    MulNonNegative(r, a);
    MulNonNegative(m - 1 - r, a);
    assert (m - 1 - r) * a == m * a - a - r * a;
    ModUnique(v * a, m * a, q, r * a);
  }

  lemma AddBelow(y: nat, m: nat, a: nat, n: nat, x: nat)
    requires m > 0 && a > 0 && n < m && x < a
    requires m * a > 0 && y % (m * a) == n * a
    ensures (y + x) % (m * a) == n * a + x
  {
    Division(y, m * a);
    MulNonNegative(n, a);
    MulNonNegative(m - 1 - n, a);
    assert (m - 1 - n) * a == m * a - a - n * a;
    ModUnique(y + x, m * a, y / (m * a), n * a + x);
  }

  lemma NumOfParts(p: Bits, a: Bits, b: Bits)
    requires p == a + b
    ensures Num(p) == Num(a) * Pow2(|b|) + Num(b) && Num(b) < Pow2(|b|)
  {
    NumConcat(a, b);
    NumBound(b);
  }

  /** Taking the k leading pending bits out. */
  lemma TakeOut(value: Word, p: Bits, k: nat)
    requires Holds(value, p) && k <= |p|
    ensures And(Ushr(value, |p| - k), Pow2(k) - 1) == Num(p[..k])
    ensures Holds(value, p[k..])
  {
    var i, a, b := |p| - k, p[..k], p[k..];
    assert p == a + b;
    NumOfParts(p, a, b);
    assert i + k == |p| && |b| == i;
    TakeWord(value, i, k, Num(a), Num(b));
  }

  lemma TakeWord(value: Word, i: nat, k: nat, h: nat, l: nat)
    requires value % Pow2(i + k) == h * Pow2(i) + l && l < Pow2(i)
    ensures And(Ushr(value, i), Pow2(k) - 1) == h && value % Pow2(i) == l
  {
    assert value / Pow2(i) % Pow2(k) == h && value % Pow2(i) == l by {
      Pow2Sum(i, k);
      TakeNumbers(value, Pow2(i), Pow2(k), h, l);
    }
    AndMask(Ushr(value, i), k);
  }

  lemma TakeNumbers(v: nat, a: nat, b: nat, h: nat, l: nat)
    requires a > 0 && b > 0 && a * b > 0 && v % (a * b) == h * a + l && l < a
    ensures v / a % b == h && v % a == l
  {
    DivMod(v, a, b);
    assert h * a == a * h;
    ModUnique(h * a + l, a, h, l);
  }

  // ---------------------------------------------------------------- the two loops

  lemma QuintetsStep(p: Bits, rest: Bits)
    requires |p| >= 5
    ensures Chars(Quintets(p + rest)) == [DigitChar(ToDigit(p[..5]))] + Chars(Quintets(p[5..] + rest))
  {
    assert (p + rest)[..5] == p[..5] && (p + rest)[5..] == p[5..] + rest;
  }

  lemma ByteBitsStep(b: Bytes, i: nat)
    requires i < |b|
    ensures ByteBits(b[i..]) == ToBits(b[i], 8) + ByteBits(b[i + 1..])
  {
    assert b[i..][1..] == b[i + 1..];
  }

  lemma BitsAssoc(a: Bits, b: Bits, c: Bits)
    ensures (a + b) + c == a + (b + c)
  {
  }

  lemma ZeroBits(k: nat)
    ensures ToBits(0, k) == Zeros(k)
  {
  }

  /** The last digit: the pending bits, filled with zeros. */
  lemma LastDigit(value: Word, p: Bits)
    requires Holds(value, p) && 0 < |p| < 5
    ensures And(Shl(value, 5 - |p|), 31) == ToDigit(p + Zeros(5 - |p|))
  {
    var k := 5 - |p|;
    ShiftIn(value, p, 0, k);
    OrZero(Shl(value, k));
    ZeroBits(k);
    AndMask(Shl(value, k), 5);
    assert Pow2(5) == 32;
  }

  /** The loop invariant: the text so far and what the remaining bits give. */
  ghost predicate Encoding(result: string, p: Bits, rest: Bits, all: string) {
    result + Chars(Quintets(p + rest)) == all
  }

  lemma PushByte(value: Word, p: Bits, b: Bytes, i: nat, result: string, all: string)
    requires i < |b| && |p| < 5 && Holds(value, p) && Encoding(result, p, ByteBits(b[i..]), all)
    ensures Or(Shl(value, 8), b[i]) < WORD && Holds(Or(Shl(value, 8), b[i]), p + ToBits(b[i], 8))
    ensures Encoding(result, p + ToBits(b[i], 8), ByteBits(b[i + 1..]), all)
  {
    ByteBitsStep(b, i);
    BitsAssoc(p, ToBits(b[i], 8), ByteBits(b[i + 1..]));
    assert Pow2(8) == 256;
    ShiftIn(value, p, b[i], 8);
  }

  lemma EmitDigit(value: Word, p: Bits, rest: Bits, result: string, all: string)
    requires |p| >= 5 && Holds(value, p) && Encoding(result, p, rest, all)
    ensures var d := And(Ushr(value, |p| - 5), 31);
            d < 32 && Holds(value, p[5..]) && Encoding(result + [ALPHABET[d]], p[5..], rest, all)
  {
    assert Pow2(5) == 32;
    TakeOut(value, p, 5);
    QuintetsStep(p, rest);
    var d := ToDigit(p[..5]);
    assert result + ([DigitChar(d)] + Chars(Quintets(p[5..] + rest)))
        == result + [DigitChar(d)] + Chars(Quintets(p[5..] + rest));
  }

  lemma EmitLast(value: Word, p: Bits, result: string, all: string)
    requires |p| < 5 && Holds(value, p) && Encoding(result, p, [], all)
    ensures p == [] ==> result == all
    ensures p != [] ==>
              var d := And(Shl(value, 5 - |p|), 31);
              d < 32 && result + [ALPHABET[d]] == all
  {
    assert p + [] == p;
    if p == [] {
      assert result + "" == result;
    } else {
      LastDigit(value, p);
      assert Chars(Quintets(p)) == [DigitChar(ToDigit(p + Zeros(5 - |p|)))];
    }
  }

  /** The inner loop: digits as long as there are five pending bits. */
  method EmitDigits(result: string, bits: nat, value: Word, ghost p: Bits, ghost rest: Bits, ghost all: string)
      returns (result': string, bits': nat, ghost p': Bits)
    requires |p| == bits && Holds(value, p) && Encoding(result, p, rest, all)
    ensures |p'| == bits' < 5 && Holds(value, p') && Encoding(result', p', rest, all)
  {
    result', bits', p' := result, bits, p;
    while bits' >= 5
      invariant |p'| == bits' && Holds(value, p') && Encoding(result', p', rest, all)
    {
      EmitDigit(value, p', rest, result', all);
      var digit: Digit := And(Ushr(value, bits' - 5), 31);
      result' := result' + [ALPHABET[digit]];
      p' := p'[5..];
      bits' := bits' - 5;
    }
  }

  method Base32Encode(buffer: Bytes) returns (result: string)
    ensures result == Encode(buffer)
  {
    result := "";
    var bits: nat, value: Word := 0, 0;
    ghost var p: Bits, all := [], Encode(buffer);
    assert Encoding(result, p, ByteBits(buffer[0..]), all) by {
      assert buffer[0..] == buffer && p + ByteBits(buffer) == ByteBits(buffer);
    }
    for i := 0 to |buffer|
      invariant |p| == bits < 5 && Holds(value, p)
      invariant Encoding(result, p, ByteBits(buffer[i..]), all)
    {
      PushByte(value, p, buffer, i, result, all);
      value := Or(Shl(value, 8), buffer[i]);
      p := p + ToBits(buffer[i], 8);
      bits := bits + 8;
      result, bits, p := EmitDigits(result, bits, value, p, ByteBits(buffer[i + 1..]), all);
    }
    result := Flush(result, bits, value, p, all);
  }

  /** The last digit, when there are pending bits left. */
  method Flush(result: string, bits: nat, value: Word, ghost p: Bits, ghost all: string) returns (result': string)
    requires |p| == bits < 5 && Holds(value, p) && Encoding(result, p, [], all)
    ensures result' == all
  {
    result' := result;
    EmitLast(value, p, result, all);
    if bits > 0 {
      var digit: Digit := And(Shl(value, 5 - bits), 31);
      result' := result + [ALPHABET[digit]];
    }
  }

  lemma AlphabetLetter(d: Digit)
    requires d < 26
    ensures ALPHABET[d] == ('A' as int + d) as char
  {
    assert ALPHABET[..26] == "ABCDEFGHIJKLMNOPQRSTUVWXYZ";
  }

  lemma AlphabetDigit(d: Digit)
    ensures CharDigit(ALPHABET[d]) == Some(d)
  {
    if d < 26 {
      AlphabetLetter(d);
    } else {
      assert ALPHABET[26..] == "234567";
      assert ALPHABET[d] == ALPHABET[26..][d - 26];
    }
  }

  lemma DigitAlphabet(c: char)
    ensures match CharDigit(c) case None => c !in ALPHABET case Some(d) => ALPHABET[d] == c
  {
    match CharDigit(c)
    case Some(d) =>
      if 'A' <= c <= 'Z' {
        AlphabetLetter(d);
      } else {
        assert ALPHABET[d] == ALPHABET[26..][d - 26];
      }
    case None =>
      if c in ALPHABET {
        var d :| 0 <= d < |ALPHABET| && ALPHABET[d] == c;
        AlphabetDigit(d);
      }
  }

  lemma OctetsStep(p: Bits, rest: Bits)
    requires |p| >= 8
    ensures Octets(p + rest) == [ToByte(p[..8])] + Octets(p[8..] + rest)
  {
    assert (p + rest)[..8] == p[..8] && (p + rest)[8..] == p[8..] + rest;
  }

  /** The loop invariant: what the digits read and to be read give, unless a character is no digit. */
  ghost predicate Decoding(output: Bytes, p: Bits, rest: string, all: Option<Bytes>) {
    all == match Digits(rest) {
             case None => None
             case Some(d) => Some(output + Octets(p + DigitBits(d)))
           }
  }

  lemma PushDigit(value: Word, p: Bits, s: string, i: nat, output: Bytes, all: Option<Bytes>)
    requires i < |s| && |p| < 8 && Holds(value, p) && Decoding(output, p, s[i..], all)
    ensures CharDigit(s[i]) == None ==> all == None
    ensures CharDigit(s[i]).Some? ==>
              var d := CharDigit(s[i]).value;
              && Or(Shl(value, 5), d) < WORD && Holds(Or(Shl(value, 5), d), p + ToBits(d, 5))
              && Decoding(output, p + ToBits(d, 5), s[i + 1..], all)
  {
    assert s[i..][1..] == s[i + 1..];
    if CharDigit(s[i]).Some? {
      var d := CharDigit(s[i]).value;
      assert Pow2(5) == 32;
      ShiftIn(value, p, d, 5);
      if Digits(s[i + 1..]).Some? {
        var ds := Digits(s[i + 1..]).value;
        assert ([d] + ds)[1..] == ds;
        BitsAssoc(p, ToBits(d, 5), DigitBits(ds));
      }
    }
  }

  lemma EmitByte(value: Word, p: Bits, rest: string, output: Bytes, all: Option<Bytes>)
    requires |p| >= 8 && Holds(value, p) && Decoding(output, p, rest, all)
    ensures var b := And(Ushr(value, |p| - 8), 0xff);
            b < 256 && Holds(value, p[8..]) && Decoding(output + [b], p[8..], rest, all)
  {
    assert Pow2(8) == 256;
    TakeOut(value, p, 8);
    var b := ToByte(p[..8]);
    if Digits(rest).Some? {
      var more := DigitBits(Digits(rest).value);
      OctetsStep(p, more);
      assert output + ([b] + Octets(p[8..] + more)) == output + [b] + Octets(p[8..] + more);
    }
  }

  /** The look-up table that the decoder builds first. */
  method BuildLookup() returns (lookup: map<char, Digit>)
    ensures forall c :: c in lookup <==> c in ALPHABET
    ensures forall c <- lookup :: CharDigit(c) == Some(lookup[c])
  {
    lookup := map[];
    for i := 0 to |ALPHABET|
      invariant forall c :: c in lookup <==> c in ALPHABET[..i]
      invariant forall c <- lookup :: CharDigit(c) == Some(lookup[c])
    {
      AlphabetDigit(i);
      lookup := lookup[ALPHABET[i] := i];
      assert ALPHABET[..i + 1] == ALPHABET[..i] + [ALPHABET[i]];
    }
    assert ALPHABET[..|ALPHABET|] == ALPHABET;
  }

  /** The end of the loop body: a byte as soon as there are eight pending bits. */
  method EmitIfFull(output: Bytes, bits: nat, value: Word, ghost p: Bits, ghost rest: string, ghost all: Option<Bytes>)
      returns (output': Bytes, bits': nat, ghost p': Bits)
    requires |p| == bits < 16 && Holds(value, p) && Decoding(output, p, rest, all)
    ensures |p'| == bits' < 8 && Holds(value, p') && Decoding(output', p', rest, all)
  {
    output', bits', p' := output, bits, p;
    if bits >= 8 {
      EmitByte(value, p, rest, output, all);
      var byte: Byte := And(Ushr(value, bits - 8), 0xff);
      output' := output + [byte];
      p' := p[8..];
      bits' := bits - 8;
    }
  }

  method LookUp(lookup: map<char, Digit>, c: char) returns (idx: Option<Digit>)
    requires forall x :: x in lookup <==> x in ALPHABET
    requires forall x <- lookup :: CharDigit(x) == Some(lookup[x])
    ensures idx == CharDigit(c)
  {
    DigitAlphabet(c);
    return if c in lookup then Some(lookup[c]) else None;
  }

  method Base32Decode(encoded: string, table: char -> string) returns (r: Option<Bytes>)
    ensures r == Decode(encoded, table)
  {
    var lookup := BuildLookup();
    var cleanInput := Upper(StripPadding(encoded), table);
    var bits: nat, value: Word := 0, 0;
    var output: Bytes := [];
    ghost var p: Bits, all := [], Decode(encoded, table);
    assert Decoding(output, p, cleanInput[0..], all) by {
      assert cleanInput[0..] == cleanInput;
      DecodingBegins(encoded, table);
    }
    for i := 0 to |cleanInput|
      invariant |p| == bits < 8 && Holds(value, p)
      invariant Decoding(output, p, cleanInput[i..], all)
    {
      PushDigit(value, p, cleanInput, i, output, all);
      var idx := LookUp(lookup, cleanInput[i]);
      if idx.None? {
        return None;
      }
      value := Or(Shl(value, 5), idx.value);
      p := p + ToBits(idx.value, 5);
      bits := bits + 5;
      output, bits, p := EmitIfFull(output, bits, value, p, cleanInput[i + 1..], all);
    }
    DecodingEnds(output, p, all);
    return Some(output);
  }

  lemma DecodingEnds(output: Bytes, p: Bits, all: Option<Bytes>)
    requires |p| < 8 && Decoding(output, p, "", all)
    ensures all == Some(output)
  {
    assert p + DigitBits([]) == p && output + [] == output;
  }

  lemma DecodingBegins(encoded: string, table: char -> string)
    ensures Decoding([], [], Upper(StripPadding(encoded), table), Decode(encoded, table))
  {
    var d := Digits(Upper(StripPadding(encoded), table));
    if d.Some? {
      assert [] + DigitBits(d.value) == DigitBits(d.value);
      assert [] + Octets(DigitBits(d.value)) == Octets(DigitBits(d.value));
    }
  }

  // ---------------------------------------------------------------- the round trip

  lemma {:induction false} BitsOfQuintets(p: Bits)
    ensures exists k: nat :: k < 5 && DigitBits(Quintets(p)) == p + Zeros(k)
  {
    if p == [] {
      assert p + Zeros(0) == [];
    } else if |p| < 5 {
      var k := 5 - |p|;
      var q := p + Zeros(k);
      ToBitsNum(q);
      assert DigitBits([ToDigit(q)]) == ToBits(ToDigit(q), 5) + DigitBits([]);
      assert DigitBits(Quintets(p)) == p + Zeros(k);
    } else {
      BitsOfQuintets(p[5..]);
      var k: nat :| k < 5 && DigitBits(Quintets(p[5..])) == p[5..] + Zeros(k);
      ToBitsNum(p[..5]);
      var ds := Quintets(p[5..]);
      assert ([ToDigit(p[..5])] + ds)[1..] == ds;
      assert p == p[..5] + p[5..];
      BitsAssoc(p[..5], p[5..], Zeros(k));
      assert DigitBits(Quintets(p)) == p + Zeros(k);
    }
  }

  lemma {:induction false} OctetsOfBytes(b: Bytes, k: nat)
    requires k < 8
    ensures Octets(ByteBits(b) + Zeros(k)) == b
  {
    if b == [] {
      assert ByteBits(b) + Zeros(k) == Zeros(k);
    } else {
      var first, more := ToBits(b[0], 8), ByteBits(b[1..]);
      BitsAssoc(first, more, Zeros(k));
      OctetsStep(first, more + Zeros(k));
      assert first[..8] == first && first[8..] == [];
      assert [] + (more + Zeros(k)) == more + Zeros(k);
      assert Pow2(8) == 256;
      NumToBits(b[0], 8);
      OctetsOfBytes(b[1..], k);
    }
  }

  lemma CharsStep(d: seq<Digit>)
    requires d != []
    ensures Chars(d) == [DigitChar(d[0])] + Chars(d[1..]) && Chars(d)[1..] == Chars(d[1..])
  {
  }

  lemma {:induction false} DigitsOfChars(d: seq<Digit>)
    ensures Digits(Chars(d)) == Some(d)
  {
    if d != [] {
      CharsStep(d);
      AlphabetDigit(d[0]);
      DigitsOfChars(d[1..]);
      assert d == [d[0]] + d[1..] && Chars(d)[0] == ALPHABET[d[0]];
    }
  }

  lemma UpperDigit(d: Digit, table: char -> string)
    ensures UpperChar(DigitChar(d), table) == [DigitChar(d)]
  {
    AlphabetDigit(d);
  }

  lemma {:induction false} UpperOfChars(d: seq<Digit>, table: char -> string)
    ensures Upper(Chars(d), table) == Chars(d)
  {
    if d != [] {
      CharsStep(d);
      UpperDigit(d[0], table);
      UpperOfChars(d[1..], table);
    }
  }

  lemma NoPadding(d: seq<Digit>)
    ensures StripPadding(Chars(d)) == Chars(d)
  {
    if d != [] {
      AlphabetDigit(d[|d| - 1]);
    }
  }

  /** MAIN RESULT.  Decoding gives back every byte sequence that was encoded. */
  lemma RoundTrip(b: Bytes, table: char -> string)
    ensures Decode(Encode(b), table) == Some(b)
    ensures |Encode(b)| == (8 * |b| + 4) / 5
  {
    var d := Quintets(ByteBits(b));
    NoPadding(d);
    UpperOfChars(d, table);
    DigitsOfChars(d);
    BitsOfQuintets(ByteBits(b));
    var k: nat :| k < 5 && DigitBits(d) == ByteBits(b) + Zeros(k);
    OctetsOfBytes(b, k);
  }

  // ---------------------------------------------------------------- what the decoder accepts

  predicate IsLower(c: char) { 'a' <= c <= 'z' }

  /** c is d, or d is a capital and c its small letter. */
  predicate IsCaseOf(c: char, d: char) {
    c == d || ('A' <= d <= 'Z' && c as int == d as int - 'A' as int + 'a' as int)
  }

  predicate AllPadding(s: string) {
    forall i :: 0 <= i < |s| ==> s[i] == '='
  }

  lemma {:induction false} PaddingGoes(t: string, pad: string)
    requires AllPadding(pad) && (t == "" || t[|t| - 1] != '=')
    ensures StripPadding(t + pad) == t
  {
    if pad == "" {
      assert t + pad == t;
    } else {
      assert (t + pad)[..|t + pad| - 1] == t + pad[..|pad| - 1];
      PaddingGoes(t, pad[..|pad| - 1]);
    }
  }

  lemma UpperOfCase(c: char, d: Digit, table: char -> string)
    requires IsCaseOf(c, DigitChar(d))
    ensures UpperChar(c, table) == [DigitChar(d)] && c != '='
  {
    AlphabetDigit(d);
  }

  lemma {:induction false} UpperOfAnyCase(t: string, d: seq<Digit>, table: char -> string)
    requires |t| == |d| && forall i :: 0 <= i < |t| ==> IsCaseOf(t[i], DigitChar(d[i]))
    ensures Upper(t, table) == Chars(d)
  {
    if t != "" {
      UpperOfCase(t[0], d[0], table);
      UpperOfAnyCase(t[1..], d[1..], table);
      CharsStep(d);
    } else {
      assert Chars(d) == "";
    }
  }

  /** MAIN RESULT.  An encoding in any mixture of capital and small letters, with any padding, is decoded
      to the bytes that were encoded. */
  lemma RoundTripAnyCase(b: Bytes, t: string, pad: string, table: char -> string)
    requires |t| == |Encode(b)| && AllPadding(pad)
    requires forall i :: 0 <= i < |t| ==> IsCaseOf(t[i], Encode(b)[i])
    ensures Decode(t + pad, table) == Some(b)
  {
    var d := Quintets(ByteBits(b));
    UpperOfAnyCase(t, d, table);
    if t != "" {
      UpperOfCase(t[|t| - 1], d[|t| - 1], table);
    }
    PaddingGoes(t, pad);
    RoundTrip(b, table);
    assert Decode(Encode(b), table) == DecodeDigits(Encode(b)) by {
      NoPadding(d);
      UpperOfChars(d, table);
    }
  }

  predicate IsDigitOfAnyCase(c: char) {
    IsLower(c) || 'A' <= c <= 'Z' || '2' <= c <= '7'
  }

  lemma {:induction false} DigitsOfUpper(s: string, table: char -> string)
    requires forall i :: 0 <= i < |s| ==> (s[i] as int) < 128
    ensures Digits(Upper(s, table)).Some? <==> forall i :: 0 <= i < |s| ==> IsDigitOfAnyCase(s[i])
  {
    if s != "" {
      DigitsOfUpper(s[1..], table);
      var u := UpperChar(s[0], table);
      assert |u| == 1 && (u + Upper(s[1..], table))[1..] == Upper(s[1..], table);
      assert CharDigit(u[0]).Some? <==> IsDigitOfAnyCase(s[0]);
      assert forall i :: 1 <= i < |s| ==> s[i] == s[1..][i - 1];
    }
  }

  /** The decoder rejects an ASCII text exactly when, apart from its padding, it has a character that is
      no letter and no digit from 2 to 7. */
  lemma RejectsExactly(s: string, pad: string, table: char -> string)
    requires AllPadding(pad) && (s == "" || s[|s| - 1] != '=')
    requires forall i :: 0 <= i < |s| ==> (s[i] as int) < 128
    ensures Decode(s + pad, table) == None <==> exists i :: 0 <= i < |s| && !IsDigitOfAnyCase(s[i])
  {
    PaddingGoes(s, pad);
    DigitsOfUpper(s, table);
  }

  // ---------------------------------------------------------------- a test vector

  lemma NumOfFive(p: Bits)
    requires |p| == 5
    ensures Num(p) == (if p[0] then 16 else 0) + (if p[1] then 8 else 0) + (if p[2] then 4 else 0)
                      + (if p[3] then 2 else 0) + (if p[4] then 1 else 0)
  {
    var a, b, c, d := p[..1], p[..2], p[..3], p[..4];
    assert d[..3] == c && c[..2] == b && b[..1] == a && a[..0] == [];
    assert Num(a) == if p[0] then 1 else 0;
    assert Num(b) == 2 * Num(a) + if p[1] then 1 else 0;
    assert Num(c) == 2 * Num(b) + if p[2] then 1 else 0;
    assert Num(d) == 2 * Num(c) + if p[3] then 1 else 0;
  }

  lemma BitsOfVector(p: Bits)
    requires p == [false, true, true, false, false, true, true, false]
    ensures ByteBits([0x66]) == p
  {
    assert ToBits(6, 4) == p[..4];
    assert ToBits(25, 6) == p[..6];
    assert [0x66][1..] == [];
    assert ToBits(0x66, 8) == p;
  }

  lemma DigitsOfVector(p: Bits)
    requires p == [false, true, true, false, false, true, true, false]
    ensures Quintets(p) == [12, 24]
  {
    var q := p[5..];
    NumOfFive(p[..5]);
    NumOfFive(q + Zeros(2));
    assert Quintets(q) == [ToDigit(q + Zeros(2))];
  }

  /** The first test vector of section 10 of RFC 4648, without its padding. */
  lemma VectorOfStandard()
    ensures Encode([0x66]) == "MY"
  {
    var p := [false, true, true, false, false, true, true, false];
    BitsOfVector(p);
    DigitsOfVector(p);
    AlphabetLetter(12);
    AlphabetLetter(24);
  }
}
