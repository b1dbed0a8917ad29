/**
  The QR payload of a ZATCA invoice (generateTLV, addTlvText and addTlvBinary of
  zatca-crypto.service.ts): a printer of tag-length-value fields with two length forms, against two
  independent readers.  The Base64 step around it is not part of this model; text fields are given
  by their UTF-8 bytes.
*/
module Tlv {
  import opened Text
  import opened Words

  datatype TlvData = TlvData(
    sellerName: Bytes, vatNumber: Bytes, timestamp: Bytes, totalWithVat: Bytes, vatAmount: Bytes,
    invoiceHash: Bytes, signature: Bytes, publicKey: Bytes, certificateStamp: Option<Bytes>)

  /** A field as a reader reports it. */
  datatype Field = Field(tag: Byte, value: Bytes)

  const LAST_TEXT_TAG := 5

  predicate IsText(f: Field) { f.tag <= LAST_TEXT_TAG }

  function TextFields(d: TlvData): seq<Field> {
    [Field(1, d.sellerName), Field(2, d.vatNumber), Field(3, d.timestamp), Field(4, d.totalWithVat),
     Field(5, d.vatAmount)]
  }

  function BinaryFields(d: TlvData): seq<Field> {
    [Field(6, d.invoiceHash), Field(7, d.signature), Field(8, d.publicKey)] +
    (if d.certificateStamp.Some? then [Field(9, d.certificateStamp.value)] else [])
  }

  /** The fields in the order in which they are written. */
  function Fields(d: TlvData): seq<Field> {
    TextFields(d) + BinaryFields(d)
  }

  // ---------------------------------------------------------------- the printer

  /** One length byte; `Buffer.from` keeps the low eight bits of a larger number. */
  function TextBytes(f: Field): Bytes {
    [f.tag, |f.value| % 256] + f.value
  }

  /** One length byte up to 127, else 0x82 and two length bytes. */
  function BinaryBytes(f: Field): Bytes
    requires |f.value| <= 65535
  {
    (if |f.value| > 127 then [f.tag, 0x82, |f.value| / 256, |f.value| % 256] else [f.tag, |f.value|]) + f.value
  }

  /** writeUInt16BE throws for a longer binary value. */
  predicate Printable(f: Field) {
    IsText(f) || |f.value| <= 65535
  }

  function FieldBytes(f: Field): (r: Bytes)
    requires Printable(f)
    ensures |r| > 1 && r[0] == f.tag
  {
    if IsText(f) then TextBytes(f) else BinaryBytes(f)
  }

  predicate AllPrintable(fields: seq<Field>) {
    forall f <- fields :: Printable(f)
  }

  function Print(fields: seq<Field>): Bytes
    requires AllPrintable(fields)
  {
    if fields == [] then [] else FieldBytes(fields[0]) + Print(fields[1..])
  }

  function Flatten(parts: seq<Bytes>): Bytes {
    if parts == [] then [] else parts[0] + Flatten(parts[1..])
  }

  lemma FlattenConcat(a: seq<Bytes>, b: seq<Bytes>)
    ensures Flatten(a + b) == Flatten(a) + Flatten(b)
  {
    if a == [] {
      assert a + b == b;
    } else {
      assert (a + b)[1..] == a[1..] + b;
      FlattenConcat(a[1..], b);
    }
  }

  lemma FlattenTwo(x: Bytes, y: Bytes)
    ensures Flatten([x, y]) == x + y
  {
    assert [x, y][1..] == [y] && [y][1..] == [];
    assert Flatten([y]) == y + [] == y;
  }

  lemma FlattenThree(x: Bytes, y: Bytes, z: Bytes)
    ensures Flatten([x, y, z]) == x + y + z
  {
    assert [x, y, z][1..] == [y, z];
    FlattenTwo(y, z);
  }

  lemma {:induction false} PrintOneMore(fields: seq<Field>, f: Field)
    requires AllPrintable(fields) && Printable(f)
    ensures AllPrintable(fields + [f]) && Print(fields + [f]) == Print(fields) + FieldBytes(f)
  {
    var all := fields + [f];
    if fields == [] {
      assert all[1..] == [];
      assert Print(all) == FieldBytes(f) + [] == [] + FieldBytes(f);
    } else {
      PrintOneMore(fields[1..], f);
      assert all[1..] == fields[1..] + [f];
      PrintAssoc(FieldBytes(fields[0]), Print(fields[1..]), FieldBytes(f));
    }
  }

  lemma PrintAssoc(a: Bytes, b: Bytes, c: Bytes)
    ensures (a + b) + c == a + (b + c)
  {
  }

  /** The array of buffers that the two helpers append to, with the fields it stands for. */
  class TlvParts {
    var parts: seq<Bytes>
    ghost var written: seq<Field>

    ghost predicate Valid()
      reads this
    {
      AllPrintable(written) && Flatten(parts) == Print(written)
    }

    constructor ()
      ensures Valid() && written == []
    {
      parts := [];
      written := [];
    }

    /** `parts.push(...)` with the buffers of one field. */
    method Push(buffers: seq<Bytes>, ghost f: Field)
      requires Valid() && Printable(f) && Flatten(buffers) == FieldBytes(f)
      modifies this
      ensures Valid() && written == old(written) + [f]
    {
      FlattenConcat(parts, buffers);
      PrintOneMore(written, f);
      parts := parts + buffers;
      written := written + [f];
    }

    method AddText(tag: Byte, value: Bytes)
      requires Valid() && tag <= LAST_TEXT_TAG
      modifies this
      ensures Valid() && written == old(written) + [Field(tag, value)]
    {
      var lead: Bytes := [tag, |value| % 256];
      FlattenTwo(lead, value);
      Push([lead, value], Field(tag, value));
    }

    /** False stands for the RangeError of writeUInt16BE. */
    method AddBinary(tag: Byte, value: Bytes) returns (ok: bool)
      requires Valid() && tag > LAST_TEXT_TAG
      modifies this
      ensures Valid() && (ok <==> |value| <= 65535)
      ensures written == old(written) + (if ok then [Field(tag, value)] else [])
    {
      if |value| > 65535 {
        return false;
      }
      if |value| > 127 {
        var lengthBuffer: Bytes := [0x82, |value| / 256, |value| % 256];
        FlattenThree([tag], lengthBuffer, value);
        Push([[tag], lengthBuffer, value], Field(tag, value));
      } else {
        var lead: Bytes := [tag, |value|];
        FlattenTwo(lead, value);
        Push([lead, value], Field(tag, value));
      }
      return true;
    }

    /** `Buffer.concat(parts)` */
    function Contents(): (r: Bytes)
      requires Valid()
      reads this
      ensures r == Print(written)
    {
      Flatten(parts)
    }
  }

  /** writeUInt16BE accepts the lengths of all binary values. */
  predicate BinariesFit(d: TlvData) {
    && |d.invoiceHash| <= 65535 && |d.signature| <= 65535 && |d.publicKey| <= 65535
    && (d.certificateStamp.Some? ==> |d.certificateStamp.value| <= 65535)
  }

  lemma FitIsPrintable(d: TlvData)
    ensures BinariesFit(d) <==> AllPrintable(Fields(d))
  {
    var x := Fields(d);
    if AllPrintable(x) {
      assert Printable(x[5]) && Printable(x[6]) && Printable(x[7]);
      assert d.certificateStamp.Some? ==> Printable(x[8]);
    }
  }

  lemma ThreeMore(t: seq<Field>, x: Field, y: Field, z: Field, more: seq<Field>)
    ensures t + [x] + [y] + [z] + more == t + ([x, y, z] + more)
    ensures t + [x] + [y] + [z] == t + ([x, y, z] + [])
  {
  }

  /** generateTLV up to its Base64 encoding; None stands for the RangeError. */
  method GenerateTLV(data: TlvData) returns (r: Option<Bytes>)
    ensures r.Some? <==> BinariesFit(data)
    ensures r.Some? ==> AllPrintable(Fields(data)) && r.value == Print(Fields(data))
  {
    var tlvParts := new TlvParts();
    tlvParts.AddText(1, data.sellerName);
    tlvParts.AddText(2, data.vatNumber);
    tlvParts.AddText(3, data.timestamp);
    tlvParts.AddText(4, data.totalWithVat);
    tlvParts.AddText(5, data.vatAmount);
    ghost var texts := tlvParts.written;
    assert texts == TextFields(data);
    var ok := tlvParts.AddBinary(6, data.invoiceHash);
    if !ok { return None; }
    ok := tlvParts.AddBinary(7, data.signature);
    if !ok { return None; }
    ok := tlvParts.AddBinary(8, data.publicKey);
    if !ok { return None; }
    ghost var stamp := [];
    if data.certificateStamp.Some? {
      ok := tlvParts.AddBinary(9, data.certificateStamp.value);
      if !ok { return None; }
      stamp := [Field(9, data.certificateStamp.value)];
    }
    ThreeMore(texts, Field(6, data.invoiceHash), Field(7, data.signature), Field(8, data.publicKey), stamp);
    FitIsPrintable(data);
    return Some(tlvParts.Contents());
  }

  // ---------------------------------------------------------------- two readers

  function BigEndian(b: Bytes): nat {
    if b == [] then 0 else 256 * BigEndian(b[..|b| - 1]) + b[|b| - 1]
  }

  datatype Header = Header(size: nat, length: nat)

  /** The length of section 8.1.3 of ITU-T X.690, definite forms: one byte below 128, or 128 + k and
      then k length bytes.  128 itself (the indefinite form) and 255 are no definite lengths. */
  function BerHeader(s: Bytes): Option<Header>
    requires |s| >= 2
  {
    var k: int := s[1] as int - 128;
    if k < 0 then Some(Header(2, s[1]))
    else if k == 0 || k == 127 || |s| < 2 + k then None
    else Some(Header(2 + k, BigEndian(s[2..2 + k])))
  }

  /** A reader that knows which tags carry text, with a one-byte length of up to 255. */
  function TagAwareHeader(s: Bytes): Option<Header>
    requires |s| >= 2
  {
    if s[0] <= LAST_TEXT_TAG then Some(Header(2, s[1])) else BerHeader(s)
  }

  function ReadHeader(aware: bool, s: Bytes): (r: Option<Header>)
    requires |s| >= 2
    ensures r.Some? ==> r.value.size >= 2
  {
    if aware then TagAwareHeader(s) else BerHeader(s)
  }

  function ReadField(aware: bool, s: Bytes): (r: Option<(Field, Bytes)>)
    ensures r.Some? ==> |r.value.1| < |s|
  {
    if |s| < 2 then None
    else match ReadHeader(aware, s)
      case None => None
      case Some(h) =>
        var end := h.size + h.length;
        if |s| < end then None else Some((Field(s[0], s[h.size..end]), s[end..]))
  }

  function ReadAll(aware: bool, s: Bytes): Option<seq<Field>>
    decreases |s|
  {
    if s == [] then Some([])
    else match ReadField(aware, s)
      case None => None
      case Some((f, rest)) =>
        match ReadAll(aware, rest)
        case None => None
        case Some(fs) => Some([f] + fs)
  }

  // ---------------------------------------------------------------- reading back

  /** The longest text a reader reports correctly. */
  function TextLimit(aware: bool): nat {
    if aware then 255 else 127
  }

  lemma ReadsLong(f: Field, rest: Bytes, aware: bool)
    requires Printable(f) && !IsText(f) && |f.value| > 127
    ensures ReadField(aware, FieldBytes(f) + rest) == Some((f, rest))
  {
    var s, n := FieldBytes(f) + rest, |f.value|;
    assert s[1] == 0x82 && s[2..4] == [n / 256, n % 256];
    BigEndianTwo(n / 256, n % 256);
    assert s[4..4 + n] == f.value && s[4 + n..] == rest;
  }

  lemma ReadsShort(f: Field, rest: Bytes, aware: bool)
    requires Printable(f) && |f.value| <= if IsText(f) then TextLimit(aware) else 127
    ensures ReadField(aware, FieldBytes(f) + rest) == Some((f, rest))
  {
    var s, n := FieldBytes(f) + rest, |f.value|;
    assert s[1] == n && s[2..2 + n] == f.value && s[2 + n..] == rest;
  }

  lemma ReadsField(aware: bool, f: Field, rest: Bytes)
    requires Printable(f) && (IsText(f) ==> |f.value| <= TextLimit(aware))
    ensures ReadField(aware, FieldBytes(f) + rest) == Some((f, rest))
  {
    if !IsText(f) && |f.value| > 127 {
      ReadsLong(f, rest, aware);
    } else {
      ReadsShort(f, rest, aware);
    }
  }

  lemma BigEndianTwo(hi: Byte, lo: Byte)
    ensures BigEndian([hi, lo]) == 256 * hi + lo
  {
    assert [hi, lo][..1] == [hi] && [hi][..0] == [];
    assert BigEndian([hi]) == hi;
  }

  /** A big-endian number below 256 has zeros in front of its last byte. */
  lemma {:induction false} SmallBigEndian(b: Bytes)
    requires b != [] && BigEndian(b) < 256
    ensures b[|b| - 1] == BigEndian(b)
    ensures forall i :: 0 <= i < |b| - 1 ==> b[i] == 0
  {
    var front := b[..|b| - 1];
    if front != [] {
      SmallBigEndian(front);
      assert forall i :: 0 <= i < |front| ==> front[i] == b[i];
    }
  }

  /** v repeats itself every k bytes: position i shows a byte of the first period. */
  lemma {:induction false} Periodic(v: Bytes, k: nat, i: nat) returns (j: nat)
    requires 0 < k && i < |v|
    requires forall j :: k <= j < |v| ==> v[j] == v[j - k]
    ensures j < k && j < |v| && v[i] == v[j]
    decreases i
  {
    if i < k {
      j := i;
    } else {
      j := Periodic(v, k, i - k);
    }
  }

  /** Text that reads the same k bytes later is followed by a byte of its own first period. */
  lemma ShiftedText(v: Bytes, rest: Bytes, k: nat) returns (j: nat)
    requires 0 < k < |v| && k <= |rest| && v == (v + rest)[k..k + |v|]
    ensures j < k && rest[0] == v[j]
  {
    var s := v + rest;
    assert forall j :: 0 <= j < |v| ==> v[j] == s[k + j];
    assert v[|v| - k] == s[|v|] == rest[0];
    forall j | k <= j < |v| ensures v[j] == v[j - k] {
      assert v[j - k] == s[k + (j - k)];
    }
    j := Periodic(v, k, |v| - k);
  }

  lemma BehindShiftedText(v: Bytes, rest: Bytes, k: nat)
    requires 0 < k < |v| < 256 && BigEndian(v[..k]) == |v|
    requires k <= |rest| && v == (v + rest)[k..k + |v|]
    ensures rest[0] == 0 || rest[0] == |v|
  {
    var j := ShiftedText(v, rest, k);
    var p := v[..k];
    SmallBigEndian(p);
    assert p[j] == rest[0];
    assert j < k - 1 ==> p[j] == 0;
  }

  lemma BerNeverReports(s: Bytes, v: Bytes, rest: Bytes)
    requires 128 <= |v| <= 255 && |s| > 1 && s[1] == |v| && s[2..] == v + rest
    requires rest == [] || 1 <= rest[0] < 128
    ensures ReadField(false, s).Some? ==> ReadField(false, s).value.0.value != v
  {
    if ReadField(false, s).Some? && ReadField(false, s).value.0.value == v {
      BerReadsShifted(s, v, rest);
      BehindShiftedText(v, rest, |v| - 128);
    }
  }

  /** A text of 128 to 255 bytes: its length byte reads as a long form whose length bytes are text.
      Were the text reported nevertheless, it would repeat itself, and the tag behind it would be a
      byte of its first period: zero, or its own length. */
  lemma BerMisreadsText(f: Field, rest: Bytes)
    requires IsText(f) && 128 <= |f.value| <= 255
    requires rest == [] || 1 <= rest[0] < 128
    ensures ReadField(false, FieldBytes(f) + rest).Some? ==> ReadField(false, FieldBytes(f) + rest).value.0 != f
  {
    var s := FieldBytes(f) + rest;
    assert s[1] == |f.value| && s[2..] == f.value + rest;
    BerNeverReports(s, f.value, rest);
  }

  /** If the reader reports the text, it took its first bytes for the length. */
  lemma BerReadsShifted(s: Bytes, v: Bytes, rest: Bytes)
    requires 128 <= |v| <= 255 && |s| > 1 && s[1] == |v| && s[2..] == v + rest
    requires ReadField(false, s).Some? && ReadField(false, s).value.0.value == v
    ensures var k := |v| - 128;
            0 < k <= |rest| && BigEndian(v[..k]) == |v| && v == (v + rest)[k..k + |v|]
  {
    var k := |v| - 128;
    var h := BerHeader(s).value;
    assert h == Header(2 + k, BigEndian(s[2..2 + k])) && v == s[h.size..h.size + h.length];
    SlicesBehindHeader(s, v, rest, k);
  }

  lemma SlicesBehindHeader(s: Bytes, v: Bytes, rest: Bytes, k: nat)
    requires |s| > 1 && s[2..] == v + rest && k <= |v| && k <= |rest|
    ensures s[2..2 + k] == v[..k] && s[2 + k..2 + k + |v|] == (v + rest)[k..k + |v|]
  {
    var t := v + rest;
    assert forall i :: 0 <= i < |t| ==> s[2 + i] == t[i];
    assert forall i :: 0 <= i < k ==> t[i] == v[i];
  }

  lemma AwareMisreadsText(f: Field, rest: Bytes)
    requires IsText(f) && |f.value| > 255
    ensures ReadField(true, FieldBytes(f) + rest).Some? ==> ReadField(true, FieldBytes(f) + rest).value.0 != f
  {
    var s := FieldBytes(f) + rest;
    assert s[1] == |f.value| % 256;
  }

  predicate ReadableText(aware: bool, fields: seq<Field>) {
    forall f <- fields | IsText(f) :: |f.value| <= TextLimit(aware)
  }

  /** A BER reader that reports f has taken a header of h bytes and the value; a value of more than 127
      bytes needs a header of at least three. */
  lemma ReportedField(s: Bytes, f: Field) returns (h: nat)
    requires ReadField(false, s).Some? && ReadField(false, s).value.0 == f
    ensures h >= 2 && h + |f.value| <= |s| && s[0] == f.tag
    ensures ReadField(false, s).value.1 == s[h + |f.value|..]
    ensures |f.value| > 127 ==> h >= 3
  {
    var header := BerHeader(s).value;
    h := header.size;
    assert |s[h..h + header.length]| == header.length;
  }

  /** The reader stands sh bytes behind the start of a printed field and reports just that field: then
      it stands behind the start of what follows, too.  The same holds at the very start of a text of
      more than 127 bytes. */
  lemma StaysBehind(f: Field, rest: Bytes, sh: nat) returns (sh': nat)
    requires Printable(f) && f.tag < 128 && sh <= |FieldBytes(f) + rest|
    requires sh > 0 || (IsText(f) && |f.value| > 127)
    requires var r := ReadField(false, (FieldBytes(f) + rest)[sh..]); r.Some? && r.value.0 == f
    ensures 0 < sh' <= |rest| && ReadField(false, (FieldBytes(f) + rest)[sh..]).value.1 == rest[sh'..]
  {
    var all := FieldBytes(f) + rest;
    var s := all[sh..];
    var h := ReportedField(s, f);
    var size := |FieldBytes(f)|;
    assert s[0] == all[sh];
    assert size == |f.value| + 4 ==> all[1] == 0x82;
    sh' := sh + h + |f.value| - size;
    SuffixOfConcat(FieldBytes(f), rest, sh, h + |f.value|);
  }

  lemma SuffixOfConcat(a: Bytes, b: Bytes, i: nat, j: nat)
    requires i + j <= |a + b| && i + j >= |a|
    ensures (a + b)[i..][j..] == b[i + j - |a|..]
  {
  }

  lemma ReadsHead(s: Bytes, fields: seq<Field>)
    requires fields != [] && ReadAll(false, s) == Some(fields)
    ensures var r := ReadField(false, s);
            r.Some? && r.value.0 == fields[0] && ReadAll(false, r.value.1) == Some(fields[1..])
  {
  }

  /** A BER reader that has lost step never reports the fields that were printed. */
  lemma {:induction false} NeverCatchesUp(fields: seq<Field>, sh: nat)
    requires AllPrintable(fields) && forall f <- fields :: f.tag < 128
    requires 0 < sh <= |Print(fields)|
    ensures ReadAll(false, Print(fields)[sh..]) != Some(fields)
  {
    var s := Print(fields)[sh..];
    if ReadAll(false, s) == Some(fields) {
      ReadsHead(s, fields);
      var sh' := StaysBehind(fields[0], Print(fields[1..]), sh);
      NeverCatchesUp(fields[1..], sh');
    }
  }

  /** A text that is too long makes a BER reader lose step at once. */
  lemma LongTextLosesStep(fields: seq<Field>)
    requires AllPrintable(fields) && forall f <- fields :: f.tag < 128
    requires fields != [] && IsText(fields[0]) && |fields[0].value| > 127
    ensures ReadAll(false, Print(fields)) != Some(fields)
  {
    var s := Print(fields);
    if ReadAll(false, s) == Some(fields) {
      ReadsHead(s, fields);
      assert s[0..] == s;
      var sh := StaysBehind(fields[0], Print(fields[1..]), 0);
      NeverCatchesUp(fields[1..], sh);
    }
  }

  /** MAIN RESULT.  A reader recovers the fields from the printed bytes if and only if no text is longer
      than its limit: 127 bytes for a plain BER reader, 255 for one that knows the text tags. */
  lemma {:induction false} ReadsBack(aware: bool, fields: seq<Field>)
    requires AllPrintable(fields) && forall f <- fields :: f.tag < 128
    ensures ReadAll(aware, Print(fields)) == Some(fields) <==> ReadableText(aware, fields)
  {
    if fields != [] {
      var f, more := fields[0], fields[1..];
      assert fields == [f] + more;
      if IsText(f) && |f.value| > TextLimit(aware) {
        if aware {
          AwareMisreadsText(f, Print(more));
        } else {
          LongTextLosesStep(fields);
        }
      } else {
        ReadsBack(aware, more);
        ReadsField(aware, f, Print(more));
        assert ReadableText(aware, fields) <==> ReadableText(aware, more);
      }
    }
  }

  /** The whole payload of an invoice, for every printable invoice and both readers. */
  lemma PayloadReadsBack(data: TlvData, aware: bool)
    requires AllPrintable(Fields(data))
    ensures ReadAll(aware, Print(Fields(data))) == Some(Fields(data)) <==> ReadableText(aware, Fields(data))
  {
    TagsOfFields(data);
    ReadsBack(aware, Fields(data));
  }

  /** The fields of an invoice, tag by tag. */
  ghost predicate AreFieldsOf(r: seq<Field>, data: TlvData) {
    && |r| == (if data.certificateStamp.Some? then 9 else 8)
    && r[0] == Field(1, data.sellerName) && r[1] == Field(2, data.vatNumber)
    && r[2] == Field(3, data.timestamp) && r[3] == Field(4, data.totalWithVat)
    && r[4] == Field(5, data.vatAmount)
    && r[5] == Field(6, data.invoiceHash) && r[6] == Field(7, data.signature)
    && r[7] == Field(8, data.publicKey)
    && (data.certificateStamp.Some? ==> r[8] == Field(9, data.certificateStamp.value))
  }

  lemma FieldsByTag(data: TlvData)
    ensures AreFieldsOf(Fields(data), data)
  {
  }

  /** MAIN RESULT.  What a reader finds in a payload, tag by tag. */
  lemma ReaderFinds(data: TlvData, aware: bool)
    requires BinariesFit(data)
    requires forall text <- [data.sellerName, data.vatNumber, data.timestamp, data.totalWithVat, data.vatAmount] ::
               |text| <= if aware then 255 else 127
    ensures AllPrintable(Fields(data))
    ensures var r := ReadAll(aware, Print(Fields(data))); r.Some? && AreFieldsOf(r.value, data)
  {
    FitIsPrintable(data);
    TextsAreReadable(data, aware);
    PayloadReadsBack(data, aware);
    FieldsByTag(data);
  }

  lemma TextsAreReadable(data: TlvData, aware: bool)
    requires forall text <- [data.sellerName, data.vatNumber, data.timestamp, data.totalWithVat, data.vatAmount] ::
               |text| <= if aware then 255 else 127
    ensures ReadableText(aware, Fields(data))
  {
    var texts := [data.sellerName, data.vatNumber, data.timestamp, data.totalWithVat, data.vatAmount];
    assert texts[0] in texts && texts[1] in texts && texts[2] in texts && texts[3] in texts && texts[4] in texts;
  }

  /** Alone, a text whose length byte has wrapped can be reported as it was written: these 1666 bytes
      read as their own length and repeat themselves into the field that follows. */
  function WrappingText(): (v: Bytes)
    ensures |v| == 1666
  {
    seq(1666, i => if i % 2 == 0 then 6 else 130)
  }

  lemma WrappedTextIsReported(hash: Bytes)
    requires 127 < |hash| <= 65535
    ensures var f, rest := Field(1, WrappingText()), FieldBytes(Field(6, hash));
            ReadField(false, FieldBytes(f) + rest) == Some((f, rest[2..]))
  {
    var f, rest := Field(1, WrappingText()), FieldBytes(Field(6, hash));
    WrappingTextStarts();
    RepeatsItself(f.value, rest);
    LongTextRead(f, rest);
  }

  lemma WrappingTextStarts()
    ensures |WrappingText()| % 256 == 130 && BigEndian(WrappingText()[..2]) == |WrappingText()|
  {
    assert WrappingText()[..2] == [6, 130];
    BigEndianTwo(6, 130);
  }

  lemma LongTextRead(f: Field, rest: Bytes)
    requires IsText(f) && |f.value| > 1 && |f.value| % 256 == 130 && |rest| > 1
    requires BigEndian(f.value[..2]) == |f.value| && (f.value + rest)[2..2 + |f.value|] == f.value
    ensures ReadField(false, FieldBytes(f) + rest) == Some((f, rest[2..]))
  {
    var s := FieldBytes(f) + rest;
    assert |s| > 1 && s[0] == f.tag && s[1] == 130 && s[2..] == f.value + rest;
    assert ReadField(false, s) == Some((Field(s[0], f.value), rest[2..])) by {
      ReadsTwoByteLength(s, f.value, rest);
    }
  }

  lemma ReadsTwoByteLength(s: Bytes, v: Bytes, rest: Bytes)
    requires |s| > 1 && s[1] == 130 && s[2..] == v + rest && |v| > 1 && |rest| > 1
    requires BigEndian(v[..2]) == |v| && (v + rest)[2..2 + |v|] == v
    ensures ReadField(false, s) == Some((Field(s[0], v), rest[2..]))
  {
    SlicesBehindHeader(s, v, rest, 2);
    assert s[4 + |v|..] == s[2..][2 + |v|..] == rest[2..];
  }

  lemma RepeatsItself(v: Bytes, rest: Bytes)
    requires v == WrappingText() && |rest| > 1 && rest[0] == 6 && rest[1] == 130
    ensures (v + rest)[2..2 + |v|] == v
  {
  }

  /** Different invoices never share a payload, as long as their texts fit a length byte. */
  lemma PayloadDeterminesInvoice(a: TlvData, b: TlvData, x: seq<Field>, y: seq<Field>)
    requires x == Fields(a) && AllPrintable(x) && ReadableText(true, x)
    requires y == Fields(b) && AllPrintable(y) && ReadableText(true, y)
    requires Print(x) == Print(y)
    ensures a == b
  {
    assert x == y by {
      TagsOfFields(a);
      TagsOfFields(b);
      PrintDeterminesFields(x, y);
    }
    FieldsDetermineInvoice(a, b);
  }

  lemma TagsOfFields(d: TlvData)
    ensures forall f <- Fields(d) :: f.tag < 128
  {
  }

  lemma PrintDeterminesFields(x: seq<Field>, y: seq<Field>)
    requires AllPrintable(x) && ReadableText(true, x) && forall f <- x :: f.tag < 128
    requires AllPrintable(y) && ReadableText(true, y) && forall f <- y :: f.tag < 128
    requires Print(x) == Print(y)
    ensures x == y
  {
    ReadsBack(true, x);
    ReadsBack(true, y);
  }

  lemma FieldsDetermineInvoice(a: TlvData, b: TlvData)
    requires Fields(a) == Fields(b)
    ensures a == b
  {
    var x, y := Fields(a), Fields(b);
    assert x[0] == y[0] && x[1] == y[1] && x[2] == y[2] && x[3] == y[3] && x[4] == y[4];
    assert x[5] == y[5] && x[6] == y[6] && x[7] == y[7];
    assert |x| == |y|;
    if a.certificateStamp.Some? {
      assert x[8] == y[8];
    }
  }
}
