/**
  injectQrCode (zatca-crypto.service.ts) fills the empty QR reference of a document that has been
  hashed already.  Main results: exactly when does that leave the hashed text alone, and the whole
  stamping (signature block, then QR code) leaves it alone for a document of the builder's shape.
*/
module ZatcaQr {
  import opened Text
  import opened ZatcaHash
  import opened ZatcaEmbed
  import opened ZatcaSplice

  /** The pattern of injectQrCode: a QR reference, white space, the start of the attachment, the
      attributes up to a '>' (these are the first group), then the closing tag (the second). */
  datatype Pattern = Pattern(reference: Block, attach: string, close: string)

  const BINARY_NAME := "cbc:EmbeddedDocumentBinaryObject"
  const QR_SLOT := Pattern(QR_REFERENCE, "<cac:Attachment>" + ("<" + BINARY_NAME), CloseTag(BINARY_NAME))

  /** A match: the text before it, its first group, the attributes in it, and the text behind it. */
  datatype Slot = Slot(before: string, opening: string, attributes: string, after: string)

  function AfterAttach(p: Pattern, s: string): (r: Option<string>)
    requires p.reference.Spaced?
    ensures r.Some? ==> |r.value| <= |s|
  {
    match AfterOpen(p.reference, s)
    case None => None
    case Some(t) => if p.attach <= DropSpace(t) then Some(DropSpace(t)[|p.attach|..]) else None
  }

  /** A match at the start of s. */
  function SlotAt(p: Pattern, s: string): (r: Option<Slot>)
    requires p.reference.Spaced?
    ensures r.Some? ==> s == r.value.opening + r.value.after && p.close <= r.value.after && r.value.before == ""
  {
    match AfterAttach(p, s)
    case None => None
    case Some(t) =>
      match SplitAtGt(t)
      case None => None
      case Some(parts) =>
        var after := parts.1;
        if p.close <= after then
          SlotCovers(p, s);
          Some(Slot("", s[..|s| - |after|], parts.0, after))
        else None
  }

  lemma MarkersOfSlot()
    ensures QR_SLOT == Pattern(QR_REFERENCE, "<cac:Attachment>" + ("<" + "cbc:EmbeddedDocumentBinaryObject"),
                               "</" + "cbc:EmbeddedDocumentBinaryObject" + ">")
  {
  }

  lemma SlotCovers(p: Pattern, s: string)
    requires p.reference.Spaced? && AfterAttach(p, s).Some?
    ensures var t := AfterAttach(p, s).value;
            SuffixOf(p.attach + t, s) && (SplitAtGt(t).Some? ==> SuffixOf(SplitAtGt(t).value.1, s))
  {
    AfterOpenSuffix(p.reference, s);
    var u := AfterOpen(p.reference, s).value;
    DropSpaceSuffix(u);
    SuffixTransitive(DropSpace(u), u, s);
    var t := AfterAttach(p, s).value;
    assert DropSpace(u) == p.attach + t;
    SuffixTransitive(t, p.attach + t, s);
    if SplitAtGt(t).Some? {
      SuffixTransitive(SplitAtGt(t).value.1, t, s);
    }
  }

  /** The first match in s. */
  function FindSlot(p: Pattern, s: string): (r: Option<Slot>)
    requires p.reference.Spaced?
    ensures r.Some? ==> p.close <= r.value.after
  {
    var here := SlotAt(p, s);
    if here.Some? then here
    else if s == "" then None
    else match FindSlot(p, s[1..])
      case None => None
      case Some(m) => Some(m.(before := [s[0]] + m.before))
  }

  function Shift(z: string, m: Option<Slot>): Option<Slot> {
    match m
    case None => None
    case Some(m) => Some(m.(before := z + m.before))
  }

  lemma SlotFurtherOn(p: Pattern, s: string)
    requires p.reference.Spaced? && s != "" && SlotAt(p, s) == None
    ensures FindSlot(p, s) == Shift([s[0]], FindSlot(p, s[1..]))
  {
  }

  lemma TextBehind(z: string, s: string, m: Slot)
    requires s == (m.before + m.opening) + m.after
    ensures z + s == ((z + m.before) + m.opening) + m.after
  {
  }

  lemma {:induction false} SlotText(p: Pattern, s: string)
    requires p.reference.Spaced? && FindSlot(p, s).Some?
    ensures var m := FindSlot(p, s).value; s == (m.before + m.opening) + m.after
  {
    if SlotAt(p, s).Some? {
      var m := SlotAt(p, s).value;
      assert m.before + m.opening == m.opening;
    } else {
      SlotFurtherOn(p, s);
      SlotText(p, s[1..]);
      TextBehind([s[0]], s[1..], FindSlot(p, s[1..]).value);
      assert s == [s[0]] + s[1..];
    }
  }

  function FillSlot(p: Pattern, m: Slot, qr: string): string
    requires p.close <= m.after
  {
    var rest := m.after[|p.close|..];
    m.before + Expand("$1" + (qr + "$2"), Match(m.before, m.opening + p.close, rest, [m.opening, p.close])) + rest
  }

  function Inject(p: Pattern, xml: string, qr: string): string
    requires p.reference.Spaced?
  {
    match FindSlot(p, xml)
    case None => xml
    case Some(m) => FillSlot(p, m, qr)
  }

  function InjectQrCode(xml: string, qr: string): string {
    Inject(QR_SLOT, xml, qr)
  }

  lemma ExpandTwoCaptures(qr: string, m: Match)
    requires '$' !in qr && |m.captures| == 2
    ensures Expand("$1" + (qr + "$2"), m) == m.captures[0] + (qr + m.captures[1])
  {
    var t := "$1" + (qr + "$2");
    assert t[0] == '$' && t[1] == '1' && t[2..] == qr + "$2";
    assert t[2] == (qr + "$2")[0];
    assert Expand(t, m) == m.captures[0] + Expand(qr + "$2", m);
    ExpandPlain(qr, "$2", m);
    assert "$2"[2..] == "";
    assert Expand("$2", m) == m.captures[1] + "";
    assert m.captures[1] + "" == m.captures[1];
  }

  lemma PrefixSplit(p: string, s: string)
    requires p <= s
    ensures s == p + s[|p|..]
  {
  }

  lemma FilledText(p: Pattern, m: Slot, qr: string)
    requires p.close <= m.after && '$' !in qr
    ensures FillSlot(p, m, qr) == (m.before + m.opening) + (qr + m.after)
  {
    var rest := m.after[|p.close|..];
    PrefixSplit(p.close, m.after);
    ExpandTwoCaptures(qr, Match(m.before, m.opening + p.close, rest, [m.opening, p.close]));
    Reassociate(m.before, m.opening, qr, p.close, rest);
  }

  lemma Reassociate(a: string, b: string, c: string, d: string, e: string)
    ensures a + (b + (c + d)) + e == (a + b) + (c + (d + e))
  {
  }

  // ---------------------------------------------------------------- the three passes around a slot

  /** The tag that is filled.  Its attributes hold no '<', as XML demands (production 10 of XML 1.0). */
  function BinaryOpen(attributes: string): string {
    "<" + BINARY_NAME + (attributes + ">")
  }

  /** What the passes must not do to the tag that is filled and to its closing tag. */
  ghost predicate Harmless(b: Block, k: string) {
    && WellMarked(b)
    && Untouched(b, k)
    && Clear(b.head, QR_SLOT.close)
    && (forall r: string | QR_SLOT.close <= r :: CannotComplete(b, r))
    && (forall q: string, r: string | '<' !in q && QR_SLOT.close <= r :: CannotComplete(b, q + r))
  }

  /** A tag whose name starts with "cb", and the closing tag of the slot. */
  ghost predicate IsCbTag(s: string) {
    |s| > 2 && s[0] == '<' && s[1] == 'c' && s[2] == 'b' && '<' !in s[1..]
  }

  ghost predicate IsSlotClose(s: string) {
    |s| > 6 && s[0] == '<' && s[1] == '/' && s[2] == 'c' && s[3] == 'b' && s[6] == 'E' && '<' !in s[1..]
  }

  lemma BinaryNameShape()
    ensures BINARY_NAME[0] == 'c' && BINARY_NAME[1] == 'b' && BINARY_NAME[4] == 'E'
    ensures '<' !in BINARY_NAME
  {
  }

  lemma SlotCloseShape()
    ensures IsSlotClose(QR_SLOT.close)
  {
    BinaryNameShape();
    TagShape("/", BINARY_NAME, ">");
  }

  lemma BinaryTagShape(attributes: string)
    requires '<' !in attributes
    ensures IsCbTag(BinaryOpen(attributes)) && EndsInGt(BinaryOpen(attributes))
  {
    BinaryNameShape();
    TagShape("", BINARY_NAME, attributes + ">");
    assert "<" + "" + BINARY_NAME + (attributes + ">") == BinaryOpen(attributes);
  }

  lemma TagShape(lead: string, name: string, last: string)
    requires |lead| < 2 && |name| > 4 && '<' !in lead && '<' !in name && '<' !in last
    ensures var s := "<" + lead + name + last;
            s[0] == '<' && '<' !in s[1..] && s[1..1 + |lead|] == lead && s[1 + |lead|..1 + |lead| + |name|] == name
  {
    var s := "<" + lead + name + last;
    assert s[1..] == lead + name + last;
  }

  /** m cannot start in s: s has one '<', at its start, and goes on differently there. */
  lemma ClearOfTag(m: string, s: string, j: nat)
    requires m != "" && m[0] == '<' && s != "" && '<' !in s[1..]
    requires j < |m| && j < |s| && m[j] != s[j]
    ensures Clear(m, s)
  {
    forall i | 0 <= i < |s| ensures Mismatch(m, s[i..]) {
      if i == 0 {
        assert s[0..][j] == s[j];
      } else {
        assert s[i] == s[1..][i - 1];
        assert s[i..][0] == s[i];
      }
    }
  }

  /** Nothing that is missing from the second marker of the QR pattern can be made of a text
      without '<' and the closing tag of the slot. */
  lemma QrCannotComplete(q: string, r: string)
    requires '<' !in q && QR_SLOT.close <= r
    ensures CannotComplete(QR_REFERENCE, q + r)
  {
    SlotCloseShape();
    DropSpaceOfText(q, r);
    QrTailShape();
    forall k | 0 < k < |QR_REFERENCE.tail| && QR_REFERENCE.tail[k - 1] == '>'
     ensures !(QR_REFERENCE.tail[k..] <= q + r) {
      QrTailBehindGt(k);
      EmbeddedTagDiffers(q, r);
    }
  }

  lemma QrTailShape()
    ensures |QR_REFERENCE.tail| > 1 && QR_REFERENCE.tail[0] == '<' && QR_REFERENCE.tail[1] == 'c'
  {
  }

  lemma QrTailBehindGt(k: int)
    requires 0 < k < |QR_REFERENCE.tail| && QR_REFERENCE.tail[k - 1] == '>'
    ensures QR_REFERENCE.tail[k..] == "QR</cbc:ID>"
  {
    assert QR_REFERENCE.tail == "<cbc:ID>" + "QR</cbc:ID>";
    assert k == 8;
  }

  lemma DropSpaceOfText(q: string, r: string)
    requires '<' !in q && |r| > 1 && r[0] == '<' && r[1] == '/'
    ensures var s := DropSpace(q + r); |s| > 1 && (s[0] != '<' || s[1] == '/')
  {
    if q == "" {
      assert q + r == r;
    } else {
      assert (q + r)[1..] == q[1..] + r;
      if IsSpace(q[0]) {
        DropSpaceOfText(q[1..], r);
      }
    }
  }

  lemma EmbeddedTagDiffers(q: string, r: string)
    requires '<' !in q && QR_SLOT.close <= r
    ensures !("QR</cbc:ID>" <= q + r)
  {
    SlotCloseShape();
    NotBehindText("QR</cbc:ID>", q, r);
  }

  lemma NotBehindText(m: string, q: string, r: string)
    requires |m| > 8 && m[0] != '<' && m[1] != '<' && m[2] == '<' && m[8] != 'E'
    requires '<' !in q && |r| > 6 && r[0] == '<' && r[6] == 'E'
    ensures !(m <= q + r)
  {
    var s := q + r;
    if |q| < 2 {
      assert s[|q|] == '<';
    } else if |q| == 2 {
      assert s[8] == r[6];
    } else {
      assert s[2] == q[2];
    }
  }

  lemma PassesAreHarmless(attributes: string)
    requires '<' !in attributes
    ensures Harmless(EXTENSIONS, BinaryOpen(attributes))
    ensures Harmless(QR_REFERENCE, BinaryOpen(attributes))
    ensures Harmless(SIGNATURE, BinaryOpen(attributes))
  {
    var k := BinaryOpen(attributes);
    ExtensionsWellMarked();
    QrReferenceWellMarked();
    SignatureWellMarked();
    BinaryTagShape(attributes);
    NamesDiffer();
    HarmlessByNames(EXTENSIONS, k);
    HarmlessByNames(SIGNATURE, k);
    QrNeverCompletes();
    HarmlessByNames(QR_REFERENCE, k);
  }

  lemma QrNeverCompletes()
    ensures forall q: string, r: string | '<' !in q && QR_SLOT.close <= r :: CannotComplete(QR_REFERENCE, q + r)
  {
    forall q: string, r: string | '<' !in q && QR_SLOT.close <= r
      ensures CannotComplete(QR_REFERENCE, q + r)
    {
      QrCannotComplete(q, r);
    }
  }

  /** The names of the two markers of a block: an opening "<e..." or "<ca...", a closing "</...". */
  ghost predicate OtherNames(b: Block) {
    && |b.head| > 2 && b.head[1] != '/' && (b.head[1] != 'c' || b.head[2] != 'b')
    && |b.close| > 1 && b.close[1] == '/'
  }

  lemma NamesDiffer()
    ensures OtherNames(EXTENSIONS) && OtherNames(QR_REFERENCE) && OtherNames(SIGNATURE)
  {
    NameDiffers(EXTENSIONS, EXTENSIONS_NAME, "");
    NameDiffers(QR_REFERENCE, REFERENCE_NAME, ">");
    NameDiffers(SIGNATURE, SIGNATURE_NAME, ">");
  }

  lemma NameDiffers(b: Block, name: string, last: string)
    requires b.head == "<" + name + last && b.close == "</" + name + ">"
    requires |name| > 1 && name[0] != '/' && (name[0] != 'c' || name[1] != 'b')
    ensures OtherNames(b)
  {
    assert b.head[1] == name[0] && b.head[2] == name[1];
  }

  lemma HarmlessByNames(b: Block, k: string)
    requires WellMarked(b) && OtherNames(b)
    requires EndsInGt(k) && IsCbTag(k)
    requires forall q: string, r: string | '<' !in q && QR_SLOT.close <= r :: CannotComplete(b, q + r)
    ensures Harmless(b, k)
  {
    var c := QR_SLOT.close;
    SlotCloseShape();
    ClearOfTag(b.head, k, if b.head[1] == 'c' then 2 else 1);
    ClearOfTag(b.close, k, 1);
    ClearOfTag(b.head, c, 1);
    forall r: string | c <= r ensures CannotComplete(b, r) {
      assert CannotComplete(b, "" + r);
      assert "" + r == r;
    }
  }

  /** The document around the point that is filled: l ends in the tag k, r starts with its closing
      tag. */
  ghost predicate Around(l: string, k: string, r: string) {
    SuffixOf(k, l) && EndsInGt(k) && k[0] == '<' && EndsInGt(l) && QR_SLOT.close <= r
  }

  lemma SlotCloseStays(b: Block, r: string)
    requires b.head != "" && Clear(b.head, QR_SLOT.close) && QR_SLOT.close <= r
    ensures QR_SLOT.close <= Remove(b, r)
  {
    PrefixSplit(QR_SLOT.close, r);
    RemoveSkips(b, QR_SLOT.close, r[|QR_SLOT.close|..]);
  }

  lemma AroundStays(b: Block, l: string, k: string, r: string)
    requires Harmless(b, k) && Around(l, k, r) && !Covered(b, l, r)
    ensures Around(CutAt(b, l, r).value, k, Remove(b, r))
  {
    CutKeeps(b, l, k, r);
    SlotCloseStays(b, r);
  }

  /** One pass: covered, or the same situation again. */
  lemma PassAround(b: Block, l: string, k: string, q: string, r: string)
    requires Harmless(b, k) && Around(l, k, r) && '<' !in q
    ensures Covered(b, l, r) ==> Remove(b, l + (q + r)) == Remove(b, l + r)
    ensures !Covered(b, l, r) ==>
              var l', r' := CutAt(b, l, r).value, Remove(b, r);
              Around(l', k, r') && Remove(b, l + r) == l' + r' && Remove(b, l + (q + r)) == l' + (q + r')
  {
    assert Commutes(b, l, q, r) by {
      InsertThenRemove(b, l, q, r);
    }
    if !Covered(b, l, r) {
      AroundStays(b, l, k, r);
      CutSound(b, l, r);
    }
  }

  /** Is the point between l and r inside a block that one of the passes deletes? */
  predicate DeletedByPasses(passes: seq<Block>, l: string, r: string)
    requires forall b <- passes :: b.head != ""
  {
    passes != [] &&
    match CutAt(passes[0], l, r)
    case None => true
    case Some(l') => DeletedByPasses(passes[1..], l', Remove(passes[0], r))
  }

  function RemoveAll(passes: seq<Block>, s: string): string
    requires forall b <- passes :: b.head != ""
  {
    if passes == [] then s else RemoveAll(passes[1..], Remove(passes[0], s))
  }

  lemma {:induction false} PassesAround(passes: seq<Block>, l: string, k: string, q: string, r: string)
     returns (l': string, r': string)
    requires forall b <- passes :: Harmless(b, k) && b.head != ""
    requires Around(l, k, r) && '<' !in q
    ensures DeletedByPasses(passes, l, r) ==> RemoveAll(passes, l + (q + r)) == RemoveAll(passes, l + r)
    ensures !DeletedByPasses(passes, l, r) ==>
              && Around(l', k, r')
              && RemoveAll(passes, l + r) == l' + r' && RemoveAll(passes, l + (q + r)) == l' + (q + r')
  {
    l', r' := l, r;
    if passes != [] {
      var b := passes[0];
      PassAround(b, l, k, q, r);
      if !Covered(b, l, r) {
        l', r' := PassesAround(passes[1..], CutAt(b, l, r).value, k, q, Remove(b, r));
      }
    }
  }

  const PASSES := [EXTENSIONS, QR_REFERENCE, SIGNATURE]

  lemma RemoveThree(a: Block, b: Block, c: Block, s: string)
    requires a.head != "" && b.head != "" && c.head != ""
    ensures RemoveAll([a, b, c], s) == Remove(c, Remove(b, Remove(a, s)))
  {
    assert [a, b, c][1..] == [b, c] && [b, c][1..] == [c] && [c][1..] == [];
    assert RemoveAll([c], Remove(b, Remove(a, s))) == Remove(c, Remove(b, Remove(a, s)));
    assert RemoveAll([b, c], Remove(a, s)) == RemoveAll([c], Remove(b, Remove(a, s)));
  }

  lemma StripIsRemoveAll(s: string)
    ensures Strip(s) == RemoveAll(PASSES, s)
  {
    RemoveThree(EXTENSIONS, QR_REFERENCE, SIGNATURE, s);
  }

  /** A caller's check on the document before it is filled. */
  predicate PointIsDeleted(l: string, r: string) {
    DeletedByPasses(PASSES, l, r)
  }

  /** The first group of a match ends in the tag that is filled. */
  lemma SlotEndsInTag(p: Pattern, s: string)
    requires p.reference.Spaced? && SlotAt(p, s).Some?
    ensures var m := SlotAt(p, s).value;
            SuffixOf(p.attach + (m.attributes + ">"), m.opening)
  {
    var m := SlotAt(p, s).value;
    SlotCovers(p, s);
    TagInParts(p.attach, m.attributes, AfterAttach(p, s).value, m.opening, m.after);
  }

  lemma TagInParts(attach: string, attributes: string, t: string, opening: string, after: string)
    requires t == attributes + ">" + after && SuffixOf(attach + t, opening + after)
    ensures SuffixOf(attach + (attributes + ">"), opening)
  {
    assert attach + t == (attach + (attributes + ">")) + after;
    SuffixBefore(attach + (attributes + ">"), opening, after);
  }

  lemma SuffixBefore(x: string, o: string, z: string)
    requires SuffixOf(x + z, o + z)
    ensures SuffixOf(x, o)
  {
    assert (o + z)[|o| - |x|..][..|x|] == o[|o| - |x|..];
    assert (x + z)[..|x|] == x;
  }

  lemma {:induction false} FoundSlotEndsInTag(p: Pattern, s: string)
    requires p.reference.Spaced? && FindSlot(p, s).Some?
    ensures var m := FindSlot(p, s).value;
            SuffixOf(p.attach + (m.attributes + ">"), m.opening)
  {
    if SlotAt(p, s).Some? {
      SlotEndsInTag(p, s);
    } else {
      FoundSlotEndsInTag(p, s[1..]);
    }
  }

  lemma SlotIsAround(xml: string, m: Slot)
    requires FindSlot(QR_SLOT, xml) == Some(m) && '<' !in m.attributes
    ensures Around(m.before + m.opening, BinaryOpen(m.attributes), m.after)
  {
    FoundSlotEndsInTag(QR_SLOT, xml);
    TagEndsOpening(m.before, m.opening, m.attributes);
    BinaryTagShape(m.attributes);
  }

  lemma TagEndsOpening(before: string, opening: string, attributes: string)
    requires SuffixOf(QR_SLOT.attach + (attributes + ">"), opening)
    ensures SuffixOf(BinaryOpen(attributes), before + opening) && EndsInGt(before + opening)
  {
    var k, a := BinaryOpen(attributes), QR_SLOT.attach + (attributes + ">");
    assert a == "<cac:Attachment>" + k;
    SuffixTransitive(k, a, opening);
    SuffixTransitive(k, opening, before + opening);
    assert k[|k| - 1] == '>';
  }

  /** MAIN RESULT.  Filling the QR slot with a text leaves the hashed text alone if and only if the
      text is empty or the slot lies in a block that the passes delete. */
  lemma InjectPreservesHash(xml: string, qr: string, m: Slot)
    requires FindSlot(QR_SLOT, xml) == Some(m) && '<' !in m.attributes
    requires '<' !in qr && '$' !in qr
    ensures HashInput(InjectQrCode(xml, qr)) == HashInput(xml) <==>
            qr == "" || PointIsDeleted(m.before + m.opening, m.after)
    ensures |HashInput(InjectQrCode(xml, qr))| >= |HashInput(xml)|
    ensures |HashInput(InjectQrCode(xml, qr))| == |HashInput(xml)| ==>
            qr == "" || PointIsDeleted(m.before + m.opening, m.after)
  {
    InjectedText(QR_SLOT, xml, qr, m);
    SlotIsAround(xml, m);
    AllPassesAreHarmless(m.attributes);
    InsertionInHash(m.before + m.opening, BinaryOpen(m.attributes), qr, m.after);
  }

  lemma InjectedText(p: Pattern, xml: string, qr: string, m: Slot)
    requires p.reference.Spaced? && FindSlot(p, xml) == Some(m) && '$' !in qr
    ensures xml == (m.before + m.opening) + m.after
    ensures Inject(p, xml, qr) == (m.before + m.opening) + (qr + m.after)
  {
    SlotText(p, xml);
    assert Inject(p, xml, qr) == FillSlot(p, m, qr);
    FilledText(p, m, qr);
  }

  /** A document without an empty slot is left as it is. */
  lemma NothingToInject(xml: string, qr: string)
    requires FindSlot(QR_SLOT, xml) == None
    ensures InjectQrCode(xml, qr) == xml
  {
  }

  lemma AllPassesAreHarmless(attributes: string)
    requires '<' !in attributes
    ensures forall b <- PASSES :: Harmless(b, BinaryOpen(attributes))
  {
    PassesAreHarmless(attributes);
  }

  lemma InsertionInHash(l: string, k: string, q: string, r: string)
    requires forall b <- PASSES :: Harmless(b, k)
    requires Around(l, k, r) && '<' !in q
    ensures if q == "" || PointIsDeleted(l, r)
            then HashInput(l + (q + r)) == HashInput(l + r)
            else |HashInput(l + (q + r))| > |HashInput(l + r)|
  {
    if q == "" {
      assert l + (q + r) == l + r;
    } else {
      var l3, r3 := PassesAround(PASSES, l, k, q, r);
      StripIsRemoveAll(l + r);
      StripIsRemoveAll(l + (q + r));
      if !PointIsDeleted(l, r) {
        SlotCloseShape();
        NormalizeInsertion(l3, q, r3);
      }
    }
  }

  // ---------------------------------------------------------------- documents of the builder's shape

  /** The tag at position i has a name that starts with 'c', or closes one that starts with "cb". */
  ghost predicate PlainTagAt(s: string, i: nat) {
    i + 3 < |s| && (s[i + 1] == 'c' || (s[i + 1] == '/' && s[i + 2] == 'c' && s[i + 3] == 'b'))
  }

  /** All tags that start before the last z characters of s are of that kind. */
  ghost predicate PlainTags(s: string, z: nat) {
    forall i :: 0 <= i < |s| - z && s[i] == '<' ==> i + 3 < |s| - z && PlainTagAt(s, i)
  }

  lemma PlainTagsConcat(x: string, y: string, z: nat)
    requires PlainTags(x, 0) && PlainTags(y, z) && z <= |y|
    ensures PlainTags(x + y, z)
  {
    var s := x + y;
    forall i | 0 <= i < |s| - z && s[i] == '<'
      ensures i + 3 < |s| - z && PlainTagAt(s, i)
    {
      if i < |x| {
        assert PlainTagAt(x, i);
        assert s[i + 1] == x[i + 1] && s[i + 2] == x[i + 2] && s[i + 3] == x[i + 3];
      } else {
        var j := i - |x|;
        assert y[j] == '<' && PlainTagAt(y, j);
        assert s[i + 1] == y[j + 1] && s[i + 2] == y[j + 2] && s[i + 3] == y[j + 3];
      }
    }
  }

  lemma {:induction false} PlainTagsBehindSpace(s: string, z: nat)
    requires PlainTags(DropSpace(s), z) && z <= |DropSpace(s)|
    ensures PlainTags(s, z)
  {
    if s != "" && IsSpace(s[0]) {
      PlainTagsBehindSpace(s[1..], z);
      PlainTagsConcat([s[0]], s[1..], z);
      assert s == [s[0]] + s[1..];
    }
  }

  lemma TagHasPlainName(name: string, last: string)
    requires '<' !in name && '<' !in last && |name| > 2 && name[0] == 'c'
    ensures PlainTags("<" + name + last, 0)
  {
    var s := "<" + name + last;
    assert s[1..] == name + last;
    assert forall i :: 1 <= i < |s| ==> s[i] == s[1..][i - 1];
    assert PlainTagAt(s, 0);
  }

  lemma PatternHasPlainTags()
    ensures PlainTags(QR_REFERENCE.head, 0) && PlainTags(QR_REFERENCE.tail, 0) && PlainTags(QR_SLOT.attach, 0)
  {
    ReferenceNameIsPlain();
    TagHasPlainName(REFERENCE_NAME, ">");
    BinaryNameShape();
    TagHasPlainName(BINARY_NAME, "");
    assert "<" + BINARY_NAME + "" == "<" + BINARY_NAME;
    PlainTagsConcat("<cac:Attachment>", "<" + BINARY_NAME, 0);
  }

  lemma SlotHasPlainTags(s: string)
    requires SlotAt(QR_SLOT, s).Some? && '<' !in SlotAt(QR_SLOT, s).value.attributes
    ensures PlainTags(s, |SlotAt(QR_SLOT, s).value.after|)
  {
    var m := SlotAt(QR_SLOT, s).value;
    var s1 := s[|QR_REFERENCE.head|..];
    var s3 := AfterOpen(QR_REFERENCE, s).value;
    var t := AfterAttach(QR_SLOT, s).value;
    var z := |m.after|;
    PatternHasPlainTags();
    assert PlainTags(t, z) by {
      assert t == m.attributes + ">" + m.after;
      assert forall i :: 0 <= i < |t| - z ==> t[i] == (m.attributes + ">")[i];
    }
    PrefixSplit(QR_SLOT.attach, DropSpace(s3));
    PlainTagsConcat(QR_SLOT.attach, t, z);
    PlainTagsBehindSpace(s3, z);
    PrefixSplit(QR_REFERENCE.tail, DropSpace(s1));
    PlainTagsConcat(QR_REFERENCE.tail, s3, z);
    PlainTagsBehindSpace(s1, z);
    PrefixSplit(QR_REFERENCE.head, s);
    PlainTagsConcat(QR_REFERENCE.head, s1, z);
  }

  /** A marker that differs from every such tag cannot start there. */
  lemma ClearOfPlainTags(m: string, s: string)
    requires PlainTags(s, 0) && |m| > 3 && m[0] == '<'
    requires m[1] != 'c' && !(m[1] == '/' && m[2] == 'c' && m[3] == 'b')
    ensures Clear(m, s)
  {
    forall i | 0 <= i < |s| ensures Mismatch(m, s[i..]) {
      if s[i] == '<' {
        assert PlainTagAt(s, i);
        assert s[i..][1] == s[i + 1] && s[i..][2] == s[i + 2] && s[i..][3] == s[i + 3];
        assert m[1] != s[i..][1] || m[2] != s[i..][2] || m[3] != s[i..][3];
      } else {
        assert s[i..][0] == s[i];
      }
    }
  }

  ghost predicate IsOpening(o: string) {
    && o != "" && o[0] == '<' && EndsInGt(o)
    && Untouched(EXTENSIONS, o) && Clear(QR_REFERENCE.close, o)
    && AfterOpen(QR_REFERENCE, o).Some?
  }

  lemma OpeningIsClear(o: string)
    requires PlainTags(o, 0)
    ensures Untouched(EXTENSIONS, o) && Clear(QR_REFERENCE.close, o)
  {
    NamesBegin();
    ClearOfPlainTags(EXTENSIONS.head, o);
    ClearOfPlainTags(EXTENSIONS.close, o);
    ClearOfPlainTags(QR_REFERENCE.close, o);
  }

  lemma OpeningOpens(o: string, after: string)
    requires EndsInGt(o) && QR_SLOT.close <= after && AfterOpen(QR_REFERENCE, o + after).Some?
    ensures o[0] == '<' && AfterOpen(QR_REFERENCE, o).Some?
  {
    QrReferenceWellMarked();
    QrCannotComplete("", after);
    assert "" + after == after;
    OpenWithin(QR_REFERENCE, o, after);
  }

  /** Neither an extension block nor the end of a reference starts in the first group of a match. */
  lemma OpeningOfSlot(s: string)
    requires SlotAt(QR_SLOT, s).Some? && '<' !in SlotAt(QR_SLOT, s).value.attributes
    ensures IsOpening(SlotAt(QR_SLOT, s).value.opening)
  {
    var m := SlotAt(QR_SLOT, s).value;
    SlotHasPlainTags(s);
    PlainTagsOfPrefix(m.opening, m.after);
    OpeningIsClear(m.opening);
    SlotEndsInTag(QR_SLOT, s);
    TagEndsOpening("", m.opening, m.attributes);
    assert "" + m.opening == m.opening;
    OpeningOpens(m.opening, m.after);
  }

  lemma PlainTagsOfPrefix(o: string, after: string)
    requires PlainTags(o + after, |after|)
    ensures PlainTags(o, 0)
  {
    var s := o + after;
    forall i | 0 <= i < |o| && o[i] == '<' ensures i + 3 < |o| && PlainTagAt(o, i) {
      assert s[i] == '<' && PlainTagAt(s, i);
      assert i + 3 < |o| ==> s[i + 1] == o[i + 1] && s[i + 2] == o[i + 2] && s[i + 3] == o[i + 3];
    }
  }

  lemma NamesBegin()
    ensures EXTENSIONS.head[..2] == "<e" && EXTENSIONS.close[..3] == "</e" && QR_REFERENCE.close[..4] == "</ca"
    ensures |EXTENSIONS.head| > 3 && |EXTENSIONS.close| > 3
  {
    assert EXTENSIONS_NAME[0] == 'e' && REFERENCE_NAME[0] == 'c' && REFERENCE_NAME[1] == 'a';
  }

  lemma {:induction false} OpeningOfFoundSlot(s: string)
    requires FindSlot(QR_SLOT, s).Some? && '<' !in FindSlot(QR_SLOT, s).value.attributes
    ensures IsOpening(FindSlot(QR_SLOT, s).value.opening)
  {
    if SlotAt(QR_SLOT, s).Some? {
      OpeningOfSlot(s);
    } else {
      OpeningOfFoundSlot(s[1..]);
    }
  }

  lemma {:induction false} CloseIsFound(close: string, s: string)
    requires Contains(close, s)
    ensures AfterClose(close, s).Some?
  {
    if !(close <= s) {
      CloseIsFound(close, s[1..]);
    }
  }

  lemma {:induction false} RemoveWithoutHead(b: Block, s: string)
    requires b.head != "" && !Contains(b.head, s)
    ensures Remove(b, s) == s
  {
    if s != "" {
      RemoveWithoutHead(b, s[1..]);
    }
  }

  /** What the invoice builder guarantees about the text behind the slot: the reference is closed
      there, and no extension block opens there. */
  predicate ClosedReference(after: string) {
    Contains(QR_REFERENCE.close, after) && !Contains(EXTENSIONS.head, after)
  }

  lemma OpeningIsDeleted(l: string, o: string, after: string)
    requires IsOpening(o) && SuffixOf(o, l)
    requires QR_SLOT.close <= after && ClosedReference(after)
    ensures PointIsDeleted(l, after)
  {
    ExtensionsWellMarked();
    QrReferenceWellMarked();
    CutKeeps(EXTENSIONS, l, o, after);
    RemoveWithoutHead(EXTENSIONS, after);
    match CutAt(EXTENSIONS, l, after)
    case None =>
    case Some(l1) =>
      QrCannotComplete("", after);
      assert "" + after == after;
      CloseIsFound(QR_REFERENCE.close, after);
      CutAtOpening(QR_REFERENCE, o, after);
      CutStaysCovered(QR_REFERENCE, l1, o, after);
      assert PASSES[1..][0] == QR_REFERENCE;
  }

  lemma InjectIntoClosedReference(xml: string, qr: string, m: Slot)
    requires FindSlot(QR_SLOT, xml) == Some(m) && '<' !in m.attributes && ClosedReference(m.after)
    requires '<' !in qr && '$' !in qr
    ensures HashInput(InjectQrCode(xml, qr)) == HashInput(xml)
  {
    OpeningOfFoundSlot(xml);
    OpeningIsDeleted(m.before + m.opening, m.opening, m.after);
    InjectPreservesHash(xml, qr, m);
  }

  lemma ShiftTwice(y: string, z: string, m: Option<Slot>)
    ensures Shift(y, Shift(z, m)) == Shift(y + z, m)
    ensures Shift("", m) == m
  {
    if m.Some? {
      assert y + (z + m.value.before) == y + z + m.value.before;
      assert "" + m.value.before == m.value.before;
    }
  }

  lemma {:induction false} SlotSkips(p: Pattern, z: string, s: string)
    requires p.reference.Spaced? && Clear(p.reference.head, z)
    ensures FindSlot(p, z + s) == Shift(z, FindSlot(p, s))
  {
    if z == "" {
      assert z + s == s;
    } else {
      assert z[0..] == z && z == [z[0]] + z[1..];
      MismatchExtends(p.reference.head, z, s);
      ClearTail(p.reference.head, z, 1);
      assert (z + s)[1..] == z[1..] + s;
      SlotFurtherOn(p, z + s);
      SlotSkips(p, z[1..], s);
    }
    ShiftTwice(if z == "" then "" else [z[0]], if z == "" then "" else z[1..], FindSlot(p, s));
  }

  /** The signature block ends in '>' and mentions no document reference element. */
  lemma BlockIsClearOfReference(pieces: seq<Piece>)
    requires !Contains(QR_REFERENCE.head, SignatureBlock(pieces))
    ensures Clear(QR_REFERENCE.head, "\n" + SignatureBlock(pieces))
  {
    QrReferenceWellMarked();
    assert EndsInGt(SignatureBlock(pieces));
    ClearFromAbsence(QR_REFERENCE.head, SignatureBlock(pieces));
    ClearWithout(QR_REFERENCE.head, "\n");
    ClearConcat(QR_REFERENCE.head, "\n", SignatureBlock(pieces));
  }

  lemma SlotSkipsTwo(p: Pattern, x: string, z: string, s: string)
    requires p.reference.Spaced? && Clear(p.reference.head, x) && Clear(p.reference.head, z)
    ensures FindSlot(p, x + (z + s)) == Shift(x, Shift(z, FindSlot(p, s)))
  {
    SlotSkips(p, x, z + s);
    SlotSkips(p, z, s);
  }

  /** The slot of the embedded document is the slot of the original one: both are the slot behind the
      root tag. */
  lemma SlotAfterEmbedding(xml: string, block: string, r: Root) returns (n: Option<Slot>)
    requires FindRoot(xml) == Some(r) && MentionsNoBlock(r.UpTo()) && '$' !in block
    requires Clear(QR_REFERENCE.head, "\n" + block)
    ensures FindSlot(QR_SLOT, xml) == Shift(r.UpTo(), n)
    ensures FindSlot(QR_SLOT, EmbedBlock(xml, block)) == Shift(r.UpTo(), Shift("\n" + block, n))
  {
    n := FindSlot(QR_SLOT, r.after);
    RootText(xml);
    QuietUpToTag(r.UpTo());
    EmbeddedText(xml, block, r);
    assert r.UpTo() + ("\n" + block + r.after) == r.UpTo() + (("\n" + block) + r.after);
    SlotSkips(QR_SLOT, r.UpTo(), r.after);
    SlotSkipsTwo(QR_SLOT, r.UpTo(), "\n" + block, r.after);
  }

  // ---------------------------------------------------------------- the stamped invoice

  /** Text in which no block opens, in front of the document, does not change whether a point is deleted. */
  lemma {:induction false} DeletedBehind(passes: seq<Block>, k: string, l: string, r: string)
    requires forall b <- passes :: b.head != "" && Clear(b.head, k)
    ensures DeletedByPasses(passes, k + l, r) <==> DeletedByPasses(passes, l, r)
  {
    if passes != [] {
      var b := passes[0];
      CutPrefix(b, k, l, r);
      if CutAt(b, l, r).Some? {
        DeletedBehind(passes[1..], k, CutAt(b, l, r).value, Remove(b, r));
      }
    }
  }

  lemma CutBehindWholeBlock(b: Block, inner: string, l: string, r: string)
    requires b.Literal? && b.head != "" && Clear(b.close, inner)
    ensures CutAt(b, b.head + (inner + (b.close + l)), r) == CutAt(b, l, r)
  {
    var block := b.head + (inner + (b.close + l));
    assert AfterBlock(b, block + r) == Some(l + r) by {
      assert block + r == b.head + (inner + (b.close + (l + r)));
      assert (block + r)[|b.head|..] == inner + (b.close + (l + r));
      CloseFoundAfter(b.close, inner, b.close + (l + r));
    }
    CutBehindBlock(b, block, l, r);
  }

  /** Neither does a block of the first pass behind such text. */
  lemma DeletedBehindBlock(passes: seq<Block>, p: string, gap: string, inner: string, l: string, r: string)
    requires passes != [] && passes[0].Literal? && Clear(passes[0].close, inner)
    requires forall b <- passes :: b.head != "" && Clear(b.head, p) && Clear(b.head, gap)
    ensures var a := passes[0];
            DeletedByPasses(passes, p + (gap + (a.head + (inner + (a.close + l)))), r) <==>
            DeletedByPasses(passes, l, r)
  {
    var a, rest := passes[0], passes[1..];
    var block := a.head + (inner + (a.close + l));
    CutPrefix(a, p, gap + block, r);
    CutPrefix(a, gap, block, r);
    CutBehindWholeBlock(a, inner, l, r);
    if CutAt(a, l, r).Some? {
      var l' := CutAt(a, l, r).value;
      DeletedBehind(rest, p, gap + l', Remove(a, r));
      DeletedBehind(rest, gap, l', Remove(a, r));
    }
  }

  lemma QuietForPasses(k: string)
    requires Quiet(k)
    ensures forall b <- PASSES :: b.head != "" && Clear(b.head, k)
  {
  }

  /** Embedding the signature does not change whether the point of the slot is deleted. */
  lemma PointAfterEmbedding(p: string, pieces: seq<Piece>, l: string, r: string)
    requires Quiet(p) && ProperPieces(pieces)
    ensures PointIsDeleted(p + ("\n" + SignatureBlock(pieces) + l), r) <==> PointIsDeleted(p + l, r)
  {
    QuietWithout("\n  ");
    QuietForPasses(p);
    QuietForPasses("\n  ");
    InnerIsClear(pieces);
    BlockShape(EXTENSIONS.head, Body(pieces), EXTENSIONS.close, l);
    DeletedBehindBlock(PASSES, p, "\n  ", ">\n" + Body(pieces) + "\n  ", l, r);
    DeletedBehind(PASSES, p, l, r);
  }

  lemma ShiftedPoint(p: string, z: string, n: Slot)
    ensures var m, f := Shift(p, Some(n)).value, Shift(p, Shift(z, Some(n))).value;
            && m.before + m.opening == p + (n.before + n.opening)
            && f.before + f.opening == p + (z + (n.before + n.opening))
            && f.attributes == m.attributes && f.after == m.after
  {
  }

  /** The slot f of the signed invoice, against the slot m of the invoice that was signed. */
  lemma SlotOfSigned(xml: string, pieces: seq<Piece>, r: Root, m: Slot) returns (f: Slot)
    requires FindRoot(xml) == Some(r) && MentionsNoBlock(r.UpTo()) && FindSlot(QR_SLOT, xml) == Some(m)
    requires ProperPieces(pieces) && !Contains(QR_REFERENCE.head, SignatureBlock(pieces))
    ensures FindSlot(QR_SLOT, EmbedSignature(xml, pieces)) == Some(f)
    ensures f.attributes == m.attributes && f.after == m.after
    ensures PointIsDeleted(f.before + f.opening, f.after) <==> PointIsDeleted(m.before + m.opening, m.after)
  {
    var p, z := r.UpTo(), "\n" + SignatureBlock(pieces);
    BlockIsClearOfReference(pieces);
    BlockHasNoDollar(pieces);
    var n := SlotAfterEmbedding(xml, SignatureBlock(pieces), r);
    f := Shift(p, Shift(z, n)).value;
    ShiftedPoint(p, z, n.value);
    assert Quiet(p) by {
      RootText(xml);
      QuietUpToTag(p);
    }
    PointAfterEmbedding(p, pieces, n.value.before + n.value.opening, m.after);
  }

  /** MAIN RESULT.  The stamped invoice, signature block and QR code in place, is hashed like the
      invoice that was signed if and only if the root tag's line has nothing visible behind the tag once
      the blocks are gone, and the QR slot lies in a block that the passes delete (or the QR code is
      empty): one change never makes up for the other. */
  lemma StampPreservesHash(xml: string, pieces: seq<Piece>, qr: string, r: Root, m: Slot)
    requires FindRoot(xml) == Some(r) && MentionsNoBlock(r.UpTo())
    requires ProperPieces(pieces) && !Contains(QR_REFERENCE.head, SignatureBlock(pieces))
    requires FindSlot(QR_SLOT, xml) == Some(m) && '<' !in m.attributes
    requires '<' !in qr && '$' !in qr
    ensures HashInput(InjectQrCode(EmbedSignature(xml, pieces), qr)) == HashInput(xml) <==>
            BlankFirstLine(Strip(r.after)) && (qr == "" || PointIsDeleted(m.before + m.opening, m.after))
  {
    var f := SlotOfSigned(xml, pieces, r, m);
    InjectPreservesHash(EmbedSignature(xml, pieces), qr, f);
    EmbedPreservesHash(xml, pieces, r);
  }

  /** So it is for every invoice with a line break behind the root tag and a closed QR reference. */
  lemma StampOfClosedReference(xml: string, pieces: seq<Piece>, qr: string, r: Root, rest: string, m: Slot)
    requires FindRoot(xml) == Some(r) && MentionsNoBlock(r.UpTo()) && r.after == "\n" + rest
    requires ProperPieces(pieces) && !Contains(QR_REFERENCE.head, SignatureBlock(pieces))
    requires FindSlot(QR_SLOT, xml) == Some(m) && '<' !in m.attributes && ClosedReference(m.after)
    requires '<' !in qr && '$' !in qr
    ensures HashInput(InjectQrCode(EmbedSignature(xml, pieces), qr)) == HashInput(xml)
  {
    BreakIsBlank(rest);
    OpeningOfFoundSlot(xml);
    SlotText(QR_SLOT, xml);
    OpeningIsDeleted(m.before + m.opening, m.opening, m.after);
    StampPreservesHash(xml, pieces, qr, r, m);
  }
}
