/**
  Documents as the invoice builder lays them out (zatca-xml.builder.ts): a prolog, the root tag and a
  line break, references with other identifiers, the empty QR reference, and the rest.  The stamp leaves
  the hash of all of them alone.
*/
module ZatcaInvoice {
  import opened Text
  import opened ZatcaHash
  import opened ZatcaEmbed
  import opened ZatcaQr

  // ---------------------------------------------------------------- the root tag

  lemma RootHere(attributes: string, after: string)
    requires '>' !in attributes
    ensures FindRoot(ROOT + (attributes + ">" + after)) == Some(Root("", ROOT + (attributes + ">"), after))
  {
    var s := ROOT + (attributes + ">" + after);
    assert s[|ROOT|..] == attributes + ">" + after;
    SplitsAt(attributes, after);
  }

  lemma {:induction false} SplitsAt(attributes: string, after: string)
    requires '>' !in attributes
    ensures SplitAtGt(attributes + ">" + after) == Some((attributes, after))
  {
    var s := attributes + ">" + after;
    if attributes == "" {
      assert s[1..] == after;
    } else {
      assert s[1..] == attributes[1..] + ">" + after;
      SplitsAt(attributes[1..], after);
      assert [attributes[0]] + attributes[1..] == attributes;
    }
  }

  lemma ShiftRootTwice(y: string, z: string, r: Option<Root>)
    ensures ShiftRoot(y, ShiftRoot(z, r)) == ShiftRoot(y + z, r)
    ensures ShiftRoot("", r) == r
  {
    if r.Some? {
      assert y + (z + r.value.before) == y + z + r.value.before;
      assert "" + r.value.before == r.value.before;
    }
  }

  lemma RootFurtherOn(s: string)
    requires s != "" && !(ROOT <= s)
    ensures FindRoot(s) == ShiftRoot([s[0]], FindRoot(s[1..]))
  {
  }

  lemma {:induction false} RootBehind(z: string, s: string)
    requires Clear(ROOT, z)
    ensures FindRoot(z + s) == ShiftRoot(z, FindRoot(s))
  {
    if z == "" {
      assert z + s == s;
    } else {
      assert z[0..] == z && z == [z[0]] + z[1..];
      MismatchExtends(ROOT, z, s);
      ClearTail(ROOT, z, 1);
      assert (z + s)[1..] == z[1..] + s;
      RootFurtherOn(z + s);
      RootBehind(z[1..], s);
    }
    ShiftRootTwice(if z == "" then "" else [z[0]], if z == "" then "" else z[1..], FindRoot(s));
  }

  // ---------------------------------------------------------------- references

  /** A reference with another identifier, and the text before it. */
  datatype Reference = Reference(lead: string, content: string)

  function ReferenceText(b: Block, x: Reference): string {
    x.lead + (b.head + x.content)
  }

  function References(b: Block, xs: seq<Reference>): string {
    if xs == [] then "" else ReferenceText(b, xs[0]) + References(b, xs[1..])
  }

  ghost predicate IsOther(b: Block, x: Reference) {
    && b.Spaced? && Clear(b.head, x.lead) && Clear(b.head, x.content)
    && Mismatch(b.tail, DropSpace(x.content))
  }

  lemma {:induction false} DropSpaceBefore(s: string, t: string)
    requires DropSpace(s) != ""
    ensures DropSpace(s + t) == DropSpace(s) + t
  {
    assert s + t != "" && (s + t)[0] == s[0];
    if IsSpace(s[0]) {
      assert (s + t)[1..] == s[1..] + t;
      DropSpaceBefore(s[1..], t);
    }
  }

  lemma OtherOpensNothing(b: Block, x: Reference, s: string)
    requires IsOther(b, x)
    ensures AfterOpen(b, b.head + (x.content + s)) == None
  {
    assert (b.head + (x.content + s))[|b.head|..] == x.content + s;
    DropSpaceBefore(x.content, s);
    MismatchExtends(b.tail, DropSpace(x.content), s);
  }

  lemma ShiftsCompose(y: string, z: string, m: Option<Slot>, n: Option<Slot>, o: Option<Slot>)
    requires n == Shift(z, m) && o == Shift(y, n)
    ensures o == Shift(y + z, m)
  {
    ShiftTwice(y, z, m);
  }

  lemma ConcatAssoc(x: string, y: string, z: string)
    ensures (x + y) + z == x + (y + z)
  {
  }

  /** The search passes over a marker that opens no reference. */
  lemma SlotSkipsHead(p: Pattern, rest: string)
    requires p.reference.Spaced? && WellMarked(p.reference)
    requires AfterOpen(p.reference, p.reference.head + rest) == None
    ensures FindSlot(p, p.reference.head + rest) == Shift(p.reference.head, FindSlot(p, rest))
  {
    var head := p.reference.head;
    var more := head[1..];
    assert head == [head[0]] + more && (head + rest)[1..] == more + rest;
    SlotFurtherOn(p, head + rest);
    ClearWithout(head, more);
    SlotSkips(p, more, rest);
    ShiftTwice([head[0]], more, FindSlot(p, rest));
  }

  /** The search for the slot passes over a reference with another identifier. */
  lemma SlotSkipsOther(p: Pattern, x: Reference, s: string)
    requires WellMarked(p.reference) && IsOther(p.reference, x)
    ensures FindSlot(p, ReferenceText(p.reference, x) + s) == Shift(ReferenceText(p.reference, x), FindSlot(p, s))
  {
    var head, rest := p.reference.head, x.content + s;
    OtherOpensNothing(p.reference, x, s);
    SlotSkips(p, x.content, s);
    SlotSkipsHead(p, rest);
    SlotSkips(p, x.lead, head + rest);
    ConcatAssoc(x.lead, head + x.content, s);
    ConcatAssoc(head, x.content, s);
    ShiftsCompose(head, x.content, FindSlot(p, s), FindSlot(p, rest), FindSlot(p, head + rest));
    ShiftsCompose(x.lead, head + x.content, FindSlot(p, s), FindSlot(p, head + rest),
                 FindSlot(p, x.lead + (head + rest)));
  }

  lemma SlotSkipsNothing(p: Pattern, s: string)
    requires p.reference.Spaced?
    ensures FindSlot(p, "" + s) == Shift("", FindSlot(p, s))
  {
    assert "" + s == s;
    ShiftTwice("", "", FindSlot(p, s));
  }

  lemma {:induction false} SlotSkipsOthers(p: Pattern, xs: seq<Reference>, s: string)
    requires p.reference.Spaced? && WellMarked(p.reference) && forall x <- xs :: IsOther(p.reference, x)
    ensures FindSlot(p, References(p.reference, xs) + s) == Shift(References(p.reference, xs), FindSlot(p, s))
  {
    if xs == [] {
      SlotSkipsNothing(p, s);
    } else {
      var first, more := ReferenceText(p.reference, xs[0]), References(p.reference, xs[1..]);
      SlotSkipsOthers(p, xs[1..], s);
      SlotSkipsOther(p, xs[0], more + s);
      ConcatAssoc(first, more, s);
      ShiftsCompose(first, more, FindSlot(p, s), FindSlot(p, more + s), FindSlot(p, (first + more) + s));
    }
  }

  /** The empty QR reference, up to the closing tag of its slot. */
  function QrReference(gap: string, gap': string, attributes: string): string {
    QR_REFERENCE.head + (gap + (QR_REFERENCE.tail + (gap' + (QR_SLOT.attach + (attributes + ">")))))
  }

  lemma AttachHere(p: Pattern, gap: string, gap': string, t: string)
    requires p.reference.Spaced? && AllSpace(gap) && AllSpace(gap')
    requires p.reference.tail != "" && !IsSpace(p.reference.tail[0]) && p.attach != "" && !IsSpace(p.attach[0])
    ensures AfterAttach(p, p.reference.head + (gap + (p.reference.tail + (gap' + (p.attach + t))))) == Some(t)
  {
    SlotOpens(p.reference, gap, gap' + (p.attach + t));
    DropLeadingSpace(gap', p.attach + t);
    assert (p.attach + t)[|p.attach|..] == t;
  }

  lemma SlotBehindAttach(p: Pattern, opening: string, attributes: string, after: string)
    requires p.reference.Spaced? && '>' !in attributes && p.close <= after
    requires AfterAttach(p, opening + after) == Some(attributes + ">" + after)
    ensures FindSlot(p, opening + after) == Some(Slot("", opening, attributes, after))
  {
    SplitsAt(attributes, after);
    assert (opening + after)[..|opening|] == opening;
  }

  lemma QrReferenceText(a: string, b: string, c: string, d: string, e: string, f: string, after: string)
    ensures (a + (b + (c + (d + (e + (f + ">")))))) + after == a + (b + (c + (d + (e + (f + ">" + after)))))
  {
  }

  lemma SlotHere(gap: string, gap': string, attributes: string, after: string)
    requires AllSpace(gap) && AllSpace(gap') && '>' !in attributes && QR_SLOT.close <= after
    ensures var s := QrReference(gap, gap', attributes) + after;
            FindSlot(QR_SLOT, s) == Some(Slot("", QrReference(gap, gap', attributes), attributes, after))
  {
    MarkersAreTags();
    AttachHere(QR_SLOT, gap, gap', attributes + ">" + after);
    QrReferenceText(QR_REFERENCE.head, gap, QR_REFERENCE.tail, gap', QR_SLOT.attach, attributes, after);
    SlotBehindAttach(QR_SLOT, QrReference(gap, gap', attributes), attributes, after);
  }

  lemma MarkersAreTags()
    ensures QR_SLOT.attach != "" && !IsSpace(QR_SLOT.attach[0])
    ensures QR_REFERENCE.tail != "" && !IsSpace(QR_REFERENCE.tail[0])
  {
    TagIsVisible(QR_SLOT.attach);
    TagIsVisible(QR_REFERENCE.tail);
  }

  lemma SlotOpens(b: Block, gap: string, rest: string)
    requires b.Spaced? && AllSpace(gap) && b.tail != "" && !IsSpace(b.tail[0])
    ensures AfterOpen(b, b.head + (gap + (b.tail + rest))) == Some(rest)
  {
    var all := b.head + (gap + (b.tail + rest));
    assert all[|b.head|..] == gap + (b.tail + rest);
    DropLeadingSpace(gap, b.tail + rest);
    assert (b.tail + rest)[|b.tail|..] == rest;
  }

  // ---------------------------------------------------------------- the whole document

  /** The parts of a document, as far as the stamp depends on them. */
  datatype Invoice = Invoice(prolog: string, rootAttributes: string, others: seq<Reference>, lead: string,
                             gap: string, gap': string, slotAttributes: string, rest: string) {
    function Upto(): string { prolog + (ROOT + (rootAttributes + ">")) }

    function AfterSlot(): string { QR_SLOT.close + rest }

    function Content(): string {
      References(QR_REFERENCE, others) + (lead + (QrReference(gap, gap', slotAttributes) + AfterSlot()))
    }

    function Text(): string { Upto() + ("\n" + Content()) }
  }

  /** What the builder guarantees: text values are XML-escaped and no other block opens where it should
      not. */
  ghost predicate IsBuilt(v: Invoice) {
    && Clear(ROOT, v.prolog) && '>' !in v.rootAttributes && MentionsNoBlock(v.Upto())
    && (forall x <- v.others :: IsOther(QR_REFERENCE, x)) && Clear(QR_REFERENCE.head, v.lead)
    && AllSpace(v.gap) && AllSpace(v.gap') && '>' !in v.slotAttributes && '<' !in v.slotAttributes
    && ClosedReference(v.AfterSlot())
  }

  lemma RootOf(prolog: string, attributes: string, after: string)
    requires Clear(ROOT, prolog) && '>' !in attributes
    ensures FindRoot((prolog + (ROOT + (attributes + ">"))) + after) ==
           Some(Root(prolog, ROOT + (attributes + ">"), after))
  {
    RootHere(attributes, after);
    RootBehind(prolog, ROOT + (attributes + ">" + after));
    InvoiceText(prolog, attributes, after);
  }

  lemma InvoiceText(prolog: string, attributes: string, after: string)
    ensures prolog + (ROOT + (attributes + ">" + after)) == (prolog + (ROOT + (attributes + ">"))) + after
    ensures prolog + "" == prolog
  {
  }

  lemma SlotInContent(v: Invoice)
    requires IsBuilt(v)
    ensures FindSlot(QR_SLOT, v.Content()) ==
            Shift(References(QR_REFERENCE, v.others),
                  Shift(v.lead, Some(Slot("", QrReference(v.gap, v.gap', v.slotAttributes),
                                          v.slotAttributes, v.AfterSlot()))))
  {
    var here := QrReference(v.gap, v.gap', v.slotAttributes) + v.AfterSlot();
    SlotHere(v.gap, v.gap', v.slotAttributes, v.AfterSlot());
    SlotSkips(QR_SLOT, v.lead, here);
    QrReferenceWellMarked();
    SlotSkipsOthers(QR_SLOT, v.others, v.lead + here);
  }

  lemma SlotBehindRoot(p: string, content: string)
    requires p != "" && p[|p| - 1] == '>' && MentionsNoBlock(p)
    ensures FindSlot(QR_SLOT, p + ("\n" + content)) == Shift(p, Shift("\n", FindSlot(QR_SLOT, content)))
  {
    QrReferenceWellMarked();
    ClearWithout(QR_REFERENCE.head, "\n");
    QuietUpToTag(p);
    SlotSkipsTwo(QR_SLOT, p, "\n", content);
  }

  lemma SlotOfInvoice(v: Invoice) returns (m: Slot)
    requires IsBuilt(v)
    ensures FindSlot(QR_SLOT, v.Text()) == Some(m)
    ensures m.attributes == v.slotAttributes && m.after == v.AfterSlot()
  {
    SlotInContent(v);
    SlotBehindRoot(v.Upto(), v.Content());
    m := FindSlot(QR_SLOT, v.Text()).value;
  }

  /** MAIN RESULT.  Every document of the builder's layout keeps its hash when it is stamped, whatever
      its values. */
  lemma StampOfInvoice(v: Invoice, pieces: seq<Piece>, qr: string)
    requires IsBuilt(v)
    requires ProperPieces(pieces) && !Contains(QR_REFERENCE.head, SignatureBlock(pieces))
    requires '<' !in qr && '$' !in qr
    ensures HashInput(InjectQrCode(EmbedSignature(v.Text(), pieces), qr)) == HashInput(v.Text())
  {
    RootOf(v.prolog, v.rootAttributes, "\n" + v.Content());
    var m := SlotOfInvoice(v);
    var r := Root(v.prolog, ROOT + (v.rootAttributes + ">"), "\n" + v.Content());
    StampOfClosedReference(v.Text(), pieces, qr, r, v.Content(), m);
  }

  // ---------------------------------------------------------------- one of them

  const SAMPLE := Invoice("", "", [Reference("", "<cbc:ID>ICV" + "</cbc:ID>")], "", "\n", "\n", "",
                          "</cac:Attachment>" + QR_REFERENCE.close)

  lemma OtherFromTags(x: Reference, a: string, b: string)
    requires x.lead == "" && x.content == a + b
    requires |a| > 8 && a[0] == '<' && a[1] == 'c' && a[2] == 'b' && a[8] != 'Q' && '<' !in a[1..]
    requires |b| > 2 && b[1] == '/' && '<' !in b[1..]
    ensures IsOther(QR_REFERENCE, x)
  {
    QrReferenceWellMarked();
    ReferenceStarts();
    ClearOfTags(QR_REFERENCE.head, a, b);
    TagIsVisible(x.content);
    assert x.content[8] == a[8];
  }

  lemma SampleReference(x: Reference)
    requires x == Reference("", "<cbc:ID>ICV" + "</cbc:ID>")
    ensures IsOther(QR_REFERENCE, x)
  {
    OtherFromTags(x, "<cbc:ID>ICV", "</cbc:ID>");
  }

  lemma ReferenceStarts()
    ensures |QR_REFERENCE.head| > 2 && QR_REFERENCE.head[1] == 'c' && QR_REFERENCE.head[2] == 'a'
    ensures |EXTENSIONS.head| > 2 && EXTENSIONS.head[1] == 'e'
    ensures |QR_REFERENCE.close| > 2 && QR_REFERENCE.close[1] == '/'
    ensures |QR_REFERENCE.tail| > 8 && QR_REFERENCE.tail[8] == 'Q'
  {
  }

  /** Two tags, neither of which starts like the marker. */
  lemma ClearOfTags(m: string, x: string, y: string)
    requires |m| > 2 && m[0] == '<' && |x| > 2 && |y| > 2
    requires '<' !in x[1..] && '<' !in y[1..]
    requires (m[1] != x[1] || m[2] != x[2]) && (m[1] != y[1] || m[2] != y[2])
    ensures Clear(m, x + y)
  {
    ClearOfTag(m, x, if m[1] != x[1] then 1 else 2);
    ClearOfTag(m, y, if m[1] != y[1] then 1 else 2);
    ClearConcat(m, x, y);
  }

  lemma ClosedText(h: string, a: string, b: string, c: string)
    requires h != "" && Clear(h, a + b) && Clear(h, c)
    ensures Contains(c, a + (b + c)) && !Contains(h, a + (b + c))
  {
    var s := a + (b + c);
    assert s == (a + b) + c;
    ClearConcat(h, a + b, c);
    ClearExcludes(h, s);
    assert s[|a + b|..] == c;
    ContainsSomewhere(c, s, |a + b|);
  }

  lemma SampleIsClosed()
    ensures ClosedReference(SAMPLE.AfterSlot())
  {
    var b, c := "</cac:Attachment>", QR_REFERENCE.close;
    SampleTags(b);
    ClearOfTags(EXTENSIONS.head, QR_SLOT.close, b);
    ClearOfTag(EXTENSIONS.head, c, 1);
    ClosedText(EXTENSIONS.head, QR_SLOT.close, b, c);
  }

  lemma SampleTags(b: string)
    requires b == "</cac:Attachment>"
    ensures |b| > 2 && b[1] == '/' && '<' !in b[1..]
    ensures EXTENSIONS.head != "" && EXTENSIONS.head[0] == '<'
    ensures |EXTENSIONS.head| > 2 && EXTENSIONS.head[1] == 'e'
    ensures IsSlotClose(QR_SLOT.close)
    ensures |QR_REFERENCE.close| > 2 && QR_REFERENCE.close[1] == '/' && '<' !in QR_REFERENCE.close[1..]
  {
    ExtensionsWellMarked();
    QrReferenceWellMarked();
    SlotCloseShape();
    ReferenceStarts();
  }

  /** The hypotheses can be met: an invoice with a counter reference, an empty signature block and a QR
      code. */
  lemma StampOfSample()
    ensures IsBuilt(SAMPLE) && ProperPieces([]) && !Contains(QR_REFERENCE.head, SignatureBlock([]))
    ensures HashInput(InjectQrCode(EmbedSignature(SAMPLE.Text(), []), "AQ==")) == HashInput(SAMPLE.Text())
  {
    SampleReference(SAMPLE.others[0]);
    SampleIsClosed();
    OneLineDocument();
    assert SAMPLE.Upto() == "<Invoice>";
    assert IsBuilt(SAMPLE);
    EmptyBlockHasNoReference();
    StampOfInvoice(SAMPLE, [], "AQ==");
  }

  lemma BlockOfTags(h: string, a: string, b: string)
    requires |h| > 1 && h[0] == '<' && |a| > 1 && |b| > 1 && h[1] != a[1] && h[1] != b[1]
    requires '<' !in a[1..] && '<' !in b[1..]
    ensures !Contains(h, "  " + (a + "\n\n  " + b))
  {
    ClearOfTag(h, a, 1);
    ClearOfTag(h, b, 1);
    ClearWithout(h, "  ");
    ClearWithout(h, "\n\n  ");
    ClearConcat(h, a, "\n\n  ");
    ClearConcat(h, a + "\n\n  ", b);
    ClearConcat(h, "  ", a + "\n\n  " + b);
    ClearExcludes(h, "  " + (a + "\n\n  " + b));
  }

  lemma EmptyBlockHasNoReference()
    ensures !Contains(QR_REFERENCE.head, SignatureBlock([]))
  {
    QrReferenceWellMarked();
    ReferenceStarts();
    ExtensionTags();
    BlockOfTags(QR_REFERENCE.head, OpenTag(EXTENSIONS_NAME), CloseTag(EXTENSIONS_NAME));
    assert OpenTag(EXTENSIONS_NAME) + "\n" + "" + "\n  " == OpenTag(EXTENSIONS_NAME) + "\n\n  ";
  }

  lemma ExtensionTags()
    ensures var a, b := OpenTag(EXTENSIONS_NAME), CloseTag(EXTENSIONS_NAME);
            |a| > 1 && |b| > 1 && a[1] == 'e' && b[1] == '/' && '<' !in a[1..] && '<' !in b[1..]
  {
    assert '<' !in EXTENSIONS_NAME && EXTENSIONS_NAME[0] == 'e';
    assert OpenTag(EXTENSIONS_NAME)[1..] == EXTENSIONS_NAME + ">";
    assert CloseTag(EXTENSIONS_NAME)[1..] == "/" + EXTENSIONS_NAME + ">";
  }
}
