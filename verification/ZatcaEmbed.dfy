/**
  embedSignature (zatca-crypto.service.ts) splices the signature block behind the root tag of the
  document it has hashed.  Main result: exactly when does the splice leave the hashed text alone?
*/
module ZatcaEmbed {
  import opened Text
  import opened ZatcaHash

  // ---------------------------------------------------------------- String.prototype.replace

  datatype Match = Match(before: string, text: string, after: string, captures: seq<string>)

  predicate IsDigit(c: char) { '0' <= c <= '9' }

  function Digit(c: char): int
    requires IsDigit(c)
  {
    c as int - '0' as int
  }

  /** GetSubstitution of ECMA-262 (section 22.1.3.19.1) without named groups: what a replacement
      template stands for. */
  function Expand(t: string, m: Match): string
    decreases |t|
  {
    if |t| < 2 then t
    else if t[0] != '$' then [t[0]] + Expand(t[1..], m)
    else if t[1] == '$' then "$" + Expand(t[2..], m)
    else if t[1] == '&' then m.text + Expand(t[2..], m)
    else if t[1] == '`' then m.before + Expand(t[2..], m)
    else if t[1] == '\'' then m.after + Expand(t[2..], m)
    else if !IsDigit(t[1]) then "$" + Expand(t[1..], m)
    else
      var one := Digit(t[1]);
      var two := if |t| > 2 && IsDigit(t[2]) then 10 * one + Digit(t[2]) else 0;
      if 1 <= two <= |m.captures| then m.captures[two - 1] + Expand(t[3..], m)
      else if 1 <= one <= |m.captures| then m.captures[one - 1] + Expand(t[2..], m)
      else "$" + Expand(t[1..], m)
  }

  /** Text without '$' stands for itself, whatever template follows it. */
  lemma {:induction false} ExpandPlain(plain: string, t: string, m: Match)
    requires '$' !in plain
    ensures Expand(plain + t, m) == plain + Expand(t, m)
  {
    if plain == "" {
      assert plain + t == t;
    } else {
      assert (plain + t)[1..] == plain[1..] + t;
      if |plain + t| < 2 {
        assert t == "" && plain[1..] == "";
      } else {
        ExpandPlain(plain[1..], t, m);
      }
    }
  }

  // ---------------------------------------------------------------- the root tag

  const ROOT := "<Invoice"

  datatype Root = Root(before: string, tag: string, after: string) {
    function UpTo(): string { before + tag }
  }

  /** Everything up to the first '>' and everything behind it. */
  function SplitAtGt(s: string): (r: Option<(string, string)>)
    ensures r.Some? ==> s == r.value.0 + ">" + r.value.1 && '>' !in r.value.0
  {
    if s == "" then None
    else if s[0] == '>' then Some(("", s[1..]))
    else match SplitAtGt(s[1..])
      case None => None
      case Some(p) => Some(([s[0]] + p.0, p.1))
  }

  function RootAt(s: string): Option<Root> {
    if !(ROOT <= s) then None
    else match SplitAtGt(s[|ROOT|..])
      case None => None
      case Some(p) => Some(Root("", ROOT + (p.0 + ">"), p.1))
  }

  /** The first match of `<Invoice[^>]*>`. */
  function FindRoot(s: string): Option<Root> {
    if RootAt(s).Some? then RootAt(s)
    else if s == "" then None
    else ShiftRoot([s[0]], FindRoot(s[1..]))
  }

  function ShiftRoot(z: string, r: Option<Root>): Option<Root> {
    match r
    case None => None
    case Some(r) => Some(r.(before := z + r.before))
  }

  predicate IsRootOf(r: Root, s: string) {
    s == r.UpTo() + r.after && r.tag != "" && r.tag[|r.tag| - 1] == '>'
  }

  lemma RootAtText(s: string)
    requires RootAt(s).Some?
    ensures IsRootOf(RootAt(s).value, s)
  {
    var p := SplitAtGt(s[|ROOT|..]).value;
    assert s == ROOT + (p.0 + ">" + p.1);
    assert "" + (ROOT + (p.0 + ">")) + p.1 == ROOT + (p.0 + ">" + p.1);
  }

  lemma ShiftedRootText(c: char, t: string, r: Root)
    requires IsRootOf(r, t)
    ensures IsRootOf(r.(before := [c] + r.before), [c] + t)
  {
    assert ([c] + r.before) + r.tag + r.after == [c] + (r.before + r.tag + r.after);
  }

  lemma {:induction false} RootText(s: string)
    requires FindRoot(s).Some?
    ensures IsRootOf(FindRoot(s).value, s)
  {
    if RootAt(s).Some? {
      RootAtText(s);
    } else {
      RootText(s[1..]);
      ShiftedRootText(s[0], s[1..], FindRoot(s[1..]).value);
      assert s == [s[0]] + s[1..];
    }
  }

  // ---------------------------------------------------------------- the signature block

  /** The block between its first and its last tag: fixed markup and interpolated values. */
  datatype Piece = Markup(text: string) | Field(value: string) {
    function Text(): string { if Markup? then text else value }
  }

  function Body(pieces: seq<Piece>): string {
    if pieces == [] then "" else pieces[0].Text() + Body(pieces[1..])
  }

  /** Values are free of '<' and '$' (they are Base64, a time stamp or XML-escaped); the markup
      pieces end in '>', have no '$' and do not close the block. */
  ghost predicate ProperPiece(p: Piece) {
    && '$' !in p.Text()
    && (p.Field? ==> '<' !in p.value)
    && (p.Markup? ==> p.text != "" && p.text[|p.text| - 1] == '>' && !Contains(EXTENSIONS.close, p.text))
  }

  ghost predicate ProperPieces(pieces: seq<Piece>) {
    forall p <- pieces :: ProperPiece(p)
  }

  function SignatureBlock(pieces: seq<Piece>): string {
    "  " + (OpenTag(EXTENSIONS_NAME) + "\n" + Body(pieces) + "\n  " + CloseTag(EXTENSIONS_NAME))
  }

  function EmbedBlock(xml: string, block: string): string {
    match FindRoot(xml)
    case None => xml
    case Some(r) =>
      r.before + Expand("$1" + ("\n" + block), Match(r.before, r.tag, r.after, [r.tag])) + r.after
  }

  function EmbedSignature(xml: string, pieces: seq<Piece>): string {
    EmbedBlock(xml, SignatureBlock(pieces))
  }

  lemma {:induction false} BodyIsClear(pieces: seq<Piece>)
    requires ProperPieces(pieces)
    ensures '$' !in Body(pieces) && Clear(EXTENSIONS.close, Body(pieces))
  {
    if pieces != [] {
      var p := pieces[0];
      assert ProperPiece(p) && ProperPieces(pieces[1..]);
      BodyIsClear(pieces[1..]);
      ExtensionsWellMarked();
      if p.Field? {
        ClearWithout(EXTENSIONS.close, p.value);
      } else {
        ClearFromAbsence(EXTENSIONS.close, p.text);
      }
      ClearConcat(EXTENSIONS.close, p.Text(), Body(pieces[1..]));
    }
  }

  // ---------------------------------------------------------------- what the hash passes make of it

  /** No removable block opens in p, whatever follows p. */
  ghost predicate Quiet(p: string) {
    Clear(EXTENSIONS.head, p) && Clear(QR_REFERENCE.head, p) && Clear(SIGNATURE.head, p)
  }

  /** A caller's check of the text up to and including the root tag. */
  predicate MentionsNoBlock(p: string) {
    !Contains(EXTENSIONS.head, p) && !Contains(QR_REFERENCE.head, p) && !Contains(SIGNATURE.head, p)
  }

  lemma QuietUpToTag(p: string)
    requires MentionsNoBlock(p) && p != "" && p[|p| - 1] == '>'
    ensures Quiet(p)
  {
    ExtensionsWellMarked();
    QrReferenceWellMarked();
    SignatureWellMarked();
    ClearFromAbsence(EXTENSIONS.head, p);
    ClearFromAbsence(QR_REFERENCE.head, p);
    ClearFromAbsence(SIGNATURE.head, p);
  }

  lemma QuietWithout(p: string)
    requires '<' !in p
    ensures Quiet(p)
  {
    ExtensionsWellMarked();
    QrReferenceWellMarked();
    SignatureWellMarked();
    ClearWithout(EXTENSIONS.head, p);
    ClearWithout(QR_REFERENCE.head, p);
    ClearWithout(SIGNATURE.head, p);
  }

  lemma ClearByName(h: string, p: string)
    requires |h| > 1 && h[0] == '<' && (h[1] == 'e' || h[1] == 'c')
    requires forall i :: 0 <= i < |p| && p[i] == '<' ==> i + 1 < |p| && p[i + 1] != 'e' && p[i + 1] != 'c'
    ensures Clear(h, p) && !Contains(h, p)
  {
    forall i | 0 <= i < |p| ensures Mismatch(h, p[i..]) {
      assert p[i..][0] == p[i];
      assert p[i] == '<' ==> p[i..][1] == p[i + 1];
      assert h[0] != p[i..][0] || h[1] != p[i..][1];
    }
    ClearExcludes(h, p);
  }

  /** A tag is no removable block when its name starts with neither 'e' nor 'c'. */
  lemma QuietByNames(p: string)
    requires forall i :: 0 <= i < |p| && p[i] == '<' ==> i + 1 < |p| && p[i + 1] != 'e' && p[i + 1] != 'c'
    ensures Quiet(p) && MentionsNoBlock(p)
  {
    assert EXTENSIONS.head[1] == 'e' && QR_REFERENCE.head[1] == 'c' && SIGNATURE.head[1] == 'c';
    ClearByName(EXTENSIONS.head, p);
    ClearByName(QR_REFERENCE.head, p);
    ClearByName(SIGNATURE.head, p);
  }

  lemma StripSkips(p: string, s: string)
    requires Quiet(p)
    ensures Strip(p + s) == p + Strip(s)
  {
    StripBySkips(EXTENSIONS, QR_REFERENCE, SIGNATURE, p, s);
  }

  lemma BlockHasNoDollar(pieces: seq<Piece>)
    requires ProperPieces(pieces)
    ensures '$' !in SignatureBlock(pieces)
  {
    BodyIsClear(pieces);
    assert '$' !in EXTENSIONS_NAME;
  }

  lemma ExpandFirstCapture(plain: string, m: Match)
    requires '$' !in plain && plain != "" && !IsDigit(plain[0]) && |m.captures| == 1
    ensures Expand("$1" + plain, m) == m.captures[0] + plain
  {
    var t := "$1" + plain;
    assert t[0] == '$' && t[1] == '1' && t[2] == plain[0] && t[2..] == plain + "";
    ExpandPlain(plain, "", m);
    assert plain + "" == plain;
  }

  lemma EmbeddedText(xml: string, block: string, r: Root)
    requires FindRoot(xml) == Some(r) && '$' !in block
    ensures EmbedBlock(xml, block) == r.UpTo() + ("\n" + block + r.after)
  {
    var plain := "\n" + block;
    RootText(xml);
    ExpandFirstCapture(plain, Match(r.before, r.tag, r.after, [r.tag]));
    assert r.before + (r.tag + plain) + r.after == (r.before + r.tag) + (plain + r.after);
  }

  lemma BlockShape(head: string, body: string, close: string, s: string)
    ensures "\n" + ("  " + ((head + ">") + "\n" + body + "\n  " + close)) + s ==
            "\n  " + (head + ((">\n" + body + "\n  ") + (close + s)))
  {
  }

  lemma InnerIsClear(pieces: seq<Piece>)
    requires ProperPieces(pieces)
    ensures Clear(EXTENSIONS.close, ">\n" + Body(pieces) + "\n  ")
  {
    BodyIsClear(pieces);
    ExtensionsWellMarked();
    ClearWithout(EXTENSIONS.close, ">\n");
    ClearWithout(EXTENSIONS.close, "\n  ");
    ClearConcat(EXTENSIONS.close, ">\n", Body(pieces));
    ClearConcat(EXTENSIONS.close, ">\n" + Body(pieces), "\n  ");
  }

  lemma SignatureMarkup()
    ensures OpenTag(EXTENSIONS_NAME) == "<ext:UBLExtensions>" && CloseTag(EXTENSIONS_NAME) == "</ext:UBLExtensions>"
  {
  }

  lemma IndentJoins(s: string)
    ensures "\n" + ("  " + s) == "\n  " + s
  {
  }

  /** The whole document after embedding. */
  lemma EmbeddedDocument(xml: string, pieces: seq<Piece>, r: Root)
    requires FindRoot(xml) == Some(r) && ProperPieces(pieces)
    ensures var block := "<ext:UBLExtensions>" + "\n" + Body(pieces) + "\n  " + "</ext:UBLExtensions>";
            EmbedSignature(xml, pieces) == r.UpTo() + ("\n  " + block + r.after)
  {
    var inner := OpenTag(EXTENSIONS_NAME) + "\n" + Body(pieces) + "\n  " + CloseTag(EXTENSIONS_NAME);
    BlockHasNoDollar(pieces);
    EmbeddedText(xml, SignatureBlock(pieces), r);
    SignatureMarkup();
    IndentJoins(inner);
  }

  /** A document without a root tag is left as it is. */
  lemma NothingToEmbed(xml: string, pieces: seq<Piece>)
    requires FindRoot(xml) == None
    ensures EmbedSignature(xml, pieces) == xml
  {
  }

  /** The text of the pieces, one behind the other. */
  lemma {:induction false} BodyConcat(x: seq<Piece>, y: seq<Piece>, p: Piece)
    ensures Body(x + y) == Body(x) + Body(y)
    ensures Body([p]) == match p { case Markup(text) => text case Field(value) => value }
  {
    assert [p][1..] == [] && p.Text() + "" == p.Text();
    if x == [] {
      assert x + y == y;
    } else {
      assert (x + y)[1..] == x[1..] + y;
      BodyConcat(x[1..], y, p);
    }
  }

  /** The block is deleted; the newline and the two blanks in front of it stay. */
  lemma StripEmbedded(p: string, pieces: seq<Piece>, s: string)
    requires Quiet(p) && ProperPieces(pieces)
    ensures Strip(p + ("\n" + SignatureBlock(pieces) + s)) == p + ("\n  " + Strip(s))
  {
    var inner := ">\n" + Body(pieces) + "\n  ";
    var block := EXTENSIONS.head + (inner + (EXTENSIONS.close + s));
    assert "\n" + SignatureBlock(pieces) + s == "\n  " + block by {
      BlockShape(EXTENSIONS.head, Body(pieces), EXTENSIONS.close, s);
    }
    assert Strip(block) == Strip(s) by {
      InnerIsClear(pieces);
      StripByRemovesFirst(EXTENSIONS, QR_REFERENCE, SIGNATURE, inner, s);
    }
    QuietWithout("\n  ");
    StripSkips(p, "\n  " + block);
    StripSkips("\n  ", block);
  }

  predicate BlankFirstLine(s: string) {
    AllSpace(Lines(s)[0])
  }

  lemma LinesOfBreak(s: string)
    ensures Lines("\n  " + s) == ["", "  " + Lines(s)[0]] + Lines(s)[1..]
  {
    var one, two := " " + s, "  " + s;
    assert ("\n  " + s)[1..] == two && two[1..] == one && one[1..] == s;
    assert [' '] + ([' '] + Lines(s)[0]) == "  " + Lines(s)[0];
    assert Lines(one) == [[' '] + Lines(s)[0]] + Lines(s)[1..];
    assert Lines(two) == ["  " + Lines(s)[0]] + Lines(s)[1..];
  }

  lemma TrimmedLines(last: string, first: string)
    requires last != "" && !IsSpace(last[|last| - 1])
    ensures TrimEnd(last) == last && TrimEnd(last + first) == last + TrimEnd(first)
    ensures TrimEnd("  " + first) == if TrimEnd(first) == "" then "" else "  " + TrimEnd(first)
  {
    TrimEndPrefix(last, "");
    assert last + "" == last;
    TrimEndPrefix(last, first);
    TrimEndBlankPrefix("  ", first);
  }

  lemma CleanBroken(last: string, second: string)
    requires last != "" && TrimEnd(last) == last
    ensures Clean([last, second]) == if TrimEnd(second) == "" then [last] else [last, TrimEnd(second)]
  {
    CleanOne(last);
    CleanOne(second);
    CleanTwo(last, second);
  }

  /** The last line and the first line, with a line break and two blanks between them or not. */
  lemma BrokenLine(last: string, first: string)
    requires last != "" && !IsSpace(last[|last| - 1])
    ensures var x, y := Clean([last, "  " + first]), Clean([last + first]);
            && x != [] && y != []
            && (TrimEnd(first) == "" ==> x == y) && (TrimEnd(first) != "" ==> JoinLength(x) > JoinLength(y))
  {
    var tail := TrimEnd(first);
    TrimmedLines(last, first);
    CleanBroken(last, "  " + first);
    CleanOne(last + first);
    if tail == "" {
      assert last + "" == last;
    } else {
      JoinLengthTwo(last, "  " + tail);
      JoinLengthOne(last + tail);
    }
  }

  lemma LinesOfLineBreak(p: string, s: string, before: seq<string>, last: string, first: string, after: seq<string>)
    requires Lines(p) == before + [last] && Lines(s) == [first] + after
    ensures Lines(p + s) == before + [last + first] + after
    ensures Lines(p + ("\n  " + s)) == before + [last, "  " + first] + after
  {
    assert Lines(p + s) == before + [last + first] + after by {
      LinesOfConcat(p, s);
    }
    LinesOfConcat(p, "\n  " + s);
    LinesOfBreak(s);
    assert last + "" == last;
  }

  lemma BreakInNormalForm(s: string, t: string, before: seq<string>, last: string, first: string, after: seq<string>)
    requires Lines(s) == before + [last, "  " + first] + after && Lines(t) == before + [last + first] + after
    requires last != "" && !IsSpace(last[|last| - 1])
    ensures if TrimEnd(first) == "" then Normalize(s) == Normalize(t) else |Normalize(s)| > |Normalize(t)|
  {
    BrokenLine(last, first);
    NormalizeByMiddle(s, t, before, [last, "  " + first], [last + first], after);
  }

  /** A line break and two blanks behind a '>' vanish in the normal form exactly when nothing
      visible follows on the same line. */
  lemma NormalizeLineBreak(p: string, s: string)
    requires p != "" && p[|p| - 1] == '>'
    ensures if BlankFirstLine(s)
            then Normalize(p + ("\n  " + s)) == Normalize(p + s)
            else |Normalize(p + ("\n  " + s))| > |Normalize(p + s)|
  {
    var ps, ls := Lines(p), Lines(s);
    var before, last, first, after := ps[..|ps| - 1], ps[|ps| - 1], ls[0], ls[1..];
    LinesOfLineBreak(p, s, before, last, first, after);
    assert last != "" && !IsSpace(last[|last| - 1]) by {
      LastLineEnd(p);
    }
    assert BlankFirstLine(s) <==> TrimEnd(first) == "";
    BreakInNormalForm(p + ("\n  " + s), p + s, before, last, first, after);
  }

  /** MAIN RESULT.  For a document with a root tag and no removable block before it, embedding the
      signature leaves the hashed text alone if and only if the line of the root tag has nothing
      visible behind the tag once the removable blocks are gone. */
  lemma EmbedPreservesHash(xml: string, pieces: seq<Piece>, r: Root)
    requires FindRoot(xml) == Some(r) && MentionsNoBlock(r.UpTo())
    requires ProperPieces(pieces)
    ensures HashInput(EmbedSignature(xml, pieces)) == HashInput(xml) <==> BlankFirstLine(Strip(r.after))
    ensures |HashInput(EmbedSignature(xml, pieces))| >= |HashInput(xml)|
    ensures |HashInput(EmbedSignature(xml, pieces))| == |HashInput(xml)| ==> BlankFirstLine(Strip(r.after))
  {
    var p := r.UpTo();
    RootText(xml);
    assert p[|p| - 1] == '>';
    QuietUpToTag(p);
    BlockHasNoDollar(pieces);
    EmbeddedText(xml, SignatureBlock(pieces), r);
    StripEmbedded(p, pieces, r.after);
    StripSkips(p, r.after);
    NormalizeLineBreak(p, Strip(r.after));
  }

  lemma BreakIsBlank(rest: string)
    ensures BlankFirstLine(Strip("\n" + rest))
  {
    QuietWithout("\n");
    StripSkips("\n", rest);
    assert ("\n" + Strip(rest))[0] == '\n';
  }

  /** Every document of the invoice builder is of this form: a line break follows the root tag. */
  lemma EmbedAfterLineBreak(xml: string, pieces: seq<Piece>, r: Root, rest: string)
    requires FindRoot(xml) == Some(r) && MentionsNoBlock(r.UpTo())
    requires ProperPieces(pieces) && r.after == "\n" + rest
    ensures HashInput(EmbedSignature(xml, pieces)) == HashInput(xml)
  {
    BreakIsBlank(rest);
    EmbedPreservesHash(xml, pieces, r);
  }

  lemma RootAtStart(rest: string)
    ensures FindRoot("<Invoice>" + rest) == Some(Root("", "<Invoice>", rest))
    ensures Root("", "<Invoice>", rest).UpTo() == "<Invoice>"
  {
    var s := "<Invoice>" + rest;
    assert s[|ROOT|..] == ">" + rest;
    assert (">" + rest)[1..] == rest;
    assert ROOT + ("" + ">") == "<Invoice>";
  }

  lemma VisibleFirstLine(s: string)
    requires s != "" && !IsSpace(s[0])
    ensures !BlankFirstLine(s)
  {
    assert Lines(s)[0][0] == s[0];
    assert Lines(s)[0][0] in Lines(s)[0];
  }

  lemma StripLeaves(s: string)
    requires Quiet(s)
    ensures Strip(s) == s
  {
    StripSkips(s, "");
    assert s + "" == s;
    assert Strip("") == "";
  }

  /** The hash changes for every document with a visible character right behind its root tag that
      no pass removes. */
  lemma EmbedChangesSameLine(xml: string, pieces: seq<Piece>, r: Root)
    requires FindRoot(xml) == Some(r) && MentionsNoBlock(r.UpTo()) && ProperPieces(pieces)
    requires Quiet(r.after) && r.after != "" && !IsSpace(r.after[0])
    ensures HashInput(EmbedSignature(xml, pieces)) != HashInput(xml)
  {
    StripLeaves(r.after);
    VisibleFirstLine(r.after);
    EmbedPreservesHash(xml, pieces, r);
  }

  lemma QuietConcat(p: string, q: string)
    requires Quiet(p) && Quiet(q)
    ensures Quiet(p + q)
  {
    ClearConcat(EXTENSIONS.head, p, q);
    ClearConcat(QR_REFERENCE.head, p, q);
    ClearConcat(SIGNATURE.head, p, q);
  }

  lemma OneLineTags()
    ensures Quiet("<ID/>") && Quiet("</Invoice>")
  {
    QuietByNames("<ID/>");
    QuietByNames("</Invoice>");
  }

  lemma OneLineDocument()
    ensures Quiet("<Invoice>") && MentionsNoBlock("<Invoice>") && Quiet("<ID/>" + "</Invoice>")
  {
    QuietByNames("<Invoice>");
    OneLineTags();
    QuietConcat("<ID/>", "</Invoice>");
  }

  lemma TagIsVisible(s: string)
    requires s != "" && s[0] == '<'
    ensures !IsSpace(s[0])
  {
  }

  lemma EmbedChangesBehindRoot(rest: string, pieces: seq<Piece>)
    requires ProperPieces(pieces) && Quiet(rest) && rest != "" && rest[0] == '<'
    ensures HashInput(EmbedSignature("<Invoice>" + rest, pieces)) != HashInput("<Invoice>" + rest)
  {
    var r := Root("", "<Invoice>", rest);
    RootAtStart(rest);
    OneLineDocument();
    assert MentionsNoBlock(r.UpTo());
    TagIsVisible(rest);
    EmbedChangesSameLine("<Invoice>" + rest, pieces, r);
  }

  /** Such as a document that is written on one line. */
  lemma EmbedChangesOneLineDocument(pieces: seq<Piece>)
    requires ProperPieces(pieces)
    ensures var xml := "<Invoice>" + ("<ID/>" + "</Invoice>");
            HashInput(EmbedSignature(xml, pieces)) != HashInput(xml)
  {
    OneLineDocument();
    EmbedChangesBehindRoot("<ID/>" + "</Invoice>", pieces);
  }

  // ---------------------------------------------------------------- what else the passes remove and keep

  /** A signature element is deleted whatever stands in it, apart from openings of the other two blocks. */
  lemma StripRemovesSignature(p: string, inner: string, s: string)
    requires Quiet(p) && Clear(SIGNATURE.close, inner)
    requires var block := SIGNATURE.head + (inner + SIGNATURE.close);
             Clear(EXTENSIONS.head, block) && Clear(QR_REFERENCE.head, block)
    ensures Strip(p + ((SIGNATURE.head + (inner + SIGNATURE.close)) + s)) == p + Strip(s)
  {
    StripSkips(p, (SIGNATURE.head + (inner + SIGNATURE.close)) + s);
    StripByRemovesThird(EXTENSIONS, QR_REFERENCE, SIGNATURE, inner, s);
  }

  lemma {:induction false} DropLeadingSpace(gap: string, t: string)
    requires AllSpace(gap) && t != "" && !IsSpace(t[0])
    ensures DropSpace(gap + t) == t
  {
    if gap == "" {
      assert gap + t == t;
    } else {
      assert (gap + t)[1..] == gap[1..] + t;
      DropLeadingSpace(gap[1..], t);
    }
  }

  lemma QrTailStarts()
    ensures QR_REFERENCE.tail != "" && QR_REFERENCE.tail[0] == '<'
  {
  }

  /** An extension block is deleted first, whatever stands in it: parts of other blocks too. */
  lemma StripRemovesExtensions(inner: string, s: string)
    requires Clear(EXTENSIONS.close, inner)
    ensures Strip(EXTENSIONS.head + (inner + (EXTENSIONS.close + s))) == Strip(s)
  {
    StripByRemovesFirst(EXTENSIONS, QR_REFERENCE, SIGNATURE, inner, s);
  }

  function QrBlock(gap: string, inner: string): string {
    QR_REFERENCE.head + (gap + (QR_REFERENCE.tail + (inner + QR_REFERENCE.close)))
  }

  /** A QR reference is deleted next, whatever stands in it apart from openings of extension blocks: the
      opening of a signature too. */
  lemma StripRemovesReference(gap: string, inner: string, s: string)
    requires AllSpace(gap) && Clear(QR_REFERENCE.close, inner) && Clear(EXTENSIONS.head, QrBlock(gap, inner))
    ensures Strip(QrBlock(gap, inner) + s) == Strip(s)
  {
    var t := Remove(EXTENSIONS, s);
    RemoveSkips(EXTENSIONS, QrBlock(gap, inner), s);
    RemovesQrReference(gap, inner, t);
    QrBlockText(QR_REFERENCE.head, gap, QR_REFERENCE.tail, inner, QR_REFERENCE.close, t);
  }

  lemma QrBlockText(a: string, b: string, c: string, d: string, e: string, t: string)
    ensures (a + (b + (c + (d + e)))) + t == a + (b + (c + (d + (e + t))))
  {
  }

  /** A QR reference is deleted whatever stands behind its identifier. */
  lemma RemovesQrReference(gap: string, inner: string, s: string)
    requires AllSpace(gap) && Clear(QR_REFERENCE.close, inner)
    ensures var b := QR_REFERENCE;
            Remove(b, b.head + (gap + (b.tail + (inner + (b.close + s))))) == Remove(b, s)
  {
    var b := QR_REFERENCE;
    var rest := inner + (b.close + s);
    var all := b.head + (gap + (b.tail + rest));
    assert AfterOpen(b, all) == Some(rest) by {
      assert b.head <= all && all[|b.head|..] == gap + (b.tail + rest);
      QrTailStarts();
      DropLeadingSpace(gap, b.tail + rest);
      assert b.tail <= b.tail + rest && (b.tail + rest)[|b.tail|..] == rest;
    }
    assert AfterBlock(b, all) == Some(s) by {
      CloseFoundAfter(b.close, inner, b.close + s);
    }
  }

  lemma StaysUnopened(b: Block, gap: string, t: string)
    requires b.Spaced? && AllSpace(gap) && t != "" && !IsSpace(t[0]) && !(b.tail <= t)
    ensures AfterBlock(b, b.head + (gap + t)) == None
  {
    var all := b.head + (gap + t);
    assert all[|b.head|..] == gap + t;
    DropLeadingSpace(gap, t);
  }

  /** A marker that opens no block is kept. */
  lemma HeadIsKept(b: Block, rest: string)
    requires WellMarked(b) && AfterBlock(b, b.head + rest) == None
    ensures Remove(b, b.head + rest) == b.head + Remove(b, rest)
  {
    var more := b.head[1..];
    RemoveCharacter(b, b.head, rest);
    ClearWithout(b.head, more);
    RemoveSkips(b, more, rest);
    PrependAssoc(b.head[0], more, Remove(b, rest));
    assert b.head == [b.head[0]] + more;
  }

  /** A reference with another identifier is kept. */
  lemma KeepsOtherReference(gap: string, t: string)
    requires AllSpace(gap) && t != "" && !IsSpace(t[0]) && !(QR_REFERENCE.tail <= t)
    ensures Remove(QR_REFERENCE, QR_REFERENCE.head + (gap + t)) == QR_REFERENCE.head + Remove(QR_REFERENCE, gap + t)
  {
    QrReferenceWellMarked();
    StaysUnopened(QR_REFERENCE, gap, t);
    HeadIsKept(QR_REFERENCE, gap + t);
  }
}
