/**
  The text that is hashed for a ZATCA invoice (zatca-crypto.service.ts): three passes that delete
  blocks, then white-space normalisation.
*/
module ZatcaHash {
  import opened Text

  /** A pattern of applyHashTransforms: an opening, the shortest text, a closing marker.
      `Literal` opens with one marker, `Spaced` with two markers and white space between them. */
  datatype Block =
    | Literal(head: string, close: string)
    | Spaced(head: string, tail: string, close: string)

  const EXTENSIONS_NAME := "ext:UBLExtensions"
  const REFERENCE_NAME := "cac:AdditionalDocumentReference"
  const SIGNATURE_NAME := "cac:Signature"

  function OpenTag(name: string): string { "<" + name + ">" }

  function CloseTag(name: string): string { "</" + name + ">" }

  /** The first pattern does not name the end of the opening tag, which may carry attributes. */
  const EXTENSIONS := Literal("<" + EXTENSIONS_NAME, CloseTag(EXTENSIONS_NAME))
  const QR_REFERENCE := Spaced(OpenTag(REFERENCE_NAME), "<cbc:ID>QR</cbc:ID>", CloseTag(REFERENCE_NAME))
  const SIGNATURE := Literal(OpenTag(SIGNATURE_NAME), CloseTag(SIGNATURE_NAME))

  /** What follows an opening that matches at the start of s. */
  function AfterOpen(b: Block, s: string): (r: Option<string>)
    ensures r.Some? ==> |r.value| + |b.head| <= |s|
  {
    if !(b.head <= s) then None
    else if b.Literal? then Some(s[|b.head|..])
    else
      var t := DropSpace(s[|b.head|..]);
      if b.tail <= t then Some(t[|b.tail|..]) else None
  }

  /** What follows the first occurrence of a closing marker. */
  function AfterClose(close: string, s: string): (r: Option<string>)
    ensures r.Some? ==> |r.value| + |close| <= |s|
  {
    if close <= s then Some(s[|close|..])
    else if s == "" then None
    else AfterClose(close, s[1..])
  }

  /** What follows a whole block that starts at the start of s. */
  function AfterBlock(b: Block, s: string): (r: Option<string>)
    ensures r.Some? ==> |r.value| + |b.close| + |b.head| <= |s|
  {
    match AfterOpen(b, s)
    case None => None
    case Some(t) => AfterClose(b.close, t)
  }

  /** `s.replace(pattern, '')` with the global flag. */
  function Remove(b: Block, s: string): (r: string)
    requires b.head != ""
    decreases |s|
  {
    if s == "" then ""
    else match AfterBlock(b, s)
      case Some(t) => Remove(b, t)
      case None => [s[0]] + Remove(b, s[1..])
  }

  function StripBy(a: Block, b: Block, c: Block, s: string): string
    requires a.head != "" && b.head != "" && c.head != ""
  {
    Remove(c, Remove(b, Remove(a, s)))
  }

  function Strip(s: string): string {
    StripBy(EXTENSIONS, QR_REFERENCE, SIGNATURE, s)
  }

  /** Trim the end of every line and drop the lines that become empty. */
  function Clean(lines: seq<string>): seq<string>
  {
    if lines == [] then []
    else
      var line := TrimEnd(lines[0]);
      (if line == "" then [] else [line]) + Clean(lines[1..])
  }

  function Normalize(s: string): string {
    JoinLines(Clean(Lines(s)))
  }

  /** The text that SHA-256 is applied to. */
  function HashInput(xml: string): string {
    Normalize(Strip(xml))
  }

  /** applyHashTransforms, pass by pass. */
  method ApplyHashTransforms(xml: string) returns (result: string)
    ensures result == HashInput(xml)
  {
    result := xml;
    result := Remove(EXTENSIONS, result);
    result := Remove(QR_REFERENCE, result);
    result := Remove(SIGNATURE, result);
    result := JoinLines(Clean(Lines(result)));
  }

  // ---------------------------------------------------------------- deleting blocks

  /** What the proofs use about the markers: both start with '<' and have no other '<' (the second
      marker of a spaced opening is checked where it is needed), and '>' can only be their last
      character. */
  ghost predicate WellMarked(b: Block) {
    && Marker(b.head) && Marker(b.close)
    && b.close[|b.close| - 1] == '>'
    && (b.Spaced? ==> b.tail != "" && b.tail[0] == '<' && b.head[|b.head| - 1] == '>')
  }

  ghost predicate Marker(m: string) {
    && m != "" && m[0] == '<'
    && (forall k :: 1 <= k < |m| ==> m[k] != '<')
    && (forall k :: 0 <= k < |m| - 1 ==> m[k] != '>' && !IsSpace(m[k]))
  }

  ghost predicate PlainName(name: string) {
    forall c <- name :: c != '<' && c != '>' && !IsSpace(c)
  }

  lemma TagIsMarker(lead: string, name: string, last: string)
    requires lead == "<" || lead == "</"
    requires last == "" || last == ">"
    requires PlainName(name)
    ensures Marker(lead + name + last)
  {
    var m := lead + name + last;
    forall k | |lead| <= k < |lead| + |name| ensures m[k] in name {
      assert m[k] == name[k - |lead|];
    }
  }

  lemma ExtensionsWellMarked()
    ensures WellMarked(EXTENSIONS)
  {
    TagIsMarker("<", EXTENSIONS_NAME, "");
    TagIsMarker("</", EXTENSIONS_NAME, ">");
    assert "<" + EXTENSIONS_NAME == "<" + EXTENSIONS_NAME + "";
  }

  lemma ReferenceNameIsPlain()
    ensures PlainName(REFERENCE_NAME)
  {
  }

  lemma WellMarkedByName(b: Block, name: string)
    requires PlainName(name)
    requires b.head == OpenTag(name) && b.close == CloseTag(name)
    requires b.Spaced? ==> b.tail != "" && b.tail[0] == '<'
    ensures WellMarked(b)
  {
    TagIsMarker("<", name, ">");
    TagIsMarker("</", name, ">");
  }

  lemma QrReferenceWellMarked()
    ensures WellMarked(QR_REFERENCE)
  {
    ReferenceNameIsPlain();
    WellMarkedByName(QR_REFERENCE, REFERENCE_NAME);
  }

  lemma SignatureWellMarked()
    ensures WellMarked(SIGNATURE)
  {
    WellMarkedByName(SIGNATURE, SIGNATURE_NAME);
  }

  /** The markers as the three patterns of the code spell them. */
  lemma MarkersOfExtensions()
    ensures EXTENSIONS == Literal("<" + "ext:UBLExtensions", "</" + "ext:UBLExtensions" + ">")
  {
  }

  lemma MarkersOfReference()
    ensures QR_REFERENCE == Spaced("<" + "cac:AdditionalDocumentReference" + ">", "<cbc:ID>QR</cbc:ID>",
                                   "</" + "cac:AdditionalDocumentReference" + ">")
  {
  }

  lemma MarkersOfSignature()
    ensures SIGNATURE == Literal("<" + "cac:Signature" + ">", "</" + "cac:Signature" + ">")
  {
  }

  lemma AfterOpenSuffix(b: Block, s: string)
    ensures AfterOpen(b, s).Some? ==> SuffixOf(AfterOpen(b, s).value, s)
  {
    if b.head <= s {
      var t := s[|b.head|..];
      assert SuffixOf(t, s);
      if b.Spaced? {
        var u := DropSpace(t);
        DropSpaceSuffix(t);
        SuffixTransitive(u, t, s);
        if b.tail <= u {
          SuffixTransitive(u[|b.tail|..], u, s);
        }
      }
    }
  }

  lemma {:induction false} AfterCloseSuffix(close: string, s: string)
    ensures AfterClose(close, s).Some? ==> SuffixOf(close + AfterClose(close, s).value, s)
  {
    if close <= s {
      assert s == close + s[|close|..];
    } else if s != "" {
      AfterCloseSuffix(close, s[1..]);
    }
  }

  lemma AfterBlockSuffix(b: Block, s: string)
    ensures AfterBlock(b, s).Some? ==>
             SuffixOf(b.close + AfterBlock(b, s).value, s) && SuffixOf(AfterBlock(b, s).value, s)
  {
    if AfterBlock(b, s).Some? {
      var o, v := AfterOpen(b, s).value, AfterBlock(b, s).value;
      AfterOpenSuffix(b, s);
      AfterCloseSuffix(b.close, o);
      SuffixTransitive(b.close + v, o, s);
      SuffixTransitive(v, b.close + v, s);
    }
  }

  lemma NoBlockAt(b: Block, p: string, s: string)
    requires Clear(b.head, p) && p != ""
    ensures AfterBlock(b, p + s) == None
  {
    assert p[0..] == p;
    MismatchExtends(b.head, p, s);
  }

  lemma RemoveCharacter(b: Block, l: string, t: string)
    requires b.head != "" && l != "" && AfterBlock(b, l + t) == None
    ensures Remove(b, l + t) == [l[0]] + Remove(b, l[1..] + t)
  {
    assert (l + t)[1..] == l[1..] + t;
  }

  lemma PrependAssoc(c: char, s: string, t: string)
    ensures ([c] + s) + t == [c] + (s + t)
  {
  }

  /** Deletion passes over a text in which no block can open. */
  lemma {:induction false} RemoveSkips(b: Block, p: string, s: string)
    requires b.head != "" && Clear(b.head, p)
    ensures Remove(b, p + s) == p + Remove(b, s)
  {
    if p == "" {
      assert p + s == s;
    } else {
      NoBlockAt(b, p, s);
      RemoveCharacter(b, p, s);
      ClearTail(b.head, p, 1);
      RemoveSkips(b, p[1..], s);
      PrependAssoc(p[0], p[1..], Remove(b, s));
    }
  }

  /** The closing marker is found right behind a text in which it cannot start. */
  lemma {:induction false} CloseFoundAfter(close: string, inner: string, s: string)
    requires Clear(close, inner)
    ensures AfterClose(close, inner + s) == AfterClose(close, s)
  {
    if inner == "" {
      assert inner + s == s;
    } else {
      assert inner[0..] == inner;
      MismatchExtends(close, inner, s);
      ClearTail(close, inner, 1);
      assert (inner + s)[1..] == inner[1..] + s;
      CloseFoundAfter(close, inner[1..], s);
    }
  }

  lemma RemoveBlock(b: Block, inner: string, s: string)
    requires b.Literal? && b.head != "" && Clear(b.close, inner)
    ensures Remove(b, b.head + (inner + (b.close + s))) == Remove(b, s)
  {
    var all := b.head + (inner + (b.close + s));
    assert AfterBlock(b, all) == Some(s) by {
      assert b.head <= all;
      assert all[|b.head|..] == inner + (b.close + s);
      CloseFoundAfter(b.close, inner, b.close + s);
    }
  }

  lemma StripBySkips(a: Block, b: Block, c: Block, p: string, s: string)
    requires a.head != "" && b.head != "" && c.head != ""
    requires Clear(a.head, p) && Clear(b.head, p) && Clear(c.head, p)
    ensures StripBy(a, b, c, p + s) == p + StripBy(a, b, c, s)
  {
    RemoveSkips(a, p, s);
    RemoveSkips(b, p, Remove(a, s));
    RemoveSkips(c, p, Remove(b, Remove(a, s)));
  }

  lemma StripByRemovesFirst(a: Block, b: Block, c: Block, inner: string, s: string)
    requires a.head != "" && b.head != "" && c.head != ""
    requires a.Literal? && Clear(a.close, inner)
    ensures StripBy(a, b, c, a.head + (inner + (a.close + s))) == StripBy(a, b, c, s)
  {
    RemoveBlock(a, inner, s);
  }

  lemma TwoPassesSkip(a: Block, b: Block, p: string, s: string)
    requires a.head != "" && b.head != "" && Clear(a.head, p) && Clear(b.head, p)
    ensures Remove(b, Remove(a, p + s)) == p + Remove(b, Remove(a, s))
  {
    RemoveSkips(a, p, s);
    RemoveSkips(b, p, Remove(a, s));
  }

  lemma RemoveOwn(c: Block, inner: string, t: string)
    requires c.Literal? && c.head != "" && Clear(c.close, inner)
    ensures Remove(c, (c.head + (inner + c.close)) + t) == Remove(c, t)
  {
    assert (c.head + (inner + c.close)) + t == c.head + (inner + (c.close + t));
    RemoveBlock(c, inner, t);
  }

  lemma StripByRemovesThird(a: Block, b: Block, c: Block, inner: string, s: string)
    requires a.head != "" && b.head != "" && c.head != ""
    requires c.Literal? && Clear(c.close, inner)
    requires var block := c.head + (inner + c.close); Clear(a.head, block) && Clear(b.head, block)
    ensures StripBy(a, b, c, (c.head + (inner + c.close)) + s) == StripBy(a, b, c, s)
  {
    TwoPassesSkip(a, b, c.head + (inner + c.close), s);
    RemoveOwn(c, inner, Remove(b, Remove(a, s)));
  }

  // ---------------------------------------------------------------- lines

  lemma CleanOne(line: string)
    ensures Clean([line]) == if TrimEnd(line) == "" then [] else [TrimEnd(line)]
  {
    assert [line][1..] == [];
  }

  lemma CleanTwo(a: string, b: string)
    ensures Clean([a, b]) == Clean([a]) + Clean([b])
  {
    CleanConcat([a], [b]);
    assert [a] + [b] == [a, b];
  }

  lemma JoinLengthTwo(a: string, b: string)
    ensures JoinLength([a, b]) == |a| + |b| + 2
  {
    assert [a, b][1..] == [b];
    JoinLengthOne(b);
  }

  lemma JoinLengthOne(line: string)
    ensures JoinLength([line]) == |line| + 1
  {
    assert [line][1..] == [];
  }

  lemma {:induction false} CleanConcat(a: seq<string>, b: seq<string>)
    ensures Clean(a + b) == Clean(a) + Clean(b)
  {
    if a == [] {
      assert a + b == b;
    } else {
      assert (a + b)[1..] == a[1..] + b;
      CleanConcat(a[1..], b);
    }
  }

  function JoinLength(lines: seq<string>): nat {
    if lines == [] then 0 else |lines[0]| + 1 + JoinLength(lines[1..])
  }

  lemma {:induction false} JoinLengthConcat(a: seq<string>, b: seq<string>)
    ensures JoinLength(a + b) == JoinLength(a) + JoinLength(b)
  {
    if a == [] {
      assert a + b == b;
    } else {
      assert (a + b)[1..] == a[1..] + b;
      JoinLengthConcat(a[1..], b);
    }
  }

  lemma JoinLinesLength(lines: seq<string>)
    requires lines != []
    ensures |JoinLines(lines)| == JoinLength(lines) - 1
  {
    if |lines| > 1 {
      JoinLinesLength(lines[1..]);
    } else {
      assert lines[1..] == [];
    }
  }

  /** Two texts whose lines differ only in the middle: their normal forms are equal when the kept
      middle lines are, and they differ in length by as much as the kept middle lines do. */
  lemma NormalizeByMiddle(s: string, t: string, before: seq<string>, x: seq<string>, y: seq<string>, after: seq<string>)
    requires Lines(s) == before + x + after && Lines(t) == before + y + after
    requires Clean(x) != [] && Clean(y) != []
    ensures Clean(x) == Clean(y) ==> Normalize(s) == Normalize(t)
    ensures |Normalize(s)| - |Normalize(t)| == JoinLength(Clean(x)) - JoinLength(Clean(y))
  {
    forall m | m == x || m == y
      ensures Clean(before + m + after) == Clean(before) + Clean(m) + Clean(after)
      ensures JoinLength(Clean(before + m + after)) ==
             JoinLength(Clean(before)) + JoinLength(Clean(m)) + JoinLength(Clean(after))
    {
      CleanConcat(before + m, after);
      CleanConcat(before, m);
      JoinLengthConcat(Clean(before) + Clean(m), Clean(after));
      JoinLengthConcat(Clean(before), Clean(m));
    }
    JoinLinesLength(Clean(Lines(s)));
    JoinLinesLength(Clean(Lines(t)));
  }

  /** Kept lines are trimmed, visible and unbroken. */
  ghost predicate AreClean(lines: seq<string>) {
    forall i :: 0 <= i < |lines| ==> lines[i] != "" && TrimEnd(lines[i]) == lines[i] && '\n' !in lines[i]
  }

  lemma {:induction false} TrimEndTwice(s: string)
    ensures TrimEnd(TrimEnd(s)) == TrimEnd(s)
  {
    if s != "" && IsSpace(s[|s| - 1]) {
      TrimEndTwice(s[..|s| - 1]);
    }
  }

  lemma {:induction false} LinesAreUnbroken(s: string)
    ensures forall l <- Lines(s) :: '\n' !in l
  {
    if s != "" {
      LinesAreUnbroken(s[1..]);
    }
  }

  lemma {:induction false} CleanAreClean(lines: seq<string>)
    requires forall l <- lines :: '\n' !in l
    ensures AreClean(Clean(lines))
  {
    if lines != [] {
      CleanAreClean(lines[1..]);
      TrimEndTwice(lines[0]);
      assert lines[0] in lines;
    }
  }

  lemma {:induction false} CleanOfClean(lines: seq<string>)
    requires AreClean(lines)
    ensures Clean(lines) == lines
  {
    if lines != [] {
      CleanOfClean(lines[1..]);
      assert lines == [lines[0]] + lines[1..];
    }
  }

  lemma {:induction false} LinesOfUnbroken(l: string)
    requires '\n' !in l
    ensures Lines(l) == [l]
  {
    if l != "" {
      LinesOfUnbroken(l[1..]);
      assert [l[0]] + l[1..] == l;
    }
  }

  /** Splitting undoes joining. */
  lemma {:induction false} LinesOfJoin(lines: seq<string>)
    requires lines != [] && AreClean(lines)
    ensures Lines(JoinLines(lines)) == lines
  {
    LinesOfUnbroken(lines[0]);
    if |lines| > 1 {
      var rest := JoinLines(lines[1..]);
      LinesOfJoin(lines[1..]);
      LinesOfConcat(lines[0], "\n" + rest);
      assert ("\n" + rest)[1..] == rest;
      assert lines[0] + ("\n" + rest) == JoinLines(lines);
      assert lines[0] + "" == lines[0];
      assert lines == [lines[0]] + lines[1..];
    } else {
      assert lines == [lines[0]];
    }
  }

  /** The normal form is one: its lines are exactly the trimmed visible lines of the text, and
      normalising again changes nothing. */
  lemma NormalForm(s: string)
    ensures Clean(Lines(s)) != [] ==> Lines(Normalize(s)) == Clean(Lines(s))
    ensures Clean(Lines(s)) == [] ==> Normalize(s) == ""
    ensures Normalize(Normalize(s)) == Normalize(s)
  {
    LinesAreUnbroken(s);
    CleanAreClean(Lines(s));
    if Clean(Lines(s)) != [] {
      LinesOfJoin(Clean(Lines(s)));
      CleanOfClean(Clean(Lines(s)));
    } else {
      assert Clean([""]) == [];
    }
  }
}
