/**
  Text inserted at a point of a document, and a deletion pass over both: either a deleted block
  covers the point, and the pass forgets the insertion, or the insertion is there after the pass.
*/
module ZatcaSplice {
  import opened Text
  import opened ZatcaHash

  predicate EndsInGt(l: string) {
    l != "" && l[|l| - 1] == '>'
  }

  /** The document is l + r.  None: a deleted block covers the point between l and r.  Otherwise
      what a pass makes of l; it makes Remove(b, r) of r. */
  function CutAt(b: Block, l: string, r: string): Option<string>
    requires b.head != ""
    decreases |l|
  {
    if l == "" then Some("")
    else match AfterBlock(b, l + r)
      case Some(t) =>
        if |t| < |r| then None else CutAt(b, t[..|t| - |r|], r)
      case None =>
        match CutAt(b, l[1..], r)
        case None => None
        case Some(l') => Some([l[0]] + l')
  }

  /** A deleted block covers the point between l and r. */
  predicate Covered(b: Block, l: string, r: string)
    requires b.head != ""
  {
    CutAt(b, l, r).None?
  }

  /** No opening of b can begin in a text that ends in '>' and be completed by t. */
  ghost predicate CannotComplete(b: Block, t: string) {
    b.Spaced? ==>
      && !(b.tail <= DropSpace(t))
      && forall k :: 0 < k < |b.tail| && b.tail[k - 1] == '>' ==> !(b.tail[k..] <= t)
  }

  function Append(o: Option<string>, t: string): Option<string> {
    match o
    case None => None
    case Some(v) => Some(v + t)
  }

  /** A marker at the start of l + t lies within l when l ends in '>'. */
  lemma MarkerWithin(m: string, l: string, t: string)
    requires Marker(m) && EndsInGt(l)
    ensures m <= l + t <==> m <= l
  {
    assert (l + t)[|l| - 1] == '>';
    assert |m| <= |l| ==> (l + t)[..|m|] == l[..|m|];
  }

  lemma DropSpaceConcat(o: string, t: string)
    requires EndsInGt(o)
    ensures EndsInGt(DropSpace(o)) && DropSpace(o + t) == DropSpace(o) + t
  {
    if IsSpace(o[0]) {
      assert (o + t)[1..] == o[1..] + t;
      DropSpaceConcat(o[1..], t);
    }
  }

  lemma OpenWithin(b: Block, l: string, t: string)
    requires WellMarked(b) && EndsInGt(l) && CannotComplete(b, t)
    ensures AfterOpen(b, l + t) == Append(AfterOpen(b, l), t)
  {
    MarkerWithin(b.head, l, t);
    if b.head <= l {
      var o := l[|b.head|..];
      assert (l + t)[|b.head|..] == o + t;
      if b.Spaced? {
        if o == "" {
          assert o + t == t;
        } else {
          DropSpaceConcat(o, t);
          TailWithin(b, DropSpace(o), t);
        }
      }
    }
  }

  lemma TailWithin(b: Block, o: string, t: string)
    requires b.Spaced? && EndsInGt(o) && CannotComplete(b, t)
    ensures b.tail <= o + t <==> b.tail <= o
    ensures b.tail <= o ==> (o + t)[|b.tail|..] == o[|b.tail|..] + t
  {
    assert (o + t)[|o|..] == t && (o + t)[|o| - 1] == '>';
    if |b.tail| <= |o| {
      assert (o + t)[..|b.tail|] == o[..|b.tail|];
    } else {
      assert b.tail[|o| - 1] == '>' ==> !(b.tail[|o|..] <= t);
      assert forall k :: 0 <= k < |b.tail| - |o| && k < |t| ==>
            b.tail[|o|..][k] == b.tail[|o| + k] && t[k] == (o + t)[|o| + k];
    }
  }

  lemma {:induction false} CloseWithin(close: string, o: string, t: string)
    requires Marker(close) && (o == "" || EndsInGt(o))
    ensures AfterClose(close, o + t) ==
            if AfterClose(close, o).Some? then Append(AfterClose(close, o), t) else AfterClose(close, t)
  {
    if o == "" {
      assert o + t == t;
    } else {
      MarkerWithin(close, o, t);
      if close <= o {
        assert (o + t)[|close|..] == o[|close|..] + t;
      } else {
        assert (o + t)[1..] == o[1..] + t;
        CloseWithin(close, o[1..], t);
      }
    }
  }

  /** How a block that may start at the start of l relates to l. */
  datatype Reach = NoBlock | Ends(rest: string) | Crosses

  function ReachOf(b: Block, l: string): Reach {
    match AfterOpen(b, l)
    case None => NoBlock
    case Some(o) =>
      match AfterClose(b.close, o)
      case None => Crosses
      case Some(v) => Ends(v)
  }

  lemma ReachSuffix(b: Block, l: string)
    requires b.head != "" && EndsInGt(l) && ReachOf(b, l).Ends?
    ensures var v := ReachOf(b, l).rest;
            |v| < |l| && SuffixOf(v, l) && (v == "" || EndsInGt(v))
  {
    var o := AfterOpen(b, l).value;
    AfterOpenSuffix(b, l);
    AfterCloseSuffix(b.close, o);
    SuffixTransitive(b.close + AfterClose(b.close, o).value, o, l);
  }

  /** A block that crosses the end of l ends at the first closing marker behind it. */
  lemma BlockOver(b: Block, l: string, t: string)
    requires WellMarked(b) && EndsInGt(l) && CannotComplete(b, t)
    ensures AfterBlock(b, l + t) == match ReachOf(b, l) {
                                      case NoBlock => None
                                      case Ends(v) => Some(v + t)
                                      case Crosses => AfterClose(b.close, t)
                                    }
  {
    OpenWithin(b, l, t);
    AfterOpenSuffix(b, l);
    if AfterOpen(b, l).Some? {
      CloseWithin(b.close, AfterOpen(b, l).value, t);
    }
  }

  /** The pieces a pass makes of l and r, put together, are what it makes of l + r. */
  ghost predicate Sound(b: Block, l: string, r: string)
    requires b.head != ""
  {
    CutAt(b, l, r).Some? ==> Remove(b, l + r) == CutAt(b, l, r).value + Remove(b, r)
  }

  /** A block at the start of l + r that ends within l leaves the suffix v of l. */
  lemma EndsWithin(b: Block, l: string, r: string) returns (v: string)
    requires b.head != "" && AfterBlock(b, l + r).Some? && |AfterBlock(b, l + r).value| >= |r|
    ensures |v| < |l| && SuffixOf(v, l) && AfterBlock(b, l + r) == Some(v + r)
  {
    var t := AfterBlock(b, l + r).value;
    AfterBlockSuffix(b, l + r);
    v := l[|l| + |r| - |t|..];
    SuffixThrough(t, l, r);
  }

  lemma SuffixThrough(t: string, l: string, r: string)
    requires SuffixOf(t, l + r) && |t| >= |r|
    ensures t == l[|l| + |r| - |t|..] + r
  {
  }

  lemma CutBehindBlock(b: Block, l: string, v: string, r: string)
    requires b.head != "" && |v| < |l| && AfterBlock(b, l + r) == Some(v + r)
    ensures CutAt(b, l, r) == CutAt(b, v, r)
  {
    assert (v + r)[..|v|] == v;
  }

  lemma CutBehindCharacter(b: Block, l: string, r: string)
    requires b.head != "" && l != "" && AfterBlock(b, l + r) == None
    ensures CutAt(b, l, r) == Prepend(l[0], CutAt(b, l[1..], r))
  {
  }

  function Prepend(c: char, o: Option<string>): Option<string> {
    match o
    case None => None
    case Some(v) => Some([c] + v)
  }

  lemma RemoveBehindBlock(b: Block, s: string, t: string)
    requires b.head != "" && AfterBlock(b, s) == Some(t)
    ensures Remove(b, s) == Remove(b, t)
  {
  }

  lemma {:induction false} CutSound(b: Block, l: string, r: string)
    requires b.head != ""
    ensures Sound(b, l, r)
    decreases |l|
  {
    if l == "" {
      assert l + r == r && "" + Remove(b, r) == Remove(b, r);
    } else if AfterBlock(b, l + r) == None {
      CutSound(b, l[1..], r);
      SoundAtCharacter(b, l, r);
    } else if |AfterBlock(b, l + r).value| >= |r| {
      var v := EndsWithin(b, l, r);
      CutSound(b, v, r);
      CutBehindBlock(b, l, v, r);
      RemoveBehindBlock(b, l + r, v + r);
    }
  }

  lemma SoundAtCharacter(b: Block, l: string, r: string)
    requires b.head != "" && l != "" && AfterBlock(b, l + r) == None
    requires Sound(b, l[1..], r)
    ensures Sound(b, l, r)
  {
    CutBehindCharacter(b, l, r);
    RemoveCharacter(b, l, r);
    if CutAt(b, l[1..], r).Some? {
      PrependAssoc(l[0], CutAt(b, l[1..], r).value, Remove(b, r));
    }
  }

  /** A pass over l + q + r is the pass over l + r with q still in its place, or without q when a
      deleted block covers that place. */
  ghost predicate Commutes(b: Block, l: string, q: string, r: string)
    requires b.head != ""
  {
    match CutAt(b, l, r)
    case None => Remove(b, l + (q + r)) == Remove(b, l + r)
    case Some(l') => Remove(b, l + (q + r)) == l' + (q + Remove(b, r))
  }

  lemma CommutesAtCharacter(b: Block, l: string, q: string, r: string)
    requires b.head != "" && l != ""
    requires AfterBlock(b, l + r) == None && AfterBlock(b, l + (q + r)) == None
    requires Commutes(b, l[1..], q, r)
    ensures Commutes(b, l, q, r)
  {
    CutBehindCharacter(b, l, r);
    RemoveCharacter(b, l, r);
    RemoveCharacter(b, l, q + r);
    var c := CutAt(b, l[1..], r);
    if c.Some? {
      PrependAssoc(l[0], c.value, q + Remove(b, r));
    }
  }

  lemma CommutesAtBlock(b: Block, l: string, v: string, q: string, r: string)
    requires b.head != "" && |v| < |l| && SuffixOf(v, l)
    requires AfterBlock(b, l + r) == Some(v + r) && AfterBlock(b, l + (q + r)) == Some(v + (q + r))
    requires Commutes(b, v, q, r)
    ensures Commutes(b, l, q, r)
  {
    CutBehindBlock(b, l, v, r);
    RemoveBehindBlock(b, l + r, v + r);
    RemoveBehindBlock(b, l + (q + r), v + (q + r));
  }

  /** Inserting q between l and r commutes with a deletion pass, or the pass forgets q. */
  lemma {:induction false} InsertThenRemove(b: Block, l: string, q: string, r: string)
    requires WellMarked(b) && (l == "" || EndsInGt(l)) && '<' !in q
    requires CannotComplete(b, r) && CannotComplete(b, q + r)
    ensures Commutes(b, l, q, r)
    decreases |l|
  {
    ClearWithout(b.head, q);
    ClearWithout(b.close, q);
    if l == "" {
      assert l + (q + r) == q + r;
      assert l + (q + Remove(b, r)) == q + Remove(b, r);
      RemoveSkips(b, q, r);
    } else {
      BlockOver(b, l, r);
      BlockOver(b, l, q + r);
      CloseFoundAfter(b.close, q, r);
      if ReachOf(b, l).Ends? {
        var v := ReachOf(b, l).rest;
        ReachSuffix(b, l);
        InsertThenRemove(b, v, q, r);
        CommutesAtBlock(b, l, v, q, r);
      } else if AfterBlock(b, l + r) == None {
        InsertThenRemove(b, l[1..], q, r);
        CommutesAtCharacter(b, l, q, r);
      } else {
        assert |AfterBlock(b, l + r).value| < |r|;
      }
    }
  }

  // ---------------------------------------------------------------- text that a pass leaves whole

  function PutBefore(k: string, o: Option<string>): Option<string> {
    match o
    case None => None
    case Some(v) => Some(k + v)
  }

  /** Text in which no block opens stays in front of what a pass makes of the rest. */
  lemma {:induction false} CutPrefix(b: Block, k: string, l: string, r: string)
    requires b.head != "" && Clear(b.head, k)
    ensures CutAt(b, k + l, r) == PutBefore(k, CutAt(b, l, r))
  {
    if k == "" {
      assert k + l == l;
      assert CutAt(b, l, r).Some? ==> k + CutAt(b, l, r).value == CutAt(b, l, r).value;
    } else {
      assert (k + l)[1..] == k[1..] + l && k + l + r == k + (l + r);
      NoBlockAt(b, k, l + r);
      CutBehindCharacter(b, k + l, r);
      ClearTail(b.head, k, 1);
      CutPrefix(b, k[1..], l, r);
      if CutAt(b, l, r).Some? {
        PrependAssoc(k[0], k[1..], CutAt(b, l, r).value);
        assert [k[0]] + k[1..] == k;
      }
    }
  }

  /** No opening and no closing marker of b starts in k, whatever follows k. */
  ghost predicate Untouched(b: Block, k: string) {
    Clear(b.head, k) && Clear(b.close, k)
  }

  lemma {:induction false} CutSkips(b: Block, k: string, r: string)
    requires b.head != "" && Clear(b.head, k)
    ensures CutAt(b, k, r) == Some(k)
  {
    if k != "" {
      assert k[0..] == k && k == [k[0]] + k[1..];
      MismatchExtends(b.head, k, r);
      ClearTail(b.head, k, 1);
      CutSkips(b, k[1..], r);
    }
  }

  lemma SuffixOfSuffix(k: string, v: string, l: string)
    requires SuffixOf(k, l) && SuffixOf(v, l) && |k| <= |v|
    ensures SuffixOf(k, v)
  {
  }

  /** A closing marker in l + r does not end inside k, the end of l. */
  lemma BlockEndsOutside(b: Block, l: string, k: string, r: string, t: string)
    requires WellMarked(b) && SuffixOf(k, l) && k != "" && k[0] == '<' && Clear(b.close, k)
    requires SuffixOf(b.close + t, l + r)
    ensures |t| < |r| || |t| >= |r| + |k|
  {
    var s, o := l + r, |l| - |k|;
    var p := |s| - |b.close + t|;
    forall j | o <= j < |l| ensures !(b.close <= s[j..]) {
      assert s[j..] == k[j - o..] + r;
      MismatchExtends(b.close, k[j - o..], r);
    }
    assert s[p..] == b.close + t;
    assert s[o] == k[0] == '<';
    assert forall j :: 0 <= j < |b.close| ==> s[p + j] == b.close[j];
  }

  /** A block at the start of l + r that ends within l leaves k at its end. */
  lemma BlockLeavesK(b: Block, l: string, k: string, r: string) returns (v: string)
    requires WellMarked(b) && SuffixOf(k, l) && k != "" && k[0] == '<' && Clear(b.close, k)
    requires AfterBlock(b, l + r).Some? && |AfterBlock(b, l + r).value| >= |r|
    ensures |v| < |l| && SuffixOf(k, v) && SuffixOf(v, l) && AfterBlock(b, l + r) == Some(v + r)
  {
    v := EndsWithin(b, l, r);
    AfterBlockSuffix(b, l + r);
    BlockEndsOutside(b, l, k, r, v + r);
    SuffixOfSuffix(k, v, l);
  }

  /** If the point behind k survives a pass, all of k does. */
  lemma {:induction false} CutKeeps(b: Block, l: string, k: string, r: string)
    requires WellMarked(b) && SuffixOf(k, l) && k != "" && k[0] == '<' && Untouched(b, k)
    ensures CutAt(b, l, r).Some? ==> SuffixOf(k, CutAt(b, l, r).value)
    decreases |l|
  {
    if l == k {
      CutSkips(b, k, r);
    } else if AfterBlock(b, l + r) == None {
      SuffixOfSuffix(k, l[1..], l);
      CutKeeps(b, l[1..], k, r);
      CutBehindCharacter(b, l, r);
      if CutAt(b, l[1..], r).Some? {
        var l' := CutAt(b, l[1..], r).value;
        SuffixTransitive(k, l', [l[0]] + l');
      }
    } else if |AfterBlock(b, l + r).value| >= |r| {
      var v := BlockLeavesK(b, l, k, r);
      CutKeeps(b, v, k, r);
      CutBehindBlock(b, l, v, r);
    }
  }

  /** A block that opens at the start of m and is closed behind it covers the point behind m. */
  lemma CutAtOpening(b: Block, m: string, r: string)
    requires WellMarked(b) && EndsInGt(m) && Clear(b.close, m)
    requires AfterOpen(b, m).Some? && CannotComplete(b, r) && AfterClose(b.close, r).Some?
    ensures Covered(b, m, r)
  {
    var o := AfterOpen(b, m).value;
    assert AfterClose(b.close, o) == None by {
      AfterOpenSuffix(b, m);
      ClearTail(b.close, m, |m| - |o|);
      CloseFoundAfter(b.close, o, "");
      assert o + "" == o;
    }
    BlockOver(b, m, r);
    assert |AfterBlock(b, m + r).value| < |r|;
  }

  /** Whatever stands before m, the point behind m stays covered. */
  lemma {:induction false} CutStaysCovered(b: Block, l: string, m: string, r: string)
    requires WellMarked(b) && SuffixOf(m, l) && m != "" && m[0] == '<' && Clear(b.close, m)
    requires Covered(b, m, r)
    ensures Covered(b, l, r)
    decreases |l|
  {
    if l == m {
    } else if AfterBlock(b, l + r) == None {
      SuffixOfSuffix(m, l[1..], l);
      CutStaysCovered(b, l[1..], m, r);
      CutBehindCharacter(b, l, r);
    } else if |AfterBlock(b, l + r).value| >= |r| {
      var v := BlockLeavesK(b, l, m, r);
      CutStaysCovered(b, v, m, r);
      CutBehindBlock(b, l, v, r);
    }
  }

  // ---------------------------------------------------------------- the normal form

  lemma TrimEndVisible(a: string, b: string)
    requires TrimEnd(b) != ""
    ensures TrimEnd(a + b) == a + TrimEnd(b)
  {
    assert (a + b)[..|a + b| - 1] == a + b[..|b| - 1];
    if IsSpace(b[|b| - 1]) {
      TrimEndVisible(a, b[..|b| - 1]);
    }
  }

  lemma TrimEndOfVisible(b: string)
    requires b != "" && !IsSpace(b[0])
    ensures TrimEnd(b) != ""
  {
    assert b[0] in b;
  }

  lemma LinesOfInsertion(l: string, q: string, r: string)
    ensures var ls, qs, rs := Lines(l), Lines(q), Lines(r);
            Lines(l + (q + r)) == ls[..|ls| - 1] + MiddleOf(ls[|ls| - 1], qs, rs[0]) + rs[1..]
  {
    LinesOfConcat(l, q + r);
    LinesOfConcat(q, r);
    GlueTwice(Lines(l), Lines(q), Lines(r));
  }

  lemma GlueTwice(x: seq<string>, y: seq<string>, z: seq<string>)
    requires x != [] && y != [] && z != []
    ensures Glue(x, Glue(y, z)) == x[..|x| - 1] + MiddleOf(x[|x| - 1], y, z[0]) + z[1..]
  {
    assert x[|x| - 1] + (y[0] + z[0]) == x[|x| - 1] + y[0] + z[0];
  }

  /** Text between a '>' and a '<' is never lost by the normal form. */
  lemma NormalizeInsertion(l: string, q: string, r: string)
    requires EndsInGt(l) && r != "" && r[0] == '<' && q != ""
    ensures |Normalize(l + (q + r))| > |Normalize(l + r)|
  {
    var ls, rs := Lines(l), Lines(r);
    var last, first := ls[|ls| - 1], rs[0];
    LinesOfConcat(l, r);
    LinesOfInsertion(l, q, r);
    LastLineEnd(l);
    assert first != "" && first[0] == '<';
    MiddleGrows(last, q, first);
    NormalizeByMiddle(l + (q + r), l + r, ls[..|ls| - 1], MiddleOf(last, Lines(q), first), [last + first], rs[1..]);
  }

  /** The lines of last + q + first. */
  function MiddleOf(last: string, qs: seq<string>, first: string): seq<string>
    requires qs != []
  {
    if |qs| == 1 then [last + qs[0] + first]
    else [last + qs[0]] + qs[1..|qs| - 1] + [qs[|qs| - 1] + first]
  }

  lemma LinesOfNonempty(q: string)
    requires q != ""
    ensures |Lines(q)| > 1 || Lines(q)[0] != ""
  {
  }

  lemma MiddleGrows(last: string, q: string, first: string)
    requires EndsInGt(last) && first != "" && first[0] == '<' && q != ""
    ensures var x, y := MiddleOf(last, Lines(q), first), [last + first];
            Clean(x) != [] && Clean(y) != [] && JoinLength(Clean(x)) > JoinLength(Clean(y))
  {
    var qs := Lines(q);
    LinesOfNonempty(q);
    TrimEndOfVisible(first);
    TrimEndVisible(last, first);
    CleanOne(last + first);
    JoinLengthOne(last + TrimEnd(first));
    if |qs| == 1 {
      TrimEndVisible(last + qs[0], first);
      CleanOne(last + qs[0] + first);
      JoinLengthOne(last + qs[0] + TrimEnd(first));
    } else {
      var end := qs[|qs| - 1];
      TrimEndPrefix(last, qs[0]);
      TrimEndVisible(end, first);
      CleanOne(last + qs[0]);
      CleanOne(end + first);
      JoinLengthOne(last + TrimEnd(qs[0]));
      JoinLengthOne(end + TrimEnd(first));
      ThreeParts([last + qs[0]], qs[1..|qs| - 1], [end + first]);
    }
  }

  lemma ThreeParts(a: seq<string>, m: seq<string>, z: seq<string>)
    ensures JoinLength(Clean(a + m + z)) >= JoinLength(Clean(a)) + JoinLength(Clean(z))
  {
    CleanConcat(a + m, z);
    CleanConcat(a, m);
    JoinLengthConcat(Clean(a) + Clean(m), Clean(z));
    JoinLengthConcat(Clean(a), Clean(m));
  }
}
