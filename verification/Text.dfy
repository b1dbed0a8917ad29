/**
  String operations that the JavaScript code takes from its run-time library: white space as in the
  regular-expression class `\s` and in `trim` (sections 12.2 and 12.3 of ECMA-262), splitting on a
  newline, joining, and finding a marker.  Searches work on suffixes: "match here, or move on one
  character" is what the regular-expression engine does.
*/
module Text {

  datatype Option<+T> = None | Some(value: T)

  predicate IsSpace(c: char) {
    || '\t' <= c <= '\r' || c == ' ' || c == '\U{A0}' || c == '\U{1680}' || '\U{2000}' <= c <= '\U{200A}'
    || c == '\U{2028}' || c == '\U{2029}' || c == '\U{202F}' || c == '\U{205F}' || c == '\U{3000}'
    || c == '\U{FEFF}'
  }

  /** The code points of white space and of line terminators. */
  lemma SpaceCodes(c: char)
    ensures var n := c as int;
            IsSpace(c) <==>
            || 9 <= n <= 13 || n == 32 || n == 160 || n == 5760 || 8192 <= n <= 8202
            || n == 8232 || n == 8233 || n == 8239 || n == 8287 || n == 12288 || n == 65279
  {
  }

  predicate AllSpace(s: string) {
    forall c <- s :: IsSpace(c)
  }

  function DropSpace(s: string): (r: string)
    ensures |r| <= |s|
    ensures r == "" || !IsSpace(r[0])
  {
    if s != "" && IsSpace(s[0]) then DropSpace(s[1..]) else s
  }

  function TrimEnd(s: string): (r: string)
    ensures r <= s
    ensures r == "" <==> AllSpace(s)
  {
    if s == "" then ""
    else if IsSpace(s[|s| - 1]) then
      assert s == s[..|s| - 1] + [s[|s| - 1]];
      TrimEnd(s[..|s| - 1])
    else
      assert s[|s| - 1] in s;
      s
  }

  /** `s.split('\n')`: always at least one line. */
  function Lines(s: string): (r: seq<string>)
    ensures r != []
  {
    if s == "" then [""]
    else
      var rest := Lines(s[1..]);
      if s[0] == '\n' then [""] + rest else [[s[0]] + rest[0]] + rest[1..]
  }

  /** `lines.join('\n')` */
  function JoinLines(lines: seq<string>): string {
    if |lines| == 0 then ""
    else if |lines| == 1 then lines[0]
    else lines[0] + "\n" + JoinLines(lines[1..])
  }

  /** t is what is left of s behind some prefix. */
  ghost predicate SuffixOf(t: string, s: string) {
    |t| <= |s| && t == s[|s| - |t|..]
  }

  lemma SuffixTransitive(u: string, t: string, s: string)
    requires SuffixOf(u, t) && SuffixOf(t, s)
    ensures SuffixOf(u, s)
  {
  }

  lemma {:induction false} DropSpaceSuffix(s: string)
    ensures SuffixOf(DropSpace(s), s)
  {
    if s != "" && IsSpace(s[0]) {
      DropSpaceSuffix(s[1..]);
    }
  }

  /** What trimming takes away is white space, and what it leaves does not end, or begin, in any. */
  lemma {:induction false} TrimEndIsExact(s: string)
    ensures var r := TrimEnd(s);
            r <= s && AllSpace(s[|r|..]) && (r != "" ==> !IsSpace(r[|r| - 1]))
  {
    if s != "" && IsSpace(s[|s| - 1]) {
      var front := s[..|s| - 1];
      TrimEndIsExact(front);
      assert s[|TrimEnd(front)|..] == front[|TrimEnd(front)|..] + [s[|s| - 1]];
    }
  }

  lemma {:induction false} DropSpaceIsExact(s: string)
    ensures var r := DropSpace(s);
            SuffixOf(r, s) && AllSpace(s[..|s| - |r|]) && (r != "" ==> !IsSpace(r[0]))
  {
    DropSpaceSuffix(s);
    if s != "" && IsSpace(s[0]) {
      var t := s[1..];
      DropSpaceIsExact(t);
      assert s[..|s| - |DropSpace(t)|] == [s[0]] + t[..|t| - |DropSpace(t)|];
    }
  }

  /** p and s differ at a position both have, so p is no prefix of s nor of anything s begins. */
  ghost predicate Mismatch(p: string, s: string) {
    exists k :: 0 <= k < |p| && k < |s| && p[k] != s[k]
  }

  /** No occurrence of p starts inside s, whatever text follows s. */
  ghost predicate Clear(p: string, s: string) {
    forall i :: 0 <= i < |s| ==> Mismatch(p, s[i..])
  }

  predicate Contains(p: string, s: string) {
    p <= s || (s != "" && Contains(p, s[1..]))
  }

  lemma MismatchExtends(p: string, s: string, t: string)
    requires Mismatch(p, s)
    ensures !(p <= s + t)
    ensures Mismatch(p, s + t)
  {
    var k :| 0 <= k < |p| && k < |s| && p[k] != s[k];
    assert (s + t)[k] == s[k];
  }

  lemma ClearTail(p: string, s: string, n: nat)
    requires Clear(p, s) && n <= |s|
    ensures Clear(p, s[n..])
  {
    forall i | 0 <= i < |s[n..]| ensures Mismatch(p, s[n..][i..]) {
      assert s[n..][i..] == s[n + i..];
    }
  }

  lemma ClearConcat(p: string, s: string, t: string)
    requires Clear(p, s) && Clear(p, t)
    ensures Clear(p, s + t)
  {
    forall i | 0 <= i < |s + t| ensures Mismatch(p, (s + t)[i..]) {
      if i < |s| {
        assert (s + t)[i..] == s[i..] + t;
        MismatchExtends(p, s[i..], t);
      } else {
        assert (s + t)[i..] == t[i - |s|..];
      }
    }
  }

  /** A text without the first character of p. */
  lemma ClearWithout(p: string, s: string)
    requires p != "" && p[0] !in s
    ensures Clear(p, s)
  {
    forall i | 0 <= i < |s| ensures Mismatch(p, s[i..]) {
      assert s[i..][0] == s[i];
      assert p[0] != s[i];
    }
  }

  lemma {:induction false} ContainsSomewhere(p: string, s: string, i: nat)
    requires i <= |s| && p <= s[i..]
    ensures Contains(p, s)
  {
    if i > 0 {
      assert s[1..][i - 1..] == s[i..];
      ContainsSomewhere(p, s[1..], i - 1);
    }
  }

  lemma {:induction false} ClearExcludes(p: string, s: string)
    requires p != "" && Clear(p, s)
    ensures !Contains(p, s)
  {
    if s != "" {
      assert s[0..] == s && s + "" == s;
      MismatchExtends(p, s, "");
      ClearTail(p, s, 1);
      ClearExcludes(p, s[1..]);
    }
  }

  /** A text that does not contain p is clear of p as soon as its last character can only be the
      last character of p: no occurrence can then straddle its end. */
  lemma ClearFromAbsence(p: string, s: string)
    requires !Contains(p, s)
    requires s != "" && s[|s| - 1] !in p[..if p == "" then 0 else |p| - 1]
    ensures Clear(p, s)
  {
    forall i | 0 <= i < |s| ensures Mismatch(p, s[i..]) {
      if p <= s[i..] {
        ContainsSomewhere(p, s, i);
      } else if |p| > |s| - i {
        var k := |s| - 1 - i;
        assert p[k] == p[..|p| - 1][k];
        assert s[i..][k] == s[|s| - 1];
      } else {
        assert p != s[i..][..|p|];
      }
    }
  }

  /** Two line lists, the last line of one continued by the first line of the other. */
  function Glue(x: seq<string>, y: seq<string>): (r: seq<string>)
    requires x != [] && y != []
    ensures r != []
  {
    x[..|x| - 1] + [x[|x| - 1] + y[0]] + y[1..]
  }

  lemma {:induction false} LinesOfConcat(a: string, b: string)
    ensures Lines(a + b) == Glue(Lines(a), Lines(b))
  {
    if a == "" {
      assert a + b == b;
      assert "" + Lines(b)[0] == Lines(b)[0];
    } else {
      LinesOfConcat(a[1..], b);
      assert (a + b)[1..] == a[1..] + b;
      GlueStep(a[0], Lines(a[1..]), Lines(b));
    }
  }

  lemma GlueStep(c: char, x: seq<string>, y: seq<string>)
    requires x != [] && y != []
    ensures [""] + Glue(x, y) == Glue([""] + x, y)
    ensures [[c] + Glue(x, y)[0]] + Glue(x, y)[1..] == Glue([[c] + x[0]] + x[1..], y)
  {
    var x' := [[c] + x[0]] + x[1..];
    if |x| == 1 {
      assert x'[0] + y[0] == [c] + (x[0] + y[0]);
    } else {
      assert x'[..|x| - 1] == [[c] + x[0]] + x[1..|x| - 1];
    }
  }

  /** The last line of a text that ends in a character other than a newline ends in it too. */
  lemma {:induction false} LastLineEnd(a: string)
    requires a != "" && a[|a| - 1] != '\n'
    ensures var p := Lines(a)[|Lines(a)| - 1]; p != "" && p[|p| - 1] == a[|a| - 1]
  {
    if |a| > 1 {
      LastLineEnd(a[1..]);
    } else {
      assert a[1..] == "";
    }
  }

  lemma TrimEndPrefix(a: string, b: string)
    requires a != "" && !IsSpace(a[|a| - 1])
    ensures TrimEnd(a + b) == a + TrimEnd(b)
  {
    if b == "" {
      assert a + b == a;
    } else {
      assert (a + b)[..|a + b| - 1] == a + b[..|b| - 1];
      if IsSpace(b[|b| - 1]) {
        TrimEndPrefix(a, b[..|b| - 1]);
      }
    }
  }

  lemma TrimEndBlankPrefix(a: string, b: string)
    requires AllSpace(a)
    ensures TrimEnd(a + b) == if TrimEnd(b) == "" then "" else a + TrimEnd(b)
  {
    if b == "" {
      assert a + b == a;
    } else {
      assert (a + b)[..|a + b| - 1] == a + b[..|b| - 1];
      if IsSpace(b[|b| - 1]) {
        TrimEndBlankPrefix(a, b[..|b| - 1]);
      }
    }
  }
}
