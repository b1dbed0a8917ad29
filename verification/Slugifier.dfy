/**
  What the replacement chain of generateSlug (auth.service.ts) does to a text, said without the chain:
  letters and digits survive in lower case, and one hyphen stands between two of them exactly when
  white space, an underscore or a hyphen does.  A single pass over the text computes the same.
*/
module Slugifier {
  import opened Text
  import opened Slug

  predicate IsSurvivor(c: char) {
    'a' <= c <= 'z' || 'A' <= c <= 'Z' || '0' <= c <= '9'
  }

  predicate IsSeparator(c: char) {
    IsSpace(c) || c == '_' || c == '-'
  }

  function Lowered(c: char): char {
    if 'A' <= c <= 'Z' then (c as int - 'A' as int + 'a' as int) as char else c
  }

  /** Characters outside ASCII are taken for what lower-casing makes of them. */
  function Expand(text: string, table: char -> string): string {
    if text == "" then ""
    else (if text[0] < 128 as char then [text[0]] else table(text[0])) + Expand(text[1..], table)
  }

  /** The survivors of a text, in order. */
  function Survivors(s: string): string {
    if s == "" then "" else (if IsSurvivor(s[0]) then [Lowered(s[0])] else "") + Survivors(s[1..])
  }

  predicate HasSeparator(s: string) {
    exists c <- s :: IsSeparator(c)
  }

  function WithoutHyphens(s: string): string {
    if s == "" then "" else (if s[0] == '-' then "" else [s[0]]) + WithoutHyphens(s[1..])
  }

  /** The single pass: has a survivor been seen, and a separator since the last one? */
  function Slugify(s: string, started: bool, pending: bool): string {
    if s == "" then ""
    else if IsSurvivor(s[0]) then
      (if started && pending then "-" else "") + [Lowered(s[0])] + Slugify(s[1..], true, false)
    else Slugify(s[1..], started, pending || IsSeparator(s[0]))
  }

  // ---------------------------------------------------------------- the single pass

  function StartedAfter(s: string, started: bool): bool {
    if s == "" then started else StartedAfter(s[1..], started || IsSurvivor(s[0]))
  }

  function PendingAfter(s: string, pending: bool): bool {
    if s == "" then pending else PendingAfter(s[1..], !IsSurvivor(s[0]) && (pending || IsSeparator(s[0])))
  }

  lemma {:induction false} SlugifyConcat(s: string, t: string, started: bool, pending: bool)
    ensures Slugify(s + t, started, pending) ==
            Slugify(s, started, pending) + Slugify(t, StartedAfter(s, started), PendingAfter(s, pending))
  {
    if s == "" {
      assert s + t == t;
    } else {
      assert (s + t)[1..] == s[1..] + t;
      if IsSurvivor(s[0]) {
        SlugifyConcat(s[1..], t, true, false);
        var lead := (if started && pending then "-" else "") + [Lowered(s[0])];
        PrefixAssoc(lead, Slugify(s[1..], true, false), Slugify(t, StartedAfter(s, started), PendingAfter(s, pending)));
      } else {
        SlugifyConcat(s[1..], t, started, pending || IsSeparator(s[0]));
      }
    }
  }

  lemma PrefixAssoc(a: string, b: string, c: string)
    ensures (a + b) + c == a + (b + c)
  {
  }

  /** Separators in front of the first survivor leave no trace. */
  lemma {:induction false} LeadingSeparators(s: string, pending: bool)
    ensures Slugify(s, false, pending) == Slugify(s, false, false)
  {
    if s != "" && !IsSurvivor(s[0]) {
      LeadingSeparators(s[1..], pending || IsSeparator(s[0]));
      LeadingSeparators(s[1..], IsSeparator(s[0]));
    }
  }

  lemma {:induction false} SlugifyOfNothing(s: string, started: bool, pending: bool)
    requires Survivors(s) == ""
    ensures Slugify(s, started, pending) == ""
    ensures StartedAfter(s, started) == started && PendingAfter(s, pending) == (pending || HasSeparator(s))
  {
    if s != "" {
      SlugifyOfNothing(s[1..], started, pending || IsSeparator(s[0]));
      assert HasSeparator(s) <==> IsSeparator(s[0]) || HasSeparator(s[1..]) by {
        assert s == [s[0]] + s[1..];
      }
    }
  }

  lemma HyphensOf(c: char, rest: string)
    requires c != '-'
    ensures WithoutHyphens([c] + rest) == [c] + WithoutHyphens(rest)
    ensures WithoutHyphens("-" + ([c] + rest)) == [c] + WithoutHyphens(rest)
  {
    assert ([c] + rest)[1..] == rest;
    assert ("-" + ([c] + rest))[1..] == [c] + rest;
  }

  lemma {:induction false} LoweredIsNoHyphen(s: string, started: bool, pending: bool)
    ensures WithoutHyphens(Slugify(s, started, pending)) == Survivors(s)
  {
    if s != "" {
      if IsSurvivor(s[0]) {
        var rest := Slugify(s[1..], true, false);
        LoweredIsNoHyphen(s[1..], true, false);
        HyphensOf(Lowered(s[0]), rest);
        assert "-" + [Lowered(s[0])] + rest == "-" + ([Lowered(s[0])] + rest);
        assert "" + [Lowered(s[0])] + rest == [Lowered(s[0])] + rest;
      } else {
        LoweredIsNoHyphen(s[1..], started, pending || IsSeparator(s[0]));
      }
    }
  }

  // ---------------------------------------------------------------- the stages of the chain

  lemma {:induction false} ExpandConcat(s: string, t: string, table: char -> string)
    ensures Expand(s + t, table) == Expand(s, table) + Expand(t, table)
  {
    if s == "" {
      assert s + t == t;
    } else {
      assert (s + t)[1..] == s[1..] + t;
      ExpandConcat(s[1..], t, table);
    }
  }

  lemma OneCharacter(c: char, started: bool, pending: bool)
    ensures var l: string := LowerAscii(c);
            && Slugify(l, started, pending) == Slugify([c], started, pending)
            && StartedAfter(l, started) == StartedAfter([c], started)
            && PendingAfter(l, pending) == PendingAfter([c], pending)
  {
    assert [c][1..] == "" && LowerAscii(c)[1..] == "";
  }

  function LowerAscii(c: char): (r: string)
    ensures |r| == 1
  {
    if 'A' <= c <= 'Z' then [(c as int + 32) as char] else [c]
  }

  /** Lower-casing an ASCII letter changes nothing for the pass. */
  lemma {:induction false} LowerStage(text: string, table: char -> string, started: bool, pending: bool)
    ensures Slugify(Lower(text, table), started, pending) == Slugify(Expand(text, table), started, pending)
  {
    if text != "" {
      var c := text[0];
      var l, x := LowerChar(c, table), if c < 128 as char then [c] else table(c);
      OneCharacter(c, started, pending);
      assert c < 128 as char ==> l == LowerAscii(c);
      SlugifyConcat(l, Lower(text[1..], table), started, pending);
      SlugifyConcat(x, Expand(text[1..], table), started, pending);
      LowerStage(text[1..], table, StartedAfter(x, started), PendingAfter(x, pending));
    }
  }

  lemma {:induction false} DropSpaceStage(s: string)
    ensures Slugify(DropSpace(s), false, false) == Slugify(s, false, false)
  {
    if s != "" && IsSpace(s[0]) {
      DropSpaceStage(s[1..]);
      LeadingSeparators(s[1..], true);
    }
  }

  lemma {:induction false} TrimEndStage(s: string, started: bool, pending: bool)
    ensures Slugify(TrimEnd(s), started, pending) == Slugify(s, started, pending)
  {
    if s != "" && IsSpace(s[|s| - 1]) {
      var front, last := s[..|s| - 1], s[|s| - 1..];
      TrimEndStage(front, started, pending);
      SlugifyConcat(front, last, started, pending);
      assert front + last == s && last[1..] == "";
      assert Slugify(front, started, pending) + "" == Slugify(front, started, pending);
    }
  }

  lemma {:induction false} KeepWordsStage(s: string, started: bool, pending: bool)
    ensures Slugify(KeepWords(s), started, pending) == Slugify(s, started, pending)
  {
    if s != "" {
      var rest := KeepWords(s[1..]);
      assert ([s[0]] + rest)[1..] == rest && "" + rest == rest;
      KeepWordsStage(s[1..], true, false);
      KeepWordsStage(s[1..], started, pending || IsSeparator(s[0]));
    }
  }

  /** Two replacements of runs are one. */
  lemma {:induction false} RunsStage(k: string)
    requires forall c <- k :: IsKept(c)
    ensures ReplaceRuns(IsHyphen, ReplaceRuns(IsGap, k)) == ReplaceRuns(IsSeparator, k)
    ensures ReplaceRuns(IsGap, k) == "" <==> k == ""
    ensures k != "" ==> (ReplaceRuns(IsGap, k)[0] == '-' <==> IsSeparator(k[0]))
  {
    if k != "" {
      var rest := ReplaceRuns(IsGap, k[1..]);
      RunsStage(k[1..]);
      assert k[0] in k;
      assert ("-" + rest)[1..] == rest && ([k[0]] + rest)[1..] == rest;
    }
  }

  function DropLast(s: string): string {
    if s != "" && s[|s| - 1] == '-' then s[..|s| - 1] else s
  }

  lemma DropLastBehind(c: char, s: string)
    requires s != "" || c != '-'
    ensures DropLast([c] + s) == [c] + DropLast(s)
  {
    if s != "" {
      assert ([c] + s)[|s|] == s[|s| - 1];
      assert ([c] + s)[..|s|] == [c] + s[..|s| - 1];
    }
  }

  lemma HyphenBefore(s: string)
    requires s != "" && IsSurvivor(s[0])
    ensures Slugify(s, true, true) == ['-'] + Slugify(s, true, false)
    ensures Slugify(s, true, false) == Slugify(s, false, false)
  {
    var rest := Slugify(s[1..], true, false);
    assert "-" + [Lowered(s[0])] + rest == ['-'] + ("" + [Lowered(s[0])] + rest);
  }

  /** Without the hyphen at its end, the collapsed text is what the pass writes behind a survivor. */
  lemma {:induction false} CollapsedIsPass(k: string)
    requires forall c <- k :: IsKept(c)
    ensures DropLast(ReplaceRuns(IsSeparator, k)) == Slugify(k, true, false)
    ensures ReplaceRuns(IsSeparator, k) == "" <==> k == ""
    ensures k != "" ==> (ReplaceRuns(IsSeparator, k)[0] == '-' <==> IsSeparator(k[0]))
  {
    if k != "" {
      var rest := ReplaceRuns(IsSeparator, k[1..]);
      CollapsedIsPass(k[1..]);
      assert k[0] in k;
      if !IsSeparator(k[0]) {
        DropLastBehind(k[0], rest);
      } else if k[1..] == "" {
        assert rest == "" && "-" + rest == "-";
      } else if !IsSeparator(k[1]) {
        assert k[1] in k && k[1..][0] == k[1];
        DropLastBehind('-', rest);
        HyphenBefore(k[1..]);
      } else {
        assert k[1..][0] == k[1];
      }
    }
  }

  lemma {:induction false} FirstHyphen(k: string)
    requires k != ""
    ensures Slugify(k, true, true) == if Survivors(k) == "" then "" else "-" + Slugify(k, false, false)
    ensures !IsSurvivor(k[0]) || Slugify(k, true, false) == Slugify(k, false, false)
  {
    if IsSurvivor(k[0]) {
      HyphenBefore(k);
    } else if k[1..] != "" {
      FirstHyphen(k[1..]);
      LeadingSeparators(k[1..], IsSeparator(k[0]));
    }
  }

  lemma EdgesStage(k: string)
    requires forall c <- k :: IsKept(c)
    ensures DropEdges(ReplaceRuns(IsSeparator, k)) == Slugify(k, false, false)
  {
    var r := ReplaceRuns(IsSeparator, k);
    CollapsedIsPass(k);
    if k != "" {
      assert k[0] in k;
      FirstHyphen(k);
      if IsSeparator(k[0]) {
        LeadingHyphenGoes(k, r);
      }
    }
  }

  lemma LeadingHyphenGoes(k: string, r: string)
    requires k != "" && IsSeparator(k[0]) && !IsSurvivor(k[0])
    requires r != "" && r[0] == '-' && DropLast(r) == Slugify(k, true, false)
    ensures DropLast(r[1..]) == Slugify(k, false, false)
  {
    var t := k[1..];
    assert r == ['-'] + r[1..];
    LeadingSeparators(t, true);
    if t == "" {
      assert Slugify(t, true, true) == "";
    } else {
      FirstHyphen(t);
    }
    if r[1..] != "" {
      DropLastBehind('-', r[1..]);
      assert DropLast(r) == "-" + DropLast(r[1..]);
      NoSurvivorsNoSlug(t);
    } else {
      assert DropLast(r) == "";
      NoSurvivorsNoSlug(t);
    }
  }

  lemma NoSurvivorsNoSlug(s: string)
    ensures Survivors(s) == "" <==> Slugify(s, false, false) == ""
  {
    LoweredIsNoHyphen(s, false, false);
    if Survivors(s) == "" {
      SlugifyOfNothing(s, false, false);
    }
  }

  /** MAIN RESULT.  The chain of replacements is the single pass. */
  lemma ChainIsOnePass(text: string, table: char -> string)
    requires IsLowerTable(table)
    ensures GenerateSlug(text, table) == Slugify(Expand(text, table), false, false)
  {
    var u := Lower(text, table);
    var k := KeepWords(Trim(u));
    LowerHasNoUpper(text, table);
    TrimHasNoUpper(u);
    KeepWordsKeeps(Trim(u));
    RunsStage(k);
    EdgesStage(k);
    KeepWordsStage(Trim(u), false, false);
    TrimEndStage(DropSpace(u), false, false);
    DropSpaceStage(u);
    LowerStage(text, table, false, false);
  }

  // ---------------------------------------------------------------- what that says of a slug

  /** MAIN RESULT.  Without its hyphens a slug is the letters and digits of the text, in order and in
      lower case. */
  lemma SlugKeepsSurvivors(text: string, table: char -> string)
    requires IsLowerTable(table)
    ensures WithoutHyphens(GenerateSlug(text, table)) == Survivors(Expand(text, table))
  {
    ChainIsOnePass(text, table);
    LoweredIsNoHyphen(Expand(text, table), false, false);
  }

  lemma ExpandOfAscii(c: char, table: char -> string)
    requires c < 128 as char
    ensures Expand([c], table) == [c]
  {
    assert [c][1..] == "";
    assert [c] + "" == [c];
  }

  lemma {:induction false} AfterSurvivor(s: string, a: char, started: bool, pending: bool)
    requires IsSurvivor(a)
    ensures StartedAfter(s + [a], started) && !PendingAfter(s + [a], pending)
  {
    var t := s + [a];
    if s == "" {
      assert t == [a] && t[1..] == "";
    } else {
      assert t[1..] == s[1..] + [a];
      AfterSurvivor(s[1..], a, started || IsSurvivor(s[0]), !IsSurvivor(s[0]) && (pending || IsSeparator(s[0])));
    }
  }

  lemma PassUpTo(y: string, rest: string)
    requires Survivors(y) == "" && rest != "" && IsSurvivor(rest[0])
    ensures Slugify(y + rest, true, false) == (if HasSeparator(y) then "-" else "") + Slugify(rest, false, false)
  {
    SlugifyConcat(y, rest, true, false);
    SlugifyOfNothing(y, true, false);
    FirstHyphen(rest);
    assert Survivors(rest)[0] == Lowered(rest[0]);
  }

  lemma PassBetween(x: string, a: char, y: string, b: char, z: string)
    requires IsSurvivor(a) && IsSurvivor(b) && Survivors(y) == ""
    ensures Slugify((x + [a]) + (y + ([b] + z)), false, false) ==
            Slugify(x + [a], false, false) + ((if HasSeparator(y) then "-" else "") + Slugify([b] + z, false, false))
  {
    PassUpTo(y, [b] + z);
    AfterSurvivor(x, a, false, false);
    SlugifyConcat(x + [a], y + ([b] + z), false, false);
  }

  /** MAIN RESULT.  Between two neighbouring letters or digits of a text there is one hyphen in the slug
      if there is white space, an underscore or a hyphen between them, and nothing otherwise. */
  lemma HyphenBetween(x: string, a: char, y: string, b: char, z: string, table: char -> string)
    requires IsLowerTable(table) && IsSurvivor(a) && IsSurvivor(b) && Survivors(Expand(y, table)) == ""
    ensures GenerateSlug((x + [a]) + (y + ([b] + z)), table) ==
            GenerateSlug(x + [a], table) +
            ((if HasSeparator(Expand(y, table)) then "-" else "") + GenerateSlug([b] + z, table))
  {
    ChainIsOnePass((x + [a]) + (y + ([b] + z)), table);
    ChainIsOnePass(x + [a], table);
    ChainIsOnePass([b] + z, table);
    ExpandConcat(x + [a], y + ([b] + z), table);
    ExpandConcat(x, [a], table);
    ExpandConcat(y, [b] + z, table);
    ExpandConcat([b], z, table);
    ExpandOfAscii(a, table);
    ExpandOfAscii(b, table);
    PassBetween(Expand(x, table), a, Expand(y, table), b, Expand(z, table));
  }

  /** A single letter or digit is its own slug, whatever stands around it. */
  lemma SlugOfOne(x: string, a: char, y: string, table: char -> string)
    requires IsLowerTable(table) && IsSurvivor(a)
    requires Survivors(Expand(x, table)) == "" && Survivors(Expand(y, table)) == ""
    ensures GenerateSlug(x + ([a] + y), table) == [Lowered(a)]
  {
    var ex, ey := Expand(x, table), Expand(y, table);
    ChainIsOnePass(x + ([a] + y), table);
    ExpandConcat(x, [a] + y, table);
    ExpandConcat([a], y, table);
    ExpandOfAscii(a, table);
    SlugifyConcat(ex, [a] + ey, false, false);
    SlugifyOfNothing(ex, false, false);
    LeadingSeparators([a] + ey, HasSeparator(ex));
    assert ([a] + ey)[1..] == ey;
    SlugifyOfNothing(ey, true, false);
  }

  /** A text of ASCII characters stands for itself. */
  lemma {:induction false} ExpandAscii(s: string, table: char -> string)
    requires forall i :: 0 <= i < |s| ==> s[i] < 128 as char
    ensures Expand(s, table) == s
  {
    if s != "" {
      assert s == [s[0]] + s[1..];
      ExpandAscii(s[1..], table);
    }
  }

  lemma PassOfTwoWords()
    ensures Slugify("Salon" + (" " + "Rose"), false, false) == "salon-rose"
  {
    SlugifyConcat("Salon", " " + "Rose", false, false);
    SlugifyConcat(" ", "Rose", true, false);
    PassOfSalon();
    PassOfRose();
  }

  lemma PassOfSalon()
    ensures Slugify("Salon", false, false) == "salon" && StartedAfter("Salon", false) && !PendingAfter("Salon", false)
  {
    assert "Salon"[1..] == "alon" && "alon"[1..] == "lon" && "lon"[1..] == "on" && "on"[1..] == "n" && "n"[1..] == "";
    assert Slugify("n", true, false) == "n";
    assert Slugify("on", true, false) == "on";
    assert Slugify("lon", true, false) == "lon";
    assert Slugify("alon", true, false) == "alon";
  }

  lemma PassOfRose()
    ensures Slugify("Rose", true, true) == "-rose"
  {
    assert "Rose"[1..] == "ose" && "ose"[1..] == "se" && "se"[1..] == "e" && "e"[1..] == "";
    assert Slugify("e", true, false) == "e";
    assert Slugify("se", true, false) == "se";
    assert Slugify("ose", true, false) == "ose";
  }

  /** "Salon Rose" becomes "salon-rose". */
  lemma SlugOfTwoWords(table: char -> string)
    requires IsLowerTable(table)
    ensures GenerateSlug("Salon" + (" " + "Rose"), table) == "salon-rose"
  {
    ChainIsOnePass("Salon" + (" " + "Rose"), table);
    ExpandAscii("Salon" + (" " + "Rose"), table);
    PassOfTwoWords();
  }
}
