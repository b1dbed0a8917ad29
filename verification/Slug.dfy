/**
  The slug of a new tenant (generateSlug and register in auth.service.ts): a chain of replacements.
*/
module Slug {
  import opened Text

  predicate IsWord(c: char) {
    'a' <= c <= 'z' || 'A' <= c <= 'Z' || '0' <= c <= '9' || c == '_'
  }

  predicate IsSlugChar(c: char) {
    'a' <= c <= 'z' || '0' <= c <= '9' || c == '-'
  }

  /** Lower-case letters, digits and single inner hyphens. */
  predicate IsSlug(s: string) {
    && (forall i :: 0 <= i < |s| ==> IsSlugChar(s[i]))
    && (forall i :: 0 <= i < |s| - 1 ==> !(s[i] == '-' && s[i + 1] == '-'))
    && (s != "" ==> s[0] != '-' && s[|s| - 1] != '-')
  }

  // ---------------------------------------------------------------- the chain

  /** `toLowerCase`; `table` holds what becomes of a character outside ASCII. */
  function LowerChar(c: char, table: char -> string): string {
    if 'A' <= c <= 'Z' then [(c as int + 32) as char]
    else if c < 128 as char then [c]
    else table(c)
  }

  function Lower(s: string, table: char -> string): string {
    if s == "" then "" else LowerChar(s[0], table) + Lower(s[1..], table)
  }

  function Trim(s: string): string {
    TrimEnd(DropSpace(s))
  }

  /** `.replace(/[^\w\s-]/g, '')` */
  function KeepWords(s: string): string {
    if s == "" then ""
    else (if IsWord(s[0]) || IsSpace(s[0]) || s[0] == '-' then [s[0]] else "") + KeepWords(s[1..])
  }

  predicate IsGap(c: char) { IsSpace(c) || c == '_' }

  predicate IsHyphen(c: char) { c == '-' }

  /** Every maximal run of characters of a class becomes one hyphen. */
  function ReplaceRuns(isMember: char -> bool, s: string): string {
    if s == "" then ""
    else if !isMember(s[0]) then [s[0]] + ReplaceRuns(isMember, s[1..])
    else if |s| > 1 && isMember(s[1]) then ReplaceRuns(isMember, s[1..])
    else "-" + ReplaceRuns(isMember, s[1..])
  }

  /** `.replace(/^-|-$/g, '')` */
  function DropEdges(s: string): string {
    var t := if s != "" && s[0] == '-' then s[1..] else s;
    if t != "" && t[|t| - 1] == '-' then t[..|t| - 1] else t
  }

  function GenerateSlug(text: string, table: char -> string): string {
    DropEdges(ReplaceRuns(IsHyphen, ReplaceRuns(IsGap, KeepWords(Trim(Lower(text, table))))))
  }

  // ---------------------------------------------------------------- normal form

  predicate NoUpper(s: string) {
    forall i :: 0 <= i < |s| ==> !('A' <= s[i] <= 'Z')
  }

  /** `toLowerCase` never produces an ASCII capital. */
  ghost predicate IsLowerTable(table: char -> string) {
    forall c: char :: NoUpper(table(c))
  }

  lemma {:induction false} LowerHasNoUpper(s: string, table: char -> string)
    requires IsLowerTable(table)
    ensures NoUpper(Lower(s, table))
  {
    if s != "" {
      LowerHasNoUpper(s[1..], table);
      assert NoUpper(LowerChar(s[0], table));
    }
  }

  lemma TrimHasNoUpper(s: string)
    requires NoUpper(s)
    ensures NoUpper(Trim(s))
  {
    DropSpaceSuffix(s);
  }

  predicate IsKept(c: char) {
    (IsWord(c) && !('A' <= c <= 'Z')) || IsSpace(c) || c == '-'
  }

  lemma {:induction false} KeepWordsKeeps(s: string)
    requires NoUpper(s)
    ensures forall c <- KeepWords(s) :: IsKept(c)
  {
    if s != "" {
      KeepWordsKeeps(s[1..]);
    }
  }

  lemma {:induction false} GapsBecomeHyphens(s: string)
    requires forall c <- s :: IsKept(c)
    ensures forall c <- ReplaceRuns(IsGap, s) :: IsSlugChar(c)
  {
    if s != "" {
      GapsBecomeHyphens(s[1..]);
      assert s[0] in s;
    }
  }

  predicate NoDouble(s: string) {
    forall i :: 0 <= i < |s| - 1 ==> !(s[i] == '-' && s[i + 1] == '-')
  }

  /** Collapsing keeps the characters, leaves no double hyphen, and starts with a hyphen only if the
      text does. */
  lemma {:induction false} CollapseHyphens(s: string)
    requires forall c <- s :: IsSlugChar(c)
    ensures var r := ReplaceRuns(IsHyphen, s);
            && (forall c <- r :: IsSlugChar(c))
            && NoDouble(r)
            && (r != "" && r[0] == '-' ==> s[0] == '-')
            && (s != "" && s[0] == '-' ==> r != "" && r[0] == '-')
            && (s == "" ==> r == "")
  {
    if s != "" {
      assert s[0] in s;
      CollapseHyphens(s[1..]);
    }
  }

  lemma DropEdgesIsSlug(s: string)
    requires (forall c <- s :: IsSlugChar(c)) && NoDouble(s)
    ensures IsSlug(DropEdges(s))
  {
    var t := if s != "" && s[0] == '-' then s[1..] else s;
    assert forall i :: 0 <= i < |s| ==> s[i] in s;
    assert forall i :: 0 <= i < |t| - 1 ==> !(t[i] == '-' && t[i + 1] == '-') by {
      if t != s {
        assert forall i :: 0 <= i < |t| ==> t[i] == s[i + 1];
      }
    }
    assert t != "" ==> t[0] != '-' by {
      if t != s && t != "" {
        assert !(s[0] == '-' && s[0 + 1] == '-');
      }
    }
  }

  /** MAIN RESULT.  Every text becomes a slug, ... */
  lemma GeneratesSlug(text: string, table: char -> string)
    requires IsLowerTable(table)
    ensures IsSlug(GenerateSlug(text, table))
  {
    LowerHasNoUpper(text, table);
    var a := Trim(Lower(text, table));
    TrimHasNoUpper(Lower(text, table));
    KeepWordsKeeps(a);
    GapsBecomeHyphens(KeepWords(a));
    CollapseHyphens(ReplaceRuns(IsGap, KeepWords(a)));
    DropEdgesIsSlug(ReplaceRuns(IsHyphen, ReplaceRuns(IsGap, KeepWords(a))));
  }

  predicate AllSlugChars(s: string) {
    forall i :: 0 <= i < |s| ==> IsSlugChar(s[i])
  }

  lemma {:induction false} LowerOfSlug(s: string, table: char -> string)
    requires AllSlugChars(s)
    ensures Lower(s, table) == s
  {
    if s != "" {
      assert AllSlugChars(s[1..]) && IsSlugChar(s[0]);
      LowerOfSlug(s[1..], table);
      assert s == [s[0]] + s[1..];
    }
  }

  lemma {:induction false} WordsOfSlug(s: string)
    requires AllSlugChars(s)
    ensures KeepWords(s) == s
  {
    if s != "" {
      assert AllSlugChars(s[1..]) && IsSlugChar(s[0]);
      WordsOfSlug(s[1..]);
      assert s == [s[0]] + s[1..];
    }
  }

  lemma {:induction false} GapsOfSlug(s: string)
    requires AllSlugChars(s)
    ensures ReplaceRuns(IsGap, s) == s
  {
    if s != "" {
      assert AllSlugChars(s[1..]) && IsSlugChar(s[0]);
      GapsOfSlug(s[1..]);
      assert s == [s[0]] + s[1..];
    }
  }

  lemma {:induction false} NothingToCollapse(s: string)
    requires NoDouble(s)
    ensures ReplaceRuns(IsHyphen, s) == s
  {
    if s != "" {
      assert |s| > 1 ==> !(s[0] == '-' && s[0 + 1] == '-');
      assert forall i :: 0 <= i < |s[1..]| ==> s[1..][i] == s[i + 1];
      NothingToCollapse(s[1..]);
      assert s == [s[0]] + s[1..];
    }
  }

  lemma TrimOfSlug(s: string)
    requires forall i :: 0 <= i < |s| ==> IsSlugChar(s[i])
    ensures Trim(s) == s
  {
    if s != "" {
      assert IsSlugChar(s[0]) && IsSlugChar(s[|s| - 1]);
    }
  }

  lemma EdgesOfSlug(s: string)
    requires IsSlug(s)
    ensures DropEdges(s) == s
  {
  }

  lemma StagesOfSlug(s: string, table: char -> string)
    requires AllSlugChars(s)
    ensures KeepWords(Trim(Lower(s, table))) == s && ReplaceRuns(IsGap, s) == s
  {
    LowerOfSlug(s, table);
    TrimOfSlug(s);
    WordsOfSlug(s);
    GapsOfSlug(s);
  }

  lemma SlugStays(s: string, table: char -> string)
    requires IsSlug(s)
    ensures GenerateSlug(s, table) == s
  {
    assert AllSlugChars(s) && NoDouble(s);
    StagesOfSlug(s, table);
    NothingToCollapse(s);
    EdgesOfSlug(s);
  }

  /** ... and exactly the slugs stay as they are: the chain is idempotent. */
  lemma SlugsAreFixed(s: string, table: char -> string)
    requires IsLowerTable(table)
    ensures GenerateSlug(s, table) == s <==> IsSlug(s)
  {
    GeneratesSlug(s, table);
    if IsSlug(s) {
      SlugStays(s, table);
    }
  }

  lemma Idempotent(text: string, table: char -> string)
    requires IsLowerTable(table)
    ensures GenerateSlug(GenerateSlug(text, table), table) == GenerateSlug(text, table)
  {
    GeneratesSlug(text, table);
    SlugsAreFixed(GenerateSlug(text, table), table);
  }

  /** register: the slug of the English name, or `salon` without one, and a part of a UUID. */
  function TenantSlug(salonNameEn: string, uniqueId: string, table: char -> string): string {
    (if salonNameEn != "" then GenerateSlug(salonNameEn, table) else "salon") + "-" + uniqueId
  }

  /** A tenant without an English name is called salon. */
  lemma UnnamedTenant(uniqueId: string, table: char -> string)
    ensures TenantSlug("", uniqueId, table) == "salon-" + uniqueId
  {
  }

  /** The tenant's slug is in normal form unless nothing of the English name survives the chain. */
  lemma TenantSlugNormal(salonNameEn: string, uniqueId: string, table: char -> string)
    requires IsLowerTable(table) && IsSlug(uniqueId) && uniqueId != ""
    ensures IsSlug(TenantSlug(salonNameEn, uniqueId, table)) <==>
            salonNameEn == "" || GenerateSlug(salonNameEn, table) != ""
  {
    var base := if salonNameEn != "" then GenerateSlug(salonNameEn, table) else "salon";
    var slug := base + "-" + uniqueId;
    GeneratesSlug(salonNameEn, table);
    assert IsSlug(base);
    if base == "" {
      assert slug[0] == '-';
    } else {
      forall i | 0 <= i < |slug| - 1 ensures IsSlugChar(slug[i]) && !(slug[i] == '-' && slug[i + 1] == '-') {
        if i < |base| - 1 {
          assert slug[i] == base[i] && slug[i + 1] == base[i + 1];
        } else if i == |base| - 1 {
          assert slug[i] == base[i];
        } else if i > |base| {
          assert slug[i] == uniqueId[i - |base| - 1];
          assert slug[i + 1] == uniqueId[i - |base| - 1 + 1];
        } else {
          assert slug[i + 1] == uniqueId[0];
        }
      }
      assert slug[|slug| - 1] == uniqueId[|uniqueId| - 1];
      assert slug[0] == base[0];
    }
  }

  lemma NothingSurvives(s: string, table: char -> string)
    requires |s| == 1 && s[0] == '!'
    ensures GenerateSlug(s, table) == ""
  {
    assert s[1..] == "";
    assert Lower(s, table) == s;
    assert Trim(s) == s;
    assert KeepWords(s) == "";
  }

  /** Such as a name that is a single exclamation mark. */
  lemma NamelessTenant(uniqueId: string, table: char -> string)
    ensures TenantSlug("!", uniqueId, table) == "-" + uniqueId
  {
    NothingSurvives("!", table);
  }
}
