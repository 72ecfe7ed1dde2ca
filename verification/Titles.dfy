/** The title comparison of the low-confidence duplicate tiers. */
module Titles {

  function LowerChar(c: char): char {
    if 'A' <= c <= 'Z' then c - 'A' + 'a' else c
  }

  /** strings.ToLower, for ASCII letters. */
  function ToLower(s: string): (r: string)
    ensures |r| == |s|
  {
    seq(|s|, i requires 0 <= i < |s| => LowerChar(s[i]))
  }

  /** ASCII white space: the space, and the tab, line, vertical-tab, form-feed
      and return characters, which are consecutive. */
  predicate IsSpace(c: char) {
    c == ' ' || '\t' <= c <= '\r'
  }

  function TrimLeft(s: string): string {
    if s != "" && IsSpace(s[0]) then TrimLeft(s[1..]) else s
  }

  function TrimRight(s: string): string {
    if s != "" && IsSpace(s[|s| - 1]) then TrimRight(s[..|s| - 1]) else s
  }

  predicate PartAt(s: string, part: string, i: int) {
    0 <= i <= |s| - |part| && s[i..i + |part|] == part
  }

  /** strings.Contains. */
  predicate Contains(s: string, part: string) {
    exists i | 0 <= i <= |s| - |part| :: PartAt(s, part, i)
  }

  function Normalize(title: string): string {
    ToLower(TrimRight(TrimLeft(title)))
  }

  /** One title is a case-insensitive part of the other, both at least eight characters long. */
  predicate FuzzyOverlap(a: string, b: string) {
    var x, y := Normalize(a), Normalize(b);
    |x| >= 8 && |y| >= 8 && (Contains(x, y) || Contains(y, x))
  }

  /** The rule does not depend on which title comes first, never fires for an
      empty title, and always fires for two long titles that differ only in case. */
  lemma OverlapLaws(a: string, b: string)
    ensures FuzzyOverlap(a, b) <==> FuzzyOverlap(b, a)
    ensures FuzzyOverlap(a, b) ==> a != "" && b != ""
    ensures Normalize(a) == Normalize(b) && |Normalize(a)| >= 8 ==> FuzzyOverlap(a, b)
  {
    var x := Normalize(a);
    assert PartAt(x, x, 0);
  }

  /** The same letter in either case, or the same character. */
  predicate SameLetter(c: char, d: char) {
    c == d || ('A' <= c <= 'Z' && d == c + ' ') || ('A' <= d <= 'Z' && c == d + ' ')
  }

  predicate SameLetters(a: string, b: string) {
    |a| == |b| && forall i :: 0 <= i < |a| ==> SameLetter(a[i], b[i])
  }

  predicate Blank(s: string) {
    forall i :: 0 <= i < |s| ==> s[i] in " \t\n\r" || s[i] as int == 11 || s[i] as int == 12
  }

  /** Two texts have one lower-case form exactly when they differ only in case. */
  lemma CaseIsAllThatIsLost(a: string, b: string)
    ensures ToLower(a) == ToLower(b) <==> SameLetters(a, b)
  {
    if |a| == |b| {
      forall i | 0 <= i < |a| ensures ToLower(a)[i] == ToLower(b)[i] <==> SameLetter(a[i], b[i]) {
      }
    }
  }

  lemma {:induction false} TrimmedLeft(before: string, title: string)
    requires Blank(before)
    ensures TrimLeft(before + title) == TrimLeft(title)
  {
    if before == "" {
      assert before + title == title;
    } else {
      assert (before + title)[1..] == before[1..] + title;
      TrimmedLeft(before[1..], title);
    }
  }

  lemma {:induction false} TrimmedRight(title: string, after: string)
    requires Blank(after)
    ensures TrimRight(title + after) == TrimRight(title)
  {
    if after == "" {
      assert title + after == title;
    } else {
      assert (title + after)[..|title + after| - 1] == title + after[..|after| - 1];
      TrimmedRight(title, after[..|after| - 1]);
    }
  }

  /** Neither end is blank. */
  predicate Trimmed(s: string) {
    s != "" ==> !Blank([s[0]]) && !Blank([s[|s| - 1]])
  }

  lemma {:induction false} TrimKeeps(s: string)
    requires Trimmed(s)
    ensures TrimRight(TrimLeft(s)) == s
  {
    if s != "" {
      assert [s[0]][0] == s[0] && [s[|s| - 1]][0] == s[|s| - 1];
      assert !IsSpace(s[0]) && !IsSpace(s[|s| - 1]);
    }
  }

  /** Only blanks around a title are lost besides case. */
  lemma NormalizeMeans(before: string, title: string, after: string)
    requires Blank(before) && Blank(after) && Trimmed(title)
    ensures Normalize(before + title + after) == ToLower(title)
  {
    assert before + title + after == before + (title + after);
    TrimmedLeft(before, title + after);
    if title == "" {
      assert title + after == after && after + "" == after;
      TrimmedLeft(after, "");
    } else {
      assert [title[0]][0] == title[0];
      assert TrimLeft(title + after) == title + after;
      TrimmedRight(title, after);
      TrimKeeps(title);
    }
  }

  predicate LettersAt(s: string, part: string, i: int) {
    0 <= i <= |s| - |part| && SameLetters(s[i..i + |part|], part)
  }

  lemma ContainsMeans(a: string, b: string)
    ensures Contains(ToLower(a), ToLower(b)) <==> exists i :: LettersAt(a, b, i)
  {
    forall i | 0 <= i <= |a| - |b| ensures PartAt(ToLower(a), ToLower(b), i) <==> LettersAt(a, b, i) {
      var part := a[i..i + |b|];
      assert ToLower(a)[i..i + |b|] == ToLower(part);
      CaseIsAllThatIsLost(part, b);
      hide ToLower, SameLetters;
    }
  }

  /** The overlap rule, on titles without surrounding blanks: both have eight
      characters or more, and one of them, up to case, is a part of the other. */
  lemma OverlapMeans(a: string, b: string)
    requires Trimmed(a) && Trimmed(b)
    ensures FuzzyOverlap(a, b) <==>
            |a| >= 8 && |b| >= 8 && ((exists i :: LettersAt(a, b, i)) || (exists i :: LettersAt(b, a, i)))
  {
    hide Normalize, Contains, LettersAt, Trimmed, ToLower;
    NormalizeMeans("", a, "");
    NormalizeMeans("", b, "");
    assert "" + a + "" == a && "" + b + "" == b;
    ContainsMeans(a, b);
    ContainsMeans(b, a);
  }
}
