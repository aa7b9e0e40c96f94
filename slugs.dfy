/** Slug generation (`GetSlugFromTitle`): two regular-expression passes over a
    title whose diacritics have already been removed.
      pass 1: every maximal run of characters outside `[A-Za-z0-9-]` becomes one `-`;
      pass 2: every run of two or more `-` becomes one `-`.
    There is no case folding, no trimming and no length limit. */
module Slugs {

  predicate IsAsciiAlnum(c: char) {
    ('A' <= c <= 'Z') || ('a' <= c <= 'z') || ('0' <= c <= '9')
  }

  /** Membership in the character class `[A-Za-z0-9-]`. */
  predicate IsSlugChar(c: char) {
    IsAsciiAlnum(c) || c == '-'
  }

  predicate AllSlugChars(s: string) {
    forall i :: 0 <= i < |s| ==> IsSlugChar(s[i])
  }

  predicate NoDoubleDash(s: string) {
    forall i :: 0 <= i < |s| - 1 ==> !(s[i] == '-' && s[i + 1] == '-')
  }

  /** What a slug looks like: only `[A-Za-z0-9-]`, never `--`. */
  predicate IsSlug(s: string) {
    AllSlugChars(s) && NoDoubleDash(s)
  }

  /** The ASCII letters and digits of `s`, in order. */
  function AsciiAlnums(s: string): string {
    if s == [] then []
    else if IsAsciiAlnum(s[0]) then [s[0]] + AsciiAlnums(s[1..])
    else AsciiAlnums(s[1..])
  }

  /** Pass 1, `Regex.Replace(text, "[^A-Za-z0-9-]+", "-")`: a character of the class
      is kept; a run of other characters is dropped up to its last character, which
      becomes `-`. */
  function ReplaceForeignRuns(s: string): (r: string)
    ensures |r| <= |s|
    ensures r == [] <==> s == []
    ensures AllSlugChars(r)
    ensures r != [] ==> (r[0] == '-' <==> !IsAsciiAlnum(s[0]))
  {
    if s == [] then []
    else if IsSlugChar(s[0]) then [s[0]] + ReplaceForeignRuns(s[1..])
    else if |s| > 1 && !IsSlugChar(s[1]) then ReplaceForeignRuns(s[1..])
    else "-" + ReplaceForeignRuns(s[1..])
  }

  /** Pass 2, `Regex.Replace(text, "-{2,}", "-")`: a `-` followed by another `-` is
      dropped, so each run of dashes keeps only its last one. */
  function CollapseDashRuns(t: string): (r: string)
    ensures |r| <= |t|
    ensures r == [] <==> t == []
    ensures r != [] ==> r[0] == t[0]
    ensures NoDoubleDash(r)
    ensures forall i :: 0 <= i < |r| ==> r[i] in t
  {
    if t == [] then []
    else if t[0] == '-' && |t| > 1 && t[1] == '-' then CollapseDashRuns(t[1..])
    else [t[0]] + CollapseDashRuns(t[1..])
  }

  /** `GetSlugFromTitle` after `RemoveDiacritics`: both passes, in order. */
  function Slugify(s: string): (r: string)
    ensures IsSlug(r)
    ensures |r| <= |s|
    ensures r == [] <==> s == []
  {
    CollapseDashRuns(ReplaceForeignRuns(s))
  }

  /** `GetSlugFromTitle`: `RemoveDiacritics` is code this model does not see, so it is
      a parameter; the slug is taken of its output. */
  function GetSlugFromTitle(removeDiacritics: string -> string, title: string): (slug: string)
    ensures IsSlug(slug)
    ensures |slug| <= |removeDiacritics(title)|
  {
    Slugify(removeDiacritics(title))
  }

  /** Reference definition: replace each foreign character on its own by `-`. */
  function MaskForeign(s: string): (r: string)
    ensures |r| == |s|
  {
    if s == [] then []
    else [if IsSlugChar(s[0]) then s[0] else '-'] + MaskForeign(s[1..])
  }

  // ---------------------------------------------------------------------------
  // Fixed points and idempotence

  lemma {:induction false} ReplaceKeepsSlugChars(s: string)
    requires AllSlugChars(s)
    ensures ReplaceForeignRuns(s) == s
  {
    if s != [] {
      ReplaceKeepsSlugChars(s[1..]);
    }
  }

  lemma {:induction false} CollapseKeepsSingleDashes(t: string)
    requires NoDoubleDash(t)
    ensures CollapseDashRuns(t) == t
  {
    if t != [] {
      CollapseKeepsSingleDashes(t[1..]);
    }
  }

  /** A string is left unchanged by slugification exactly when it already is a slug. */
  lemma SlugifyFixedPoints(s: string)
    ensures Slugify(s) == s <==> IsSlug(s)
  {
    if IsSlug(s) {
      ReplaceKeepsSlugChars(s);
      CollapseKeepsSingleDashes(s);
    }
  }

  lemma SlugifyIdempotent(s: string)
    ensures Slugify(Slugify(s)) == Slugify(s)
  {
    SlugifyFixedPoints(Slugify(s));
  }

  // ---------------------------------------------------------------------------
  // Letters and digits survive, in order

  lemma {:induction false} ReplaceKeepsAlnums(s: string)
    ensures AsciiAlnums(ReplaceForeignRuns(s)) == AsciiAlnums(s)
  {
    if s != [] {
      ReplaceKeepsAlnums(s[1..]);
    }
  }

  lemma {:induction false} CollapseKeepsAlnums(t: string)
    ensures AsciiAlnums(CollapseDashRuns(t)) == AsciiAlnums(t)
  {
    if t != [] {
      CollapseKeepsAlnums(t[1..]);
    }
  }

  /** Every ASCII letter and digit of the input is in the slug, in the same order,
      and the slug has no other letters or digits. */
  lemma SlugifyKeepsAlnums(s: string)
    ensures AsciiAlnums(Slugify(s)) == AsciiAlnums(s)
  {
    ReplaceKeepsAlnums(s);
    CollapseKeepsAlnums(ReplaceForeignRuns(s));
  }

  // ---------------------------------------------------------------------------
  // The `+` of pass 1 does not matter once pass 2 has run

  lemma {:induction false} CollapseOfReplaceIsCollapseOfMask(s: string)
    ensures CollapseDashRuns(ReplaceForeignRuns(s)) == CollapseDashRuns(MaskForeign(s))
  {
    if s != [] {
      var u := s[1..];
      CollapseOfReplaceIsCollapseOfMask(u);
      if u != [] {
        assert MaskForeign(u)[0] == '-' <==> !IsAsciiAlnum(u[0]);
      }
    }
  }

  /** Slugify is the same as masking every foreign character and then collapsing
      dash runs. */
  lemma SlugifyIsCollapsedMask(s: string)
    ensures Slugify(s) == CollapseDashRuns(MaskForeign(s))
  {
    CollapseOfReplaceIsCollapseOfMask(s);
  }

  // ---------------------------------------------------------------------------
  // Pass 1 run by run

  predicate AllForeign(f: string) {
    forall i :: 0 <= i < |f| ==> !IsSlugChar(f[i])
  }

  /** A word of `[A-Za-z0-9-]` characters is copied unchanged. */
  lemma {:induction false} ReplaceCopiesSlugWord(w: string, rest: string)
    requires AllSlugChars(w)
    ensures ReplaceForeignRuns(w + rest) == w + ReplaceForeignRuns(rest)
  {
    if w != [] {
      var s := w + rest;
      assert s[0] == w[0] && IsSlugChar(s[0]);
      assert s[1..] == w[1..] + rest;
      assert ReplaceForeignRuns(s) == [w[0]] + ReplaceForeignRuns(s[1..]);
      ReplaceCopiesSlugWord(w[1..], rest);
      assert w == [w[0]] + w[1..];
    } else {
      assert w + rest == rest;
    }
  }

  /** A maximal run of other characters becomes a single `-`. */
  lemma {:induction false} ReplaceMergesForeignRun(f: string, rest: string)
    requires f != [] && AllForeign(f)
    requires rest == [] || IsSlugChar(rest[0])
    ensures ReplaceForeignRuns(f + rest) == "-" + ReplaceForeignRuns(rest)
  {
    assert (f + rest)[1..] == f[1..] + rest;
    if |f| > 1 {
      ReplaceMergesForeignRun(f[1..], rest);
    }
  }

  // ---------------------------------------------------------------------------
  // Pass 2 run by run

  predicate AllDashes(d: string) {
    forall i :: 0 <= i < |d| ==> d[i] == '-'
  }

  /** A word without `-` is copied unchanged. */
  lemma {:induction false} CollapseCopiesDashFreeWord(w: string, rest: string)
    requires forall i :: 0 <= i < |w| ==> w[i] != '-'
    ensures CollapseDashRuns(w + rest) == w + CollapseDashRuns(rest)
  {
    if w != [] {
      var t := w + rest;
      assert t[0] == w[0] && t[1..] == w[1..] + rest;
      CollapseCopiesDashFreeWord(w[1..], rest);
      assert w == [w[0]] + w[1..];
    } else {
      assert w + rest == rest;
    }
  }

  /** A maximal run of one or more `-` becomes exactly one `-`. */
  lemma {:induction false} CollapseMergesDashRun(d: string, rest: string)
    requires d != [] && AllDashes(d)
    requires rest == [] || rest[0] != '-'
    ensures CollapseDashRuns(d + rest) == "-" + CollapseDashRuns(rest)
  {
    assert (d + rest)[1..] == d[1..] + rest;
    if |d| > 1 {
      CollapseMergesDashRun(d[1..], rest);
    }
  }

  lemma CollapseOfDashRunB()
    ensures CollapseDashRuns("---b") == "-b"
  {
    CollapseCopiesDashFreeWord("b", "");
    assert "b" + "" == "b";
    CollapseMergesDashRun("---", "b");
    assert "---" + "b" == "---b";
  }

  lemma ReplaceOfSpaceB()
    ensures ReplaceForeignRuns(" b") == "-b"
  {
    ReplaceCopiesSlugWord("b", "");
    assert "b" + "" == "b";
    ReplaceMergesForeignRun(" ", "b");
    assert " " + "b" == " b";
  }

  lemma ReplaceOfSpaceDashSpaceB()
    ensures ReplaceForeignRuns(" - b") == "---b"
  {
    ReplaceOfSpaceB();
    ReplaceCopiesSlugWord("-", " b");
    assert "-" + " b" == "- b";
    assert "-" + "-b" == "--b";
    ReplaceMergesForeignRun(" ", "- b");
    assert " " + "- b" == " - b";
  }

  lemma CollapseOfADashRunB()
    ensures CollapseDashRuns("a---b") == "a-b"
  {
    CollapseOfDashRunB();
    CollapseCopiesDashFreeWord("a", "---b");
    assert "a" + "---b" == "a---b";
    assert "a" + "-b" == "a-b";
  }

  /** Words keep a single dash between them: here the dash the title already had
      merges with the spaces around it. */
  lemma SlugOfSpacedDash()
    ensures Slugify("a - b") == "a-b"
  {
    ReplaceOfSpaceDashSpaceB();
    ReplaceCopiesSlugWord("a", " - b");
    assert "a" + " - b" == "a - b";
    assert "a" + "---b" == "a---b";
    CollapseOfADashRunB();
  }

  // ---------------------------------------------------------------------------
  // Examples: punctuation and spaces become single dashes; nothing is trimmed.

  lemma ReplaceOfSpaceNews()
    ensures ReplaceForeignRuns(" News") == "-News"
  {
    ReplaceCopiesSlugWord("News", "");
    assert "News" + "" == "News";
    ReplaceMergesForeignRun(" ", "News");
    assert " " + "News" == " News";
  }

  lemma SlugOfTechNews()
    ensures Slugify("Tech News") == "Tech-News"
  {
    ReplaceOfSpaceNews();
    ReplaceCopiesSlugWord("Tech", " News");
    assert "Tech" + " News" == "Tech News";
    assert "Tech" + "-News" == "Tech-News";
    CollapseKeepsSingleDashes("Tech-News");
  }

  lemma ReplaceOfAmpersandStyle()
    ensures ReplaceForeignRuns(" & Style") == "-Style"
  {
    ReplaceCopiesSlugWord("Style", "");
    assert "Style" + "" == "Style";
    ReplaceMergesForeignRun(" & ", "Style");
    assert " & " + "Style" == " & Style";
  }

  lemma SlugOfLifeAndStyle()
    ensures Slugify("Life & Style") == "Life-Style"
  {
    ReplaceOfAmpersandStyle();
    ReplaceCopiesSlugWord("Life", " & Style");
    assert "Life" + " & Style" == "Life & Style";
    assert "Life" + "-Style" == "Life-Style";
    CollapseKeepsSingleDashes("Life-Style");
  }

  lemma ReplaceOfWorldBang()
    ensures ReplaceForeignRuns("World!") == "World-"
  {
    ReplaceMergesForeignRun("!", "");
    assert "!" + "" == "!";
    ReplaceCopiesSlugWord("World", "!");
    assert "World" + "!" == "World!";
    assert "World" + "-" == "World-";
  }

  lemma ReplaceOfCommaWorldBang()
    ensures ReplaceForeignRuns(", World!") == "-World-"
  {
    ReplaceOfWorldBang();
    ReplaceMergesForeignRun(", ", "World!");
    assert ", " + "World!" == ", World!";
  }

  lemma ReplaceOfHelloWorld()
    ensures ReplaceForeignRuns("Hello, World!") == "Hello-World-"
  {
    ReplaceOfCommaWorldBang();
    ReplaceCopiesSlugWord("Hello", ", World!");
    assert "Hello" + ", World!" == "Hello, World!";
    assert "Hello" + "-World-" == "Hello-World-";
  }

  lemma CollapseOfHelloWorld(t: string)
    requires t == "Hello-World-"
    ensures CollapseDashRuns(t) == t
  {
    assert NoDoubleDash(t);
    CollapseKeepsSingleDashes(t);
  }

  lemma SlugOfHelloWorld()
    ensures Slugify("Hello, World!") == "Hello-World-"
  {
    ReplaceOfHelloWorld();
    CollapseOfHelloWorld("Hello-World-");
  }
}
