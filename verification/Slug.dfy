/** Slug helpers of abridgeai/core/slug.py. */
module Slug {
  import opened Prelude

  // ---------------------------------------------------------------------------
  // Decimal suffixes
  // ---------------------------------------------------------------------------

  function Digit(d: nat): char
    requires d < 10
  {
    ('0' as int + d) as char
  }

  /** Python's formatting of a natural number. */
  function Decimal(n: nat): string {
    if n < 10 then [Digit(n)] else Decimal(n / 10) + [Digit(n % 10)]
  }

  /** The number a decimal stands for. */
  function ValueOf(s: string): int {
    if s == [] then 0 else ValueOf(s[..|s| - 1]) * 10 + (s[|s| - 1] as int - '0' as int)
  }

  lemma {:induction false} DecimalReadsBack(n: nat)
    ensures ValueOf(Decimal(n)) == n
    ensures Decimal(n) != [] && forall i :: 0 <= i < |Decimal(n)| ==> '0' <= Decimal(n)[i] <= '9'
  {
    if n < 10 {
      assert [Digit(n)][..0] == [];
    } else {
      DecimalReadsBack(n / 10);
      assert Decimal(n)[..|Decimal(n)| - 1] == Decimal(n / 10);
    }
  }

  /** `f"{base}-{n}"`. */
  function Suffixed(base: string, n: nat): string {
    base + "-" + Decimal(n)
  }

  lemma NoHyphenAfter(a: string, d: string, j: nat)
    requires |a| < j <= |a| + |d| && '-' !in d
    ensures (a + "-" + d)[j] != '-'
  {
    assert (a + "-" + d)[j] == d[j - |a| - 1];
  }

  /** A suffixed slug determines its base and its number: the suffix has no hyphen of its own. */
  lemma SuffixedInjective(a: string, m: nat, b: string, n: nat)
    requires Suffixed(a, m) == Suffixed(b, n)
    ensures a == b && m == n
  {
    DecimalReadsBack(m);
    DecimalReadsBack(n);
    var s := Suffixed(a, m);
    if |a| < |b| {
      NoHyphenAfter(a, Decimal(m), |b|);
      assert false;
    } else if |b| < |a| {
      NoHyphenAfter(b, Decimal(n), |a|);
      assert false;
    }
    assert s[..|a|] == a && s[..|b|] == b;
    assert s[|a| + 1..] == Decimal(m) && s[|b| + 1..] == Decimal(n);
  }

  // ---------------------------------------------------------------------------
  // First free suffix
  // ---------------------------------------------------------------------------

  /** All suffixes below n are taken. */
  predicate TakenBelow(candidate: string, taken: set<string>, n: nat) {
    forall m :: 1 <= m < n ==> Suffixed(candidate, m) in taken
  }

  ghost function Suffixes(candidate: string, n: nat): set<string> {
    if n <= 1 then {candidate} else Suffixes(candidate, n - 1) + {Suffixed(candidate, n - 1)}
  }

  /** The candidate and its first n - 1 suffixed forms are n different strings. */
  lemma {:induction false} SuffixesCount(candidate: string, n: nat)
    requires n >= 1
    ensures |Suffixes(candidate, n)| == n
    ensures forall s :: s in Suffixes(candidate, n) <==>
              s == candidate || exists m :: 1 <= m < n && s == Suffixed(candidate, m)
  {
    if n > 1 {
      SuffixesCount(candidate, n - 1);
      if Suffixed(candidate, n - 1) in Suffixes(candidate, n - 1) {
        assert |Suffixed(candidate, n - 1)| > |candidate|;
        var m :| 1 <= m < n - 1 && Suffixed(candidate, n - 1) == Suffixed(candidate, m);
        SuffixedInjective(candidate, n - 1, candidate, m);
      }
    }
  }

  /** Pigeonhole: n taken forms need n taken slugs. */
  lemma TakenFormsAreMany(candidate: string, taken: set<string>, n: nat)
    requires n >= 1 && candidate in taken && TakenBelow(candidate, taken, n)
    ensures n <= |taken|
  {
    SuffixesCount(candidate, n);
    var forms := Suffixes(candidate, n);
    assert forms <= taken;
    assert taken == forms + (taken - forms);
  }

  function FirstFree(candidate: string, taken: set<string>, n: nat): (r: nat)
    requires n >= 1 && candidate in taken && TakenBelow(candidate, taken, n)
    ensures n <= r <= |taken|
    ensures TakenBelow(candidate, taken, r) && Suffixed(candidate, r) !in taken
    decreases |taken| + 1 - n
  {
    TakenFormsAreMany(candidate, taken, n);
    if Suffixed(candidate, n) in taken then FirstFree(candidate, taken, n + 1) else n
  }

  function Candidate(base: string): string {
    if base == "" then "item" else base
  }

  function UniqueSlug(base: string, taken: set<string>): string {
    var candidate := Candidate(base);
    if candidate !in taken then candidate else Suffixed(candidate, FirstFree(candidate, taken, 1))
  }

  /** `unique_slug`.  The search ends with n at most the number of taken slugs. */
  method FindUniqueSlug(base: string, taken: set<string>) returns (slug: string)
    ensures slug == UniqueSlug(base, taken)
    ensures slug !in taken
    ensures base != "" && base !in taken ==> slug == base
    ensures base == "" && "item" !in taken ==> slug == "item"
    ensures slug == Candidate(base)
            || exists n :: 1 <= n <= |taken| && slug == Suffixed(Candidate(base), n) && TakenBelow(Candidate(base), taken, n)
  {
    var candidate := Candidate(base);
    if candidate !in taken {
      return candidate;
    }
    var n := 1;
    TakenFormsAreMany(candidate, taken, 1);
    while Suffixed(candidate, n) in taken
      invariant 1 <= n <= |taken|
      invariant TakenBelow(candidate, taken, n)
      decreases |taken| - n
    {
      n := n + 1;
      TakenFormsAreMany(candidate, taken, n);
    }
    LeastFreeIsUnique(candidate, taken, n);
    return Suffixed(candidate, n);
  }

  lemma LeastFreeIsUnique(candidate: string, taken: set<string>, n: nat)
    requires n >= 1 && candidate in taken && TakenBelow(candidate, taken, n) && Suffixed(candidate, n) !in taken
    ensures FirstFree(candidate, taken, 1) == n
  {
    var r := FirstFree(candidate, taken, 1);
    assert n < r ==> Suffixed(candidate, n) in taken;
  }

  /** `slug` is the base if that is free, else the base with the least free number from 1. */
  ghost predicate LeastFreeForm(base: string, taken: set<string>, slug: string) {
    && slug !in taken
    && (base !in taken ==> slug == base)
    && (base in taken ==>
          exists n: nat :: n >= 1 && slug == base + "-" + Decimal(n)
            && forall m :: 1 <= m < n ==> base + "-" + Decimal(m) in taken)
  }

  lemma UniqueSlugIsLeast(base: string, taken: set<string>)
    requires base != ""
    ensures LeastFreeForm(base, taken, UniqueSlug(base, taken))
  {
    if base in taken {
      var n := FirstFree(base, taken, 1);
      assert UniqueSlug(base, taken) == base + "-" + Decimal(n);
      forall m | 1 <= m < n ensures base + "-" + Decimal(m) in taken {
        assert Suffixed(base, m) in taken;
      }
    }
  }

  // ---------------------------------------------------------------------------
  // slugify
  // ---------------------------------------------------------------------------

  const MAX_SLUG_LEN := 100

  predicate IsSlugChar(c: char) {
    'a' <= c <= 'z' || '0' <= c <= '9'
  }

  /** NFD, dropping combining marks, folding the letter d with stroke, and lowering, one character
      at a time; the tables themselves are a parameter. */
  function Folded(fold: char -> string, value: string): string {
    if value == [] then [] else fold(value[0]) + Folded(fold, value[1..])
  }

  /** What is known of the tables: characters that can occur in a slug stay as they are. */
  ghost predicate KeepsSlugChars(fold: char -> string) {
    forall c :: IsSlugChar(c) || c == '-' ==> fold(c) == [c]
  }

  function SkipRun(s: string): (r: string)
    ensures |r| <= |s|
    ensures r != [] ==> IsSlugChar(r[0])
  {
    if s != [] && !IsSlugChar(s[0]) then SkipRun(s[1..]) else s
  }

  /** `re.sub(r"[^a-z0-9]+", "-", s)`. */
  function Collapse(s: string): string
    decreases |s|
  {
    if s == [] then []
    else if IsSlugChar(s[0]) then [s[0]] + Collapse(s[1..])
    else ['-'] + Collapse(SkipRun(s[1..]))
  }

  function StripLeft(s: string): string {
    if s != [] && s[0] == '-' then StripLeft(s[1..]) else s
  }

  function StripRight(s: string): string {
    if s != [] && s[|s| - 1] == '-' then StripRight(s[..|s| - 1]) else s
  }

  function Cut(s: string): string {
    if |s| > MAX_SLUG_LEN then s[..MAX_SLUG_LEN] else s
  }

  function Slugify(fold: char -> string, value: string): string {
    Cut(StripRight(StripLeft(Collapse(Folded(fold, value)))))
  }

  /** Only slug characters and single hyphens. */
  ghost predicate SinglyHyphened(s: string) {
    && (forall i :: 0 <= i < |s| ==> IsSlugChar(s[i]) || s[i] == '-')
    && (forall i :: 0 <= i < |s| - 1 ==> s[i] != '-' || s[i + 1] != '-')
  }

  ghost predicate WellFormedSlug(s: string) {
    SinglyHyphened(s) && (s != [] ==> s[0] != '-') && |s| <= MAX_SLUG_LEN
  }

  lemma {:induction false} CollapseShape(s: string)
    ensures SinglyHyphened(Collapse(s))
    ensures s != [] && IsSlugChar(s[0]) ==> Collapse(s) != [] && Collapse(s)[0] != '-'
    decreases |s|
  {
    if s != [] {
      if IsSlugChar(s[0]) {
        CollapseShape(s[1..]);
      } else {
        CollapseShape(SkipRun(s[1..]));
      }
    }
  }

  lemma {:induction false} StripLeftShape(s: string)
    requires SinglyHyphened(s)
    ensures SinglyHyphened(StripLeft(s))
    ensures StripLeft(s) != [] ==> StripLeft(s)[0] != '-'
  {
    if s != [] && s[0] == '-' {
      StripLeftShape(s[1..]);
    }
  }

  lemma {:induction false} StripRightShape(s: string)
    ensures StripRight(s) <= s
    ensures StripRight(s) != [] ==> StripRight(s)[|StripRight(s)| - 1] != '-'
  {
    if s != [] && s[|s| - 1] == '-' {
      StripRightShape(s[..|s| - 1]);
    }
  }

  /** Every slug uses only a-z, 0-9 and single hyphens, does not begin with one, and fits. */
  lemma SlugifyShape(fold: char -> string, value: string)
    ensures WellFormedSlug(Slugify(fold, value))
  {
    var collapsed := Collapse(Folded(fold, value));
    CollapseShape(Folded(fold, value));
    StripLeftShape(collapsed);
    StripRightShape(StripLeft(collapsed));
  }

  lemma {:induction false} FoldKeepsSlugs(fold: char -> string, s: string)
    requires KeepsSlugChars(fold) && forall i :: 0 <= i < |s| ==> IsSlugChar(s[i]) || s[i] == '-'
    ensures Folded(fold, s) == s
  {
    if s != [] {
      FoldKeepsSlugs(fold, s[1..]);
      assert fold(s[0]) == [s[0]];
    }
  }

  lemma {:induction false} CollapseKeepsSlugs(s: string)
    requires SinglyHyphened(s)
    ensures Collapse(s) == s
    decreases |s|
  {
    if s != [] {
      assert SinglyHyphened(s[1..]) by {
        assert forall i :: 0 <= i < |s| - 1 ==> s[1..][i] == s[i + 1];
      }
      CollapseKeepsSlugs(s[1..]);
      if !IsSlugChar(s[0]) && |s| > 1 {
        assert s[1] != '-' && IsSlugChar(s[1..][0]);
      }
    }
  }

  lemma StripsRight(s: string, after: string)
    requires after in ["", "-"] && s != "" && s[|s| - 1] != '-'
    ensures StripRight(s + after) == s
  {
    if after == "" {
      assert s + after == s;
    } else {
      assert (s + after)[..|s|] == s;
    }
  }

  /** Slugifying a well-formed slug takes off the hyphen at its end, if it has one. */
  lemma SlugifyWellFormed(fold: char -> string, s: string)
    requires KeepsSlugChars(fold) && WellFormedSlug(s)
    ensures Slugify(fold, s) == if s != [] && s[|s| - 1] == '-' then s[..|s| - 1] else s
    ensures Slugify(fold, s) != [] ==> Slugify(fold, s)[|Slugify(fold, s)| - 1] != '-'
  {
    FoldKeepsSlugs(fold, s);
    CollapseKeepsSlugs(s);
    assert StripLeft(s) == s;
    if s != [] && s[|s| - 1] == '-' {
      var t := s[..|s| - 1];
      assert s[|s| - 2] != '-';
      StripsRight(t, "-");
      assert s == t + "-";
    } else {
      assert StripRight(s) == s;
    }
  }

  /** The second application always reaches a fixpoint; the first one does exactly when the cut at
      100 characters has not left a hyphen at the end. */
  lemma SlugifyStabilizes(fold: char -> string, value: string)
    requires KeepsSlugChars(fold)
    ensures var once := Slugify(fold, value);
      var twice := Slugify(fold, once);
      && Slugify(fold, twice) == twice
      && (twice == once <==> once == [] || once[|once| - 1] != '-')
      && (once != [] && once[|once| - 1] == '-' ==> |once| == MAX_SLUG_LEN)
  {
    var once := Slugify(fold, value);
    SlugifyShape(fold, value);
    SlugifyWellFormed(fold, once);
    SlugifyShape(fold, once);
    SlugifyWellFormed(fold, Slugify(fold, once));
    StripRightShape(StripLeft(Collapse(Folded(fold, value))));
  }

  // ---------------------------------------------------------------------------
  // What slugify computes, said without the steps
  // ---------------------------------------------------------------------------

  /** The folding works character by character. */
  lemma {:induction false} FoldedInPieces(fold: char -> string, a: string, b: string)
    ensures Folded(fold, a + b) == Folded(fold, a) + Folded(fold, b)
    ensures |a| == 1 ==> Folded(fold, a) == fold(a[0])
  {
    if a == "" {
      assert a + b == b;
    } else {
      assert (a + b)[1..] == a[1..] + b;
      FoldedInPieces(fold, a[1..], b);
    }
  }

  ghost predicate Word(s: string) {
    s != "" && forall i :: 0 <= i < |s| ==> IsSlugChar(s[i])
  }

  ghost predicate Gap(s: string) {
    forall i :: 0 <= i < |s| ==> !IsSlugChar(s[i])
  }

  /** `words` are the maximal runs of slug characters of a text, `gaps` what lies before, between
      and after them: only the first and the last gap may be empty. */
  ghost predicate Runs(gaps: seq<string>, words: seq<string>) {
    && |gaps| == |words| + 1
    && (forall i :: 0 <= i < |words| ==> Word(words[i]))
    && (forall i :: 0 <= i < |gaps| ==> Gap(gaps[i]))
    && (forall i :: 0 < i < |words| ==> gaps[i] != "")
  }

  /** The text with these runs. */
  function Spaced(gaps: seq<string>, words: seq<string>): string
    requires |gaps| == |words| + 1
  {
    if words == [] then gaps[0] else gaps[0] + words[0] + Spaced(gaps[1..], words[1..])
  }

  /** The words joined by single hyphens. */
  function Hyphened(words: seq<string>): string {
    if words == [] then ""
    else if |words| == 1 then words[0]
    else words[0] + "-" + Hyphened(words[1..])
  }

  lemma LongerGap(c: char, gaps: seq<string>, words: seq<string>)
    requires Runs(gaps, words) && !IsSlugChar(c)
    ensures var longer := gaps[0 := [c] + gaps[0]];
      Runs(longer, words) && Spaced(longer, words) == [c] + Spaced(gaps, words)
  {
    var longer := gaps[0 := [c] + gaps[0]];
    assert longer[1..] == gaps[1..];
    if words != [] {
      var rest := Spaced(gaps[1..], words[1..]);
      assert ([c] + gaps[0]) + words[0] + rest == [c] + (gaps[0] + words[0] + rest);
    }
  }

  lemma LongerWord(c: char, gaps: seq<string>, words: seq<string>)
    requires Runs(gaps, words) && IsSlugChar(c) && gaps[0] == "" && words != []
    ensures var longer := words[0 := [c] + words[0]];
      Runs(gaps, longer) && Spaced(gaps, longer) == [c] + Spaced(gaps, words)
  {
    var longer, rest := words[0 := [c] + words[0]], Spaced(gaps[1..], words[1..]);
    assert longer[1..] == words[1..];
    assert gaps[0] + ([c] + words[0]) + rest == [c] + (gaps[0] + words[0] + rest);
  }

  lemma NewWord(c: char, gaps: seq<string>, words: seq<string>)
    requires Runs(gaps, words) && IsSlugChar(c) && (gaps[0] != "" || words == [])
    ensures Runs([""] + gaps, [[c]] + words) && Spaced([""] + gaps, [[c]] + words) == [c] + Spaced(gaps, words)
  {
    assert ([""] + gaps)[1..] == gaps && ([[c]] + words)[1..] == words;
    assert "" + [c] + Spaced(gaps, words) == [c] + Spaced(gaps, words);
  }

  /** Every text has such runs. */
  lemma {:induction false} TextHasRuns(text: string) returns (gaps: seq<string>, words: seq<string>)
    ensures Runs(gaps, words) && Spaced(gaps, words) == text
  {
    if text == "" {
      gaps, words := [""], [];
    } else {
      var c := text[0];
      gaps, words := TextHasRuns(text[1..]);
      assert text == [c] + text[1..];
      if !IsSlugChar(c) {
        LongerGap(c, gaps, words);
        gaps := gaps[0 := [c] + gaps[0]];
      } else if gaps[0] == "" && words != [] {
        LongerWord(c, gaps, words);
        words := words[0 := [c] + words[0]];
      } else {
        NewWord(c, gaps, words);
        gaps, words := [""] + gaps, [[c]] + words;
      }
    }
  }

  lemma {:induction false} SkipsGap(gap: string, rest: string)
    requires Gap(gap) && (rest == "" || IsSlugChar(rest[0]))
    ensures SkipRun(gap + rest) == rest
    ensures Collapse(gap + rest) == (if gap == "" then "" else "-") + Collapse(rest)
  {
    if gap == "" {
      assert gap + rest == rest;
    } else {
      assert (gap + rest)[1..] == gap[1..] + rest;
      SkipsGap(gap[1..], rest);
    }
  }

  lemma {:induction false} CollapseWord(word: string, rest: string)
    requires forall i :: 0 <= i < |word| ==> IsSlugChar(word[i])
    ensures Collapse(word + rest) == word + Collapse(rest)
  {
    if word == "" {
      assert word + rest == rest;
    } else {
      assert (word + rest)[1..] == word[1..] + rest;
      CollapseWord(word[1..], rest);
      assert word == [word[0]] + word[1..];
    }
  }

  function Mark(gap: string): string {
    if gap == "" then "" else "-"
  }

  lemma Regroup(a: string, b: string, c: string, d: string, e: string)
    ensures a + (b + (c + d + e)) == a + (b + c + d) + e
  {
  }

  /** The first gap and the first word of a text. */
  lemma CollapseFirst(gap: string, word: string, rest: string)
    requires Gap(gap) && Word(word)
    ensures Collapse(gap + word + rest) == Mark(gap) + (word + Collapse(rest))
  {
    assert gap + word + rest == gap + (word + rest);
    SkipsGap(gap, word + rest);
    CollapseWord(word, rest);
  }

  lemma {:induction false} CollapseRuns(gaps: seq<string>, words: seq<string>)
    requires Runs(gaps, words) && words != []
    ensures Collapse(Spaced(gaps, words)) == Mark(gaps[0]) + Hyphened(words) + Mark(gaps[|words|])
  {
    var rest, end := Spaced(gaps[1..], words[1..]), Mark(gaps[|words|]);
    CollapseFirst(gaps[0], words[0], rest);
    if |words| == 1 {
      SkipsGap(gaps[1], "");
      assert gaps[1] + "" == gaps[1] == rest && Collapse(rest) == end;
    } else {
      CollapseRuns(gaps[1..], words[1..]);
      assert Collapse(rest) == "-" + Hyphened(words[1..]) + end;
      Regroup(Mark(gaps[0]), words[0], "-", Hyphened(words[1..]), end);
    }
  }

  lemma {:induction false} HyphenedEnds(words: seq<string>)
    requires words != [] && forall i :: 0 <= i < |words| ==> Word(words[i])
    ensures var s := Hyphened(words); s != "" && IsSlugChar(s[0]) && IsSlugChar(s[|s| - 1])
  {
    if |words| > 1 {
      HyphenedEnds(words[1..]);
    }
  }

  lemma StripsLeft(before: string, rest: string)
    requires before in ["", "-"] && rest != "" && rest[0] != '-'
    ensures StripLeft(before + rest) == rest
  {
    if before == "" {
      assert before + rest == rest;
    } else {
      assert (before + rest)[1..] == rest;
    }
  }

  lemma StripsMarks(before: string, s: string, after: string)
    requires before in ["", "-"] && after in ["", "-"] && s != "" && s[0] != '-' && s[|s| - 1] != '-'
    ensures StripRight(StripLeft(before + s + after)) == s
  {
    assert before + s + after == before + (s + after);
    StripsLeft(before, s + after);
    StripsRight(s, after);
  }

  /** `slugify` keeps the runs of slug characters of the folded text in their order, joins them by
      single hyphens, and cuts the result at 100 characters. */
  lemma SlugifyJoinsWords(fold: char -> string, value: string, gaps: seq<string>, words: seq<string>)
    requires Runs(gaps, words) && Folded(fold, value) == Spaced(gaps, words)
    ensures var joined := Hyphened(words);
      Slugify(fold, value) == if |joined| <= 100 then joined else joined[..100]
  {
    if words == [] {
      SkipsGap(gaps[0], "");
      assert gaps[0] + "" == gaps[0];
      assert StripLeft("") == "" && ("-")[1..] == "" && StripLeft("-") == "" && StripRight("") == "";
    } else {
      CollapseRuns(gaps, words);
      HyphenedEnds(words);
      StripsMarks(Mark(gaps[0]), Hyphened(words), Mark(gaps[|words|]));
    }
  }

  lemma FoldsToItself(fold: char -> string)
    requires KeepsSlugChars(fold) && fold(' ') == " "
    ensures Folded(fold, "a b") == "a b"
  {
    FoldedInPieces(fold, "a", " b");
    FoldedInPieces(fold, " ", "b");
    FoldedInPieces(fold, "b", "");
    assert fold('a') == "a" && fold('b') == "b";
    assert "b" + "" == "b" && "a" + (" " + "b") == "a b";
  }

  lemma SpacedPair()
    ensures Spaced(["", " ", ""], ["a", "b"]) == "a b"
    ensures Hyphened(["a", "b"]) == "a-b"
  {
    assert ["", " ", ""][1..] == [" ", ""] && [" ", ""][1..] == [""];
    assert ["a", "b"][1..] == ["b"] && ["b"][1..] == [];
    assert Spaced([" ", ""], ["b"]) == " b";
  }

  /** Concretely: a space becomes a hyphen. */
  lemma SpaceBecomesHyphen(fold: char -> string)
    requires KeepsSlugChars(fold) && fold(' ') == " "
    ensures Slugify(fold, "a b") == "a-b"
  {
    FoldsToItself(fold);
    SpacedPair();
    SlugifyJoinsWords(fold, "a b", ["", " ", ""], ["a", "b"]);
  }
}
