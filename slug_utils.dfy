/** `generate_slug` and `generate_unique_slug` (utils/slug_utils.py).

    `Slug` is the specification: the source's passes composed, with the symbol
    table applied to all characters at once. `GenerateSlug` runs the passes
    the way the source does, rebinding one string and applying the table one
    entry at a time in a loop, and is proved to compute `Slug`. The lemmas
    then say what a slug looks like, by way of the reference `Hyphenated`. */
module SlugUtils {
  import opened Wrappers
  import opened SlugText
  import opened Hyphenation
  import opened Decimal

  // ---------------------------------------------------------------------
  // The specification
  // ---------------------------------------------------------------------

  /** The text after lowercasing, the ASCII filter, the symbol words and the
      character filter (utils/slug_utils.py:24-44). */
  function Filtered(s: string): (r: string)
    ensures AllAllowed(r)
  {
    KeepAllowed(ExpandWith(StripNonAscii(LowerAscii(s)), Replacements))
  }

  /** Collapse whitespace, trim, spaces to hyphens, collapse hyphens, trim
      hyphens (utils/slug_utils.py:46-59). */
  function Finish(f: string): string {
    Strip(CollapseRuns(ReplaceChar(Strip(CollapseRuns(f, Whitespace), Whitespace), ' ', '-'), Hyphen), Hyphen)
  }

  const Fallback: string := "unnamed"

  /** What `generate_slug(text)` returns. */
  function Slug(text: Option<string>): string {
    if !Truthy(text) then ""
    else
      var t := Finish(Filtered(text.value));
      if t == "" then Fallback else t
  }

  /** A finished slug: only `[a-z0-9-]`, never `--`, never a hyphen at either end. */
  predicate WellFormedSlug(s: string) {
    && AllSlugChars(s)
    && NoAdjacent(s, Hyphen)
    && (s != [] ==> s[0] != '-' && s[|s| - 1] != '-')
  }

  // ---------------------------------------------------------------------
  // The source's pipeline, pass by pass
  // ---------------------------------------------------------------------

  method GenerateSlug(text: Option<string>) returns (slug: string)
    ensures slug == Slug(text)
  {
    if !Truthy(text) {
      return "";
    }
    var t := LowerAscii(text.value);
    t := StripNonAscii(t);
    ghost var ascii := t;
    ExpandWithEmptyTable(ascii);
    for i := 0 to |Replacements|
      invariant t == ExpandWith(ascii, Replacements[..i])
    {
      var (symbol, word) := Replacements[i];
      ReplacementsPrefixFresh(i);
      ExpandWithStep(ascii, Replacements[..i], symbol, word);
      assert Replacements[..i + 1] == Replacements[..i] + [(symbol, word)];
      t := ReplaceAll(t, symbol, Padded(word));
    }
    assert Replacements[..|Replacements|] == Replacements;
    t := KeepAllowed(t);
    ghost var filtered := t;
    assert filtered == Filtered(text.value);
    t := CollapseRuns(t, Whitespace);
    t := Strip(t, Whitespace);
    t := ReplaceChar(t, ' ', '-');
    t := CollapseRuns(t, Hyphen);
    t := Strip(t, Hyphen);
    assert t == Finish(filtered);
    slug := if t == "" then Fallback else t;
  }

  // ---------------------------------------------------------------------
  // The last five passes compute Hyphenated, and leave a well-formed slug
  // ---------------------------------------------------------------------

  predicate OnlySpaceWhitespace(s: string) {
    forall m :: 0 <= m < |s| && IsSpace(s[m]) ==> s[m] == ' '
  }

  /** After `re.sub(r'\s+', ' ')` and `strip()`, the only whitespace left is the space. */
  lemma WhitespacePasses(f: string, a: string, b: string)
    requires a == CollapseRuns(f, Whitespace) && b == Strip(a, Whitespace)
    ensures OnlySpaceWhitespace(b)
    ensures AllAllowed(f) ==> AllAllowed(b)
    ensures Hyphenated(b) == Hyphenated(f)
  {
    WhitespaceLeftIsSpace(f, a, b);
    if AllAllowed(f) {
      CollapseRunsKeepsAlphabet(f, Whitespace);
      StripKeepsChars(a, Whitespace, IsAllowed);
    }
    CollapseRunsKeepsWords(f, Whitespace);
    StripKeepsWords(a, Whitespace);
  }

  /** A character that is no whitespace other than the space. */
  predicate SpaceOrNoWhitespace(c: char) {
    IsSpace(c) ==> c == ' '
  }

  lemma WhitespaceLeftIsSpace(f: string, a: string, b: string)
    requires a == CollapseRuns(f, Whitespace) && b == Strip(a, Whitespace)
    ensures OnlySpaceWhitespace(b)
  {
    CollapseRunsLeavesSingles(f, Whitespace);
    assert forall m :: 0 <= m < |a| ==> SpaceOrNoWhitespace(a[m]);
    StripKeepsChars(a, Whitespace, SpaceOrNoWhitespace);
    assert forall m :: 0 <= m < |b| ==> SpaceOrNoWhitespace(b[m]);
  }

  /** Turning the spaces into hyphens leaves no whitespace. */
  lemma SpacesToHyphens(b: string, c: string)
    requires OnlySpaceWhitespace(b) && c == ReplaceChar(b, ' ', '-')
    ensures NoWhitespace(c)
    ensures AllAllowed(b) ==> AllSlugChars(c)
    ensures Hyphenated(c) == Hyphenated(b)
  {
    ReplaceCharKeepsWords(b, ' ', '-');
  }

  /** Collapsing and trimming hyphens brings back no whitespace and no new character. */
  lemma HyphenPassesAlphabet(c: string, d: string, e: string)
    requires NoWhitespace(c) && d == CollapseRuns(c, Hyphen) && e == Strip(d, Hyphen)
    ensures NoWhitespace(e)
    ensures AllSlugChars(c) ==> AllSlugChars(e)
  {
    CollapseRunsKeepsAlphabet(c, Hyphen);
    StripKeepsChars(d, Hyphen, ch => !IsSpace(ch));
    if AllSlugChars(c) {
      StripKeepsChars(d, Hyphen, IsSlugChar);
    }
  }

  /** After collapsing and trimming hyphens there is no `--` and no hyphen at either end. */
  lemma HyphenPassesSeparators(c: string, d: string, e: string)
    requires d == CollapseRuns(c, Hyphen) && e == Strip(d, Hyphen)
    ensures NoAdjacent(e, Hyphen)
    ensures e != [] ==> e[0] != '-' && e[|e| - 1] != '-'
  {
    CollapseRunsLeavesSingles(c, Hyphen);
    StripKeepsNoAdjacent(d, Hyphen);
    StripTrimsEnds(d, Hyphen);
  }

  /** Collapsing and trimming hyphens of a text without whitespace gives the
      separator shape of a slug, and keeps its words. */
  lemma HyphenPasses(c: string, d: string, e: string)
    requires NoWhitespace(c) && d == CollapseRuns(c, Hyphen) && e == Strip(d, Hyphen)
    ensures HyphenCanonical(e)
    ensures AllSlugChars(c) ==> AllSlugChars(e)
    ensures Hyphenated(e) == Hyphenated(c)
  {
    HyphenPassesAlphabet(c, d, e);
    HyphenPassesSeparators(c, d, e);
    CollapseRunsKeepsWords(c, Hyphen);
    StripKeepsWords(d, Hyphen);
  }

  /** The five finishing passes compute the words of their input joined by
      single hyphens, and leave the separator shape of a slug. */
  lemma FinishIsHyphenated(f: string)
    ensures Finish(f) == Hyphenated(f)
    ensures HyphenCanonical(Finish(f))
    ensures AllAllowed(f) ==> AllSlugChars(Finish(f))
  {
    var a := CollapseRuns(f, Whitespace);
    var b := Strip(a, Whitespace);
    WhitespacePasses(f, a, b);
    var c := ReplaceChar(b, ' ', '-');
    SpacesToHyphens(b, c);
    var d := CollapseRuns(c, Hyphen);
    var e := Strip(d, Hyphen);
    HyphenPasses(c, d, e);
    HyphenatedOfCanonical(e);
  }

  /** For a non-empty input the slug is the words of the filtered text
      joined by single hyphens, or the fallback when the filtered text has
      no letter or digit left; a falsy input gives the empty string. */
  lemma SlugIsHyphenatedWords(text: Option<string>)
    ensures !Truthy(text) ==> Slug(text) == ""
    ensures Truthy(text) ==> Slug(text) != ""
    ensures Truthy(text) ==>
      var h := Hyphenated(Filtered(text.value));
      Slug(text) == if h == "" then Fallback else h
    ensures Truthy(text) ==>
      (Hyphenated(Filtered(text.value)) == "" <==> forall k :: 0 <= k < |Filtered(text.value)| ==> IsSeparator(Filtered(text.value)[k]))
  {
    if Truthy(text) {
      FinishIsHyphenated(Filtered(text.value));
      HyphenatedEmptyIff(Filtered(text.value));
    }
  }

  lemma SlugIsWellFormed(text: Option<string>)
    ensures WellFormedSlug(Slug(text))
  {
    if Truthy(text) {
      var f := Filtered(text.value);
      FinishIsHyphenated(f);
      if Finish(f) == "" {
        assert Slug(text) == "unnamed";
        assert forall k :: 0 <= k < |Fallback| ==> IsWordChar(Fallback[k]);
      }
    }
  }

  /** The first four passes leave a text of allowed characters unchanged. */
  lemma FilteredOfAllowed(s: string)
    requires AllAllowed(s)
    ensures Filtered(s) == s
  {
    var l := LowerAscii(s);
    assert l == s;
    assert forall i :: 0 <= i < |s| ==> s[i] as int < 128;
    StripNonAsciiOfAscii(s);
    ReplacementsWellFormed();
    ExpandWithOfNoSymbols(s, Replacements);
  }

  lemma WellFormedIsCanonical(s: string)
    requires WellFormedSlug(s)
    ensures HyphenCanonical(s) && AllAllowed(s)
  {
  }

  lemma FinishOfCanonical(s: string)
    requires HyphenCanonical(s)
    ensures Finish(s) == s
  {
    FinishIsHyphenated(s);
    HyphenatedOfCanonical(s);
  }

  /** A well-formed slug is its own slug. */
  lemma SlugOfWellFormed(s: string)
    requires WellFormedSlug(s) && s != ""
    ensures Slug(Some(s)) == s
  {
    WellFormedIsCanonical(s);
    FilteredOfAllowed(s);
    FinishOfCanonical(s);
  }

  /** Feeding a slug back in returns it unchanged. */
  lemma SlugIdempotent(text: Option<string>)
    ensures Slug(Some(Slug(text))) == Slug(text)
  {
    var s := Slug(text);
    if s != "" {
      SlugIsWellFormed(text);
      SlugOfWellFormed(s);
    }
  }

  // ---------------------------------------------------------------------
  // Each symbol becomes a word of its own
  // ---------------------------------------------------------------------

  lemma FilteredAppend(a: string, b: string)
    ensures Filtered(a + b) == Filtered(a) + Filtered(b)
  {
    LowerAsciiAppend(a, b);
    StripNonAsciiAppend(LowerAscii(a), LowerAscii(b));
    ExpandWithAppend(StripNonAscii(LowerAscii(a)), StripNonAscii(LowerAscii(b)), Replacements);
    KeepAllowedAppend(ExpandWith(StripNonAscii(LowerAscii(a)), Replacements), ExpandWith(StripNonAscii(LowerAscii(b)), Replacements));
  }

  /** The k-th symbol of the table, filtered on its own, is its padded word. */
  lemma FilteredSymbol(k: nat)
    requires k < |Replacements|
    ensures Filtered([Replacements[k].0]) == Padded(Replacements[k].1)
  {
    var (sym, word) := Replacements[k];
    ReplacementsWellFormed();
    assert LowerAscii([sym]) == [sym];
    assert StripNonAscii([sym]) == [sym];
    assert SymbolText(sym, Replacements) == Padded(word) by {
      SymbolTextAt(sym, Replacements, k);
    }
    assert ExpandWith([sym], Replacements) == Padded(word) + ExpandWith([], Replacements);
    var p := Padded(word);
    assert AllAllowed(p) by {
      forall m | 0 <= m < |p| ensures IsAllowed(p[m]) {
        if 0 < m < |p| - 1 {
          assert p[m] == word[m - 1];
        }
      }
    }
  }

  lemma {:induction false} SymbolTextAt(c: char, table: seq<(char, string)>, k: nat)
    requires WellFormedTable(table) && k < |table| && table[k].0 == c
    ensures SymbolText(c, table) == Padded(table[k].1)
  {
    if k > 0 {
      assert table[0].0 != c;
      assert WellFormedTable(table[1..]) by {
        forall j | 0 <= j < |table[1..]| ensures table[1..][j] == table[j + 1] {}
      }
      SymbolTextAt(c, table[1..], k - 1);
    }
  }

  /** Filtering a symbol between two texts gives its padded word between the filtered texts. */
  lemma FilteredAroundSymbol(u: string, k: nat, v: string)
    requires k < |Replacements|
    ensures Filtered(u + [Replacements[k].0] + v) == Filtered(u) + [' '] + (Replacements[k].1 + [' '] + Filtered(v))
  {
    var (sym, word) := Replacements[k];
    var fu, fs, fv := Filtered(u), Filtered([sym]), Filtered(v);
    FilteredAppend(u + [sym], v);
    FilteredAppend(u, [sym]);
    FilteredSymbol(k);
    PaddedBetween(fu, word, fv);
  }

  lemma PaddedBetween(a: string, w: string, b: string)
    ensures a + Padded(w) + b == a + [' '] + (w + [' '] + b)
  {
  }

  /** A word between two spaces stands on its own among the words. */
  lemma HyphenatedAroundWord(a: string, word: string, b: string)
    requires forall m :: 0 <= m < |word| ==> !IsSeparator(word[m])
    ensures Hyphenated(a + [' '] + (word + [' '] + b)) == HyphenJoin(HyphenJoin(Hyphenated(a), word), Hyphenated(b))
  {
    HyphenatedSplit(a, ' ', word + [' '] + b);
    HyphenatedSplit(word, ' ', b);
    HyphenatedOfWord(word);
    HyphenJoinAssociative(Hyphenated(a), word, Hyphenated(b));
  }

  /** A symbol of the table between two texts `u` and `v` becomes its word,
      hyphen-delimited from the words of `u` before it and of `v` after it. */
  lemma SymbolBecomesWord(u: string, k: nat, v: string)
    requires k < |Replacements|
    ensures
      var word := Replacements[k].1;
      Slug(Some(u + [Replacements[k].0] + v))
        == HyphenJoin(HyphenJoin(Hyphenated(Filtered(u)), word), Hyphenated(Filtered(v)))
  {
    var (sym, word) := Replacements[k];
    ReplacementsWellFormed();
    var x := u + [sym] + v;
    assert x != "" by { assert x[|u|] == sym; }
    FilteredAroundSymbol(u, k, v);
    HyphenatedAroundWord(Filtered(u), word, Filtered(v));
    FinishIsHyphenated(Filtered(x));
  }

  // ---------------------------------------------------------------------
  // Concrete inputs
  // ---------------------------------------------------------------------

  // ---------------------------------------------------------------------
  // Unique slugs (utils/slug_utils.py:63-81)
  // ---------------------------------------------------------------------

  /** The `k`-th alternative to `base`: `f"{base}-{k}"`. */
  function Suffixed(base: string, k: nat): string {
    base + "-" + NatToString(k)
  }

  /** Different counters give different alternatives. */
  lemma SuffixedInjective(base: string, j: nat, k: nat)
    ensures Suffixed(base, j) == Suffixed(base, k) <==> j == k
  {
    if Suffixed(base, j) == Suffixed(base, k) {
      assert Suffixed(base, j)[|base| + 1..] == NatToString(j);
      assert Suffixed(base, k)[|base| + 1..] == NatToString(k);
      NatToStringInjective(j, k);
    }
  }

  /** The first `n` alternatives. */
  ghost function FirstAlternatives(base: string, n: nat): set<string> {
    set j | 1 <= j <= n :: Suffixed(base, j)
  }

  /** The first `n` alternatives are `n` different strings. */
  lemma {:induction false} FirstAlternativesCount(base: string, n: nat)
    ensures |FirstAlternatives(base, n)| == n
  {
    if n == 0 {
      assert FirstAlternatives(base, 0) == {};
    } else {
      FirstAlternativesCount(base, n - 1);
      assert FirstAlternatives(base, n) == FirstAlternatives(base, n - 1) + {Suffixed(base, n)};
      if Suffixed(base, n) in FirstAlternatives(base, n - 1) {
        var j :| 1 <= j <= n - 1 && Suffixed(base, j) == Suffixed(base, n);
        SuffixedInjective(base, j, n);
      }
    }
  }

  /** `generate_unique_slug`: `base` itself when it is free, otherwise the
      alternative with the smallest counter that is free. The counter never
      passes |existing| + 1, since the alternatives are all different. */
  method GenerateUniqueSlug(base: string, existing: set<string>) returns (slug: string)
    ensures slug !in existing
    ensures base !in existing ==> slug == base
    ensures base in existing ==>
      exists k :: 1 <= k <= |existing| + 1 && slug == Suffixed(base, k)
        && forall j :: 1 <= j < k ==> Suffixed(base, j) in existing
  {
    if base !in existing {
      return base;
    }
    var counter := 1;
    while Suffixed(base, counter) in existing
      invariant 1 <= counter <= |existing| + 1
      invariant forall j :: 1 <= j < counter ==> Suffixed(base, j) in existing
      decreases |existing| + 1 - counter
    {
      assert FirstAlternatives(base, counter) <= existing;
      FirstAlternativesCount(base, counter);
      SubsetCardinality(FirstAlternatives(base, counter), existing);
      counter := counter + 1;
    }
    slug := Suffixed(base, counter);
  }

  lemma SubsetCardinality<T>(a: set<T>, b: set<T>)
    requires a <= b
    ensures |a| <= |b|
  {
    assert b == a + (b - a);
  }
}
