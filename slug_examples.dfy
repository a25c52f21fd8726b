/** The slugs of a few concrete company names, among them the two examples
    of the `generate_slug` docstring (utils/slug_utils.py:16-18), derived
    from the general lemmas of SlugUtils. Each example is stated for an
    input `s` equal to the literal. */
module SlugExamples {
  import opened Wrappers
  import opened SlugText
  import opened Hyphenation
  import opened SlugUtils

  // ---------------------------------------------------------------------
  // Tools for concrete inputs
  // ---------------------------------------------------------------------

  /** Lowercasing twice changes nothing, so filtering may start from the lowercased text. */
  lemma FilteredLowers(s: string)
    ensures Filtered(LowerAscii(s)) == Filtered(s)
  {
    assert LowerAscii(LowerAscii(s)) == LowerAscii(s);
  }

  /** A text whose lowercase form has only allowed characters filters to that form. */
  lemma FilteredOfLowered(s: string, l: string)
    requires l == LowerAscii(s) && AllAllowed(l)
    ensures Filtered(s) == l
  {
    FilteredLowers(s);
    FilteredOfAllowed(l);
  }

  /** The slug of a non-empty text is the hyphenation of its filtered text, or the fallback. */
  lemma SlugViaFiltered(s: string, f: string)
    requires s != "" && f == Filtered(s)
    ensures Slug(Some(s)) == if Hyphenated(f) == "" then Fallback else Hyphenated(f)
  {
    FinishIsHyphenated(f);
  }

  /** An ASCII punctuation character that is not a table symbol filters to nothing. */
  lemma FilteredDropsChar(c: char)
    requires c as int < 128 && !('A' <= c <= 'Z') && !IsAllowed(c)
    requires forall k :: 0 <= k < |Replacements| ==> Replacements[k].0 != c
    ensures Filtered([c]) == []
  {
    assert LowerAscii([c]) == [c];
    assert StripNonAscii([c]) == [c];
    assert !IsSymbolOf(c, Replacements);
    SymbolTextOfNonSymbol(c, Replacements);
    assert ExpandWith([c], Replacements) == [c] + ExpandWith([], Replacements);
  }

  /** Two words separated by one space become two words joined by a hyphen. */
  lemma HyphenatedTwoWords(a: string, b: string)
    requires a != [] && b != []
    requires forall m :: 0 <= m < |a| ==> !IsSeparator(a[m])
    requires forall m :: 0 <= m < |b| ==> !IsSeparator(b[m])
    ensures Hyphenated(a + " " + b) == a + "-" + b
  {
    HyphenatedSplit(a, ' ', b);
    HyphenatedOfWord(a);
    HyphenatedOfWord(b);
  }

  /** A non-empty run of lowercase letters and digits. */
  predicate IsLowerWord(w: string) {
    w != [] && forall m :: 0 <= m < |w| ==> IsWordChar(w[m])
  }

  lemma TwoWordsAllowed(a: string, b: string)
    requires IsLowerWord(a) && IsLowerWord(b)
    ensures AllAllowed(a + " " + b)
  {
    var l := a + " " + b;
    assert forall m :: 0 <= m < |a| ==> l[m] == a[m];
    assert forall m :: 0 <= m < |b| ==> l[|a| + 1 + m] == b[m];
  }

  /** A text that lowercases to one word filters to that word, which is its own hyphenation. */
  lemma FilteredOneWord(u: string, w: string)
    requires LowerAscii(u) == w && IsLowerWord(w)
    ensures Filtered(u) == w && Hyphenated(w) == w
  {
    FilteredOfLowered(u, w);
    HyphenatedOfWord(w);
  }

  /** A text that lowercases to two words separated by a space. */
  lemma FilteredTwoWords(v: string, a: string, b: string)
    requires LowerAscii(v) == a + " " + b && IsLowerWord(a) && IsLowerWord(b)
    ensures Filtered(v) == a + " " + b && Hyphenated(Filtered(v)) == a + "-" + b
  {
    TwoWordsAllowed(a, b);
    FilteredOfLowered(v, a + " " + b);
    HyphenatedTwoWords(a, b);
  }

  /** A name of two words separated by a space becomes the two words joined by a hyphen. */
  lemma SlugOfTwoWords(s: string, a: string, b: string)
    requires LowerAscii(s) == a + " " + b && IsLowerWord(a) && IsLowerWord(b)
    ensures Slug(Some(s)) == a + "-" + b
  {
    assert |s| == |LowerAscii(s)|;
    FilteredTwoWords(s, a, b);
    SlugViaFiltered(s, a + " " + b);
  }

  /** Appending a character the filter drops changes nothing. */
  lemma FilteredDropsLast(v: string, c: char)
    requires c as int < 128 && !('A' <= c <= 'Z') && !IsAllowed(c)
    requires forall k :: 0 <= k < |Replacements| ==> Replacements[k].0 != c
    ensures Filtered(v + [c]) == Filtered(v)
  {
    FilteredAppend(v, [c]);
    FilteredDropsChar(c);
  }

  /** A text that lowercases to a word followed by a space. */
  lemma FilteredWordThenSpace(u: string, w: string)
    requires LowerAscii(u) == w && IsLowerWord(w)
    ensures Hyphenated(Filtered(u + " ")) == w
  {
    LowerAsciiAppend(u, " ");
    assert AllAllowed(w + " ");
    FilteredOfLowered(u + " ", w + " ");
    HyphenatedSnocSeparator(w, ' ');
    HyphenatedOfWord(w);
  }

  /** A text that lowercases to a space followed by two words separated by a space. */
  lemma FilteredSpaceThenTwoWords(v: string, a: string, b: string)
    requires LowerAscii(v) == a + " " + b && IsLowerWord(a) && IsLowerWord(b)
    ensures Hyphenated(Filtered(" " + v)) == a + "-" + b
  {
    FilteredAppend(" ", v);
    FilteredOfAllowed(" ");
    FilteredTwoWords(v, a, b);
    HyphenatedConsSeparator(' ', a + " " + b);
  }

  /** A word, a table symbol, then two words and a dropped punctuation mark. */
  lemma SlugOfWordSymbolPhrase(s: string, u: string, k: nat, v: string, c: char, lu: string, la: string, lb: string)
    requires k < |Replacements| && s == u + [Replacements[k].0] + (v + [c])
    requires c as int < 128 && !('A' <= c <= 'Z') && !IsAllowed(c)
    requires forall j :: 0 <= j < |Replacements| ==> Replacements[j].0 != c
    requires LowerAscii(u) == lu && LowerAscii(v) == la + " " + lb
    requires IsLowerWord(lu) && IsLowerWord(la) && IsLowerWord(lb)
    ensures Slug(Some(s)) == HyphenJoin(HyphenJoin(lu, Replacements[k].1), la + "-" + lb)
  {
    SymbolBecomesWord(u, k, v + [c]);
    FilteredOneWord(u, lu);
    FilteredDropsLast(v, c);
    FilteredTwoWords(v, la, lb);
  }

  /** A word, a space, a table symbol, a space, then two words. */
  lemma SlugOfSpacedSymbol(s: string, u: string, k: nat, v: string, lu: string, la: string, lb: string)
    requires k < |Replacements| && s == (u + " ") + [Replacements[k].0] + (" " + v)
    requires LowerAscii(u) == lu && LowerAscii(v) == la + " " + lb
    requires IsLowerWord(lu) && IsLowerWord(la) && IsLowerWord(lb)
    ensures Slug(Some(s)) == HyphenJoin(HyphenJoin(lu, Replacements[k].1), la + "-" + lb)
  {
    SymbolBecomesWord(u + " ", k, " " + v);
    FilteredWordThenSpace(u, lu);
    FilteredSpaceThenTwoWords(v, la, lb);
  }

  // ---------------------------------------------------------------------
  // Examples. Each is reduced to a worker lemma that receives the pieces
  // of the literal as parameters, and the facts about the literal pieces
  // are collected in a lemma of their own.
  // ---------------------------------------------------------------------

  lemma CedarFinancial(s: string)
    requires s == "Cedar Financial"
    ensures Slug(Some(s)) == "cedar-financial"
  {
    CedarFinancialBy(s, "cedar", "financial", "cedar-financial");
  }

  lemma CedarFinancialBy(s: string, a: string, b: string, r: string)
    requires s == "Cedar Financial" && a == "cedar" && b == "financial" && r == "cedar-financial"
    ensures Slug(Some(s)) == r
  {
    assert LowerAscii(s) == a + " " + b;
    assert r == a + "-" + b;
    SlugOfTwoWords(s, a, b);
  }

  /** The docstring's first example: the `@` becomes the word "at" between
      hyphens, and the `!` is dropped. */
  lemma TechAtCorp(s: string)
    requires s == "Tech@Corp Solutions!"
    ensures Slug(Some(s)) == "tech-at-corp-solutions"
  {
    TechAtCorpBy(s, "Tech", "Corp Solutions", "tech", "corp", "solutions", "tech-at-corp-solutions");
  }

  lemma TechAtCorpSplit(s: string, u: string, v: string)
    requires s == "Tech@Corp Solutions!" && u == "Tech" && v == "Corp Solutions"
    ensures s == u + [Replacements[1].0] + (v + ['!']) && Replacements[1].1 == "at"
  {
  }

  lemma TechAtCorpLowered(u: string, v: string, lu: string, la: string, lb: string)
    requires u == "Tech" && v == "Corp Solutions" && lu == "tech" && la == "corp" && lb == "solutions"
    ensures LowerAscii(u) == lu && LowerAscii(v) == la + " " + lb
    ensures IsLowerWord(lu) && IsLowerWord(la) && IsLowerWord(lb)
  {
  }

  lemma TechAtCorpJoined(lu: string, la: string, lb: string, r: string)
    requires lu == "tech" && la == "corp" && lb == "solutions" && r == "tech-at-corp-solutions"
    ensures r == HyphenJoin(HyphenJoin(lu, "at"), la + "-" + lb)
  {
  }

  /** The exclamation mark is none of the table's symbols. */
  lemma ExclamationIsNoSymbol()
    ensures forall k :: 0 <= k < |Replacements| ==> Replacements[k].0 != '!'
  {
  }

  lemma TechAtCorpBy(s: string, u: string, v: string, lu: string, la: string, lb: string, r: string)
    requires s == "Tech@Corp Solutions!" && u == "Tech" && v == "Corp Solutions"
    requires lu == "tech" && la == "corp" && lb == "solutions" && r == "tech-at-corp-solutions"
    ensures Slug(Some(s)) == r
  {
    TechAtCorpSplit(s, u, v);
    TechAtCorpLowered(u, v, lu, la, lb);
    TechAtCorpJoined(lu, la, lb, r);
    ExclamationIsNoSymbol();
    SlugOfWordSymbolPhrase(s, u, 1, v, '!', lu, la, lb);
  }

  /** The docstring's second example: the `&` becomes the word "and". */
  lemma AbcAndXyz(s: string)
    requires s == "ABC & XYZ Company"
    ensures Slug(Some(s)) == "abc-and-xyz-company"
  {
    AbcAndXyzBy(s, "ABC", "XYZ Company", "abc", "xyz", "company", "abc-and-xyz-company");
  }

  lemma AbcAndXyzSplit(s: string, u: string, v: string)
    requires s == "ABC & XYZ Company" && u == "ABC" && v == "XYZ Company"
    ensures s == (u + " ") + [Replacements[0].0] + (" " + v) && Replacements[0].1 == "and"
  {
  }

  lemma AbcAndXyzLowered(u: string, v: string, lu: string, la: string, lb: string)
    requires u == "ABC" && v == "XYZ Company" && lu == "abc" && la == "xyz" && lb == "company"
    ensures LowerAscii(u) == lu && LowerAscii(v) == la + " " + lb
    ensures IsLowerWord(lu) && IsLowerWord(la) && IsLowerWord(lb)
  {
  }

  lemma AbcAndXyzJoined(lu: string, la: string, lb: string, r: string)
    requires lu == "abc" && la == "xyz" && lb == "company" && r == "abc-and-xyz-company"
    ensures r == HyphenJoin(HyphenJoin(lu, "and"), la + "-" + lb)
  {
  }

  lemma AbcAndXyzBy(s: string, u: string, v: string, lu: string, la: string, lb: string, r: string)
    requires s == "ABC & XYZ Company" && u == "ABC" && v == "XYZ Company"
    requires lu == "abc" && la == "xyz" && lb == "company" && r == "abc-and-xyz-company"
    ensures Slug(Some(s)) == r
  {
    AbcAndXyzSplit(s, u, v);
    AbcAndXyzLowered(u, v, lu, la, lb);
    AbcAndXyzJoined(lu, la, lb, r);
    SlugOfSpacedSymbol(s, u, 0, v, lu, la, lb);
  }

  /** A name with no letter or digit falls back to "unnamed". */
  lemma OnlyPunctuation(s: string)
    requires s == "!!!"
    ensures Slug(Some(s)) == "unnamed"
  {
    OnlyPunctuationBy(s, '!');
  }

  lemma OnlyPunctuationBy(s: string, c: char)
    requires s == "!!!" && c == '!'
    ensures Slug(Some(s)) == Fallback
  {
    assert s == [c] + [c] + [c];
    ExclamationIsNoSymbol();
    FilteredDropsLast([c] + [c], c);
    FilteredDropsLast([c], c);
    FilteredDropsChar(c);
    SlugViaFiltered(s, []);
  }
}
