/** The character classes and the whole-string passes that `generate_slug`
    (utils/slug_utils.py) runs one after another. Each pass is a function on
    strings whose contract says what it leaves behind; the pipeline itself is
    assembled in SlugUtils. */
module SlugText {

  // ---------------------------------------------------------------------
  // Character classes
  // ---------------------------------------------------------------------

  /** What `\s` and `str.strip()` treat as whitespace among ASCII characters:
      tab, line feed, vertical tab, form feed, carriage return, the four
      information separators 0x1C..0x1F, and space. */
  predicate IsSpace(c: char) {
    9 <= c as int <= 13 || 28 <= c as int <= 32
  }

  /** A lowercase ASCII letter or a digit: what survives in a slug besides '-'. */
  predicate IsWordChar(c: char) {
    'a' <= c <= 'z' || '0' <= c <= '9'
  }

  /** Whitespace or a hyphen: what separates the words of a slug. */
  predicate IsSeparator(c: char) {
    IsSpace(c) || c == '-'
  }

  /** The characters of the class `[a-z0-9\s-]`. */
  predicate IsAllowed(c: char) {
    IsWordChar(c) || IsSeparator(c)
  }

  /** The characters a finished slug is made of: `[a-z0-9-]`. */
  predicate IsSlugChar(c: char) {
    IsWordChar(c) || c == '-'
  }

  predicate AllAllowed(s: string) {
    forall i :: 0 <= i < |s| ==> IsAllowed(s[i])
  }

  predicate AllSlugChars(s: string) {
    forall i :: 0 <= i < |s| ==> IsSlugChar(s[i])
  }

  predicate NoWhitespace(s: string) {
    forall i :: 0 <= i < |s| ==> !IsSpace(s[i])
  }

  /** The two character classes whose runs the pipeline collapses: `\s+` and `-+`. */
  datatype CharClass = Whitespace | Hyphen

  predicate InClass(c: char, cls: CharClass) {
    match cls
    case Whitespace => IsSpace(c)
    case Hyphen => c == '-'
  }

  /** No two class characters stand next to each other. */
  predicate NoAdjacent(s: string, cls: CharClass) {
    forall i, j :: 0 <= i < |s| && 0 <= j < |s| && j == i + 1 ==> !(InClass(s[i], cls) && InClass(s[j], cls))
  }

  /** The single character a run of the class is collapsed to. */
  function Representative(cls: CharClass): (c: char)
    ensures InClass(c, cls) && IsSeparator(c)
  {
    match cls
    case Whitespace => ' '
    case Hyphen => '-'
  }

  // ---------------------------------------------------------------------
  // Lowercasing and the ASCII filter
  // ---------------------------------------------------------------------

  function LowerChar(c: char): char {
    if 'A' <= c <= 'Z' then (c as int + 32) as char else c
  }

  /** `str.lower()` on ASCII letters. */
  function LowerAscii(s: string): (r: string)
    ensures |r| == |s|
    ensures forall i :: 0 <= i < |r| ==> !('A' <= r[i] <= 'Z')
    ensures forall i :: 0 <= i < |s| && !('A' <= s[i] <= 'Z') ==> r[i] == s[i]
    ensures forall i :: 0 <= i < |s| && 'A' <= s[i] <= 'Z' ==> r[i] == (s[i] as int + 32) as char
  {
    seq(|s|, i requires 0 <= i < |s| => LowerChar(s[i]))
  }

  /** `encode('ascii', 'ignore').decode('ascii')`: every non-ASCII character is dropped. */
  function StripNonAscii(s: string): (r: string)
    ensures |r| <= |s|
    ensures forall i :: 0 <= i < |r| ==> r[i] as int < 128
  {
    if s == [] then []
    else (if s[0] as int < 128 then [s[0]] else []) + StripNonAscii(s[1..])
  }

  /** One character passes the ASCII filter exactly when it is ASCII; with
      `StripNonAsciiAppend` this pins the filter on every text. */
  lemma StripNonAsciiChar(c: char)
    ensures StripNonAscii([c]) == if c as int < 128 then [c] else []
  {
    assert [c][1..] == [];
  }

  // ---------------------------------------------------------------------
  // Symbol replacement
  // ---------------------------------------------------------------------

  /** The replacement table, in the dict's insertion order. */
  const Replacements: seq<(char, string)> :=
    [('&', "and"), ('@', "at"), ('#', "number"), ('$', "dollar"), ('%', "percent"), ('+', "plus")]

  /** A replacement word with the padding spaces the source puts round it. */
  function Padded(word: string): (r: string)
    ensures |r| == |word| + 2 && r[0] == ' ' && r[|r| - 1] == ' '
    ensures r[1..|r| - 1] == word
  {
    " " + word + " "
  }

  /** `str.replace(sym, by)` for a one-character pattern: every occurrence of
      `sym` is replaced, every other character is kept. */
  function ReplaceAll(s: string, sym: char, repl: string): string {
    if s == [] then []
    else (if s[0] == sym then repl else [s[0]]) + ReplaceAll(s[1..], sym, repl)
  }

  /** What one character turns into once every entry of `table` has been
      applied to it: the padded word of the first entry for that symbol, or
      the character itself. */
  function SymbolText(c: char, table: seq<(char, string)>): string {
    if table == [] then [c]
    else if table[0].0 == c then Padded(table[0].1)
    else SymbolText(c, table[1..])
  }

  /** The replacements of `table` applied to all characters at once. */
  function ExpandWith(s: string, table: seq<(char, string)>): string {
    if s == [] then [] else SymbolText(s[0], table) + ExpandWith(s[1..], table)
  }

  predicate IsSymbolOf(c: char, table: seq<(char, string)>) {
    exists k :: 0 <= k < |table| && table[k].0 == c
  }

  /** A table whose entries can be applied one after another: distinct
      symbols that are neither letters, digits nor spaces, and words of
      lowercase letters only. */
  predicate WellFormedTable(table: seq<(char, string)>) {
    && (forall j, k :: 0 <= j < k < |table| ==> table[j].0 != table[k].0)
    && (forall k :: 0 <= k < |table| ==> !IsAllowed(table[k].0))
    && (forall k, m :: 0 <= k < |table| && 0 <= m < |table[k].1| ==> 'a' <= table[k].1[m] <= 'z')
    && (forall k :: 0 <= k < |table| ==> table[k].1 != [])
  }

  lemma ReplacementsWellFormed()
    ensures WellFormedTable(Replacements)
  {
    ReplacementSymbolsDistinct();
    ReplacementSymbolsNotAllowed();
    ReplacementWordsLower();
    ReplacementWordsNonEmpty();
  }

  lemma ReplacementSymbolsDistinct()
    ensures forall j, k :: 0 <= j < k < |Replacements| ==> Replacements[j].0 != Replacements[k].0
  {
  }

  lemma ReplacementSymbolsNotAllowed()
    ensures forall k :: 0 <= k < |Replacements| ==> !IsAllowed(Replacements[k].0)
  {
  }

  lemma ReplacementWordsLower()
    ensures forall k, m :: 0 <= k < |Replacements| && 0 <= m < |Replacements[k].1| ==> 'a' <= Replacements[k].1[m] <= 'z'
  {
  }

  lemma ReplacementWordsNonEmpty()
    ensures forall k :: 0 <= k < |Replacements| ==> Replacements[k].1 != []
  {
  }

  // ---------------------------------------------------------------------
  // The character filter, run collapsing, stripping, replacing one character
  // ---------------------------------------------------------------------

  /** `re.sub(r'[^a-z0-9\s-]', '', s)`: keeps exactly the allowed characters, in order. */
  function KeepAllowed(s: string): (r: string)
    ensures |r| <= |s|
    ensures AllAllowed(r)
    ensures AllAllowed(s) ==> r == s
  {
    if s == [] then []
    else (if IsAllowed(s[0]) then [s[0]] else []) + KeepAllowed(s[1..])
  }

  /** One character survives the filter exactly when it is allowed; with
      `KeepAllowedAppend` this pins the filter on every text. */
  lemma KeepAllowedChar(c: char)
    ensures KeepAllowed([c]) == if IsAllowed(c) then [c] else []
  {
    assert [c][1..] == [];
  }

  /** `re.sub(r'\s+', ' ', s)` for `Whitespace` and `re.sub(r'-+', '-', s)`
      for `Hyphen`: every maximal run of class characters becomes one
      representative character. */
  function CollapseRuns(s: string, cls: CharClass): (r: string)
    ensures |r| <= |s|
    ensures (r == []) == (s == [])
    ensures s != [] ==> r[0] == (if InClass(s[0], cls) then Representative(cls) else s[0])
  {
    if s == [] then []
    else if InClass(s[0], cls) then
      if |s| > 1 && InClass(s[1], cls) then CollapseRuns(s[1..], cls)
      else [Representative(cls)] + CollapseRuns(s[1..], cls)
    else [s[0]] + CollapseRuns(s[1..], cls)
  }

  /** After collapsing, every class character is the representative and no
      two of them are adjacent. */
  lemma {:induction false} CollapseRunsLeavesSingles(s: string, cls: CharClass)
    ensures forall i :: 0 <= i < |CollapseRuns(s, cls)| && InClass(CollapseRuns(s, cls)[i], cls) ==> CollapseRuns(s, cls)[i] == Representative(cls)
    ensures NoAdjacent(CollapseRuns(s, cls), cls)
  {
    if s != [] {
      CollapseRunsLeavesSingles(s[1..], cls);
    }
  }

  /** Collapsing only writes characters that were already there (or the
      representative), so it keeps the alphabet of its input. */
  lemma {:induction false} CollapseRunsKeepsAlphabet(s: string, cls: CharClass)
    ensures AllAllowed(s) ==> AllAllowed(CollapseRuns(s, cls))
    ensures cls == Hyphen && NoWhitespace(s) ==> NoWhitespace(CollapseRuns(s, cls))
    ensures cls == Hyphen && AllSlugChars(s) ==> AllSlugChars(CollapseRuns(s, cls))
  {
    if s != [] {
      CollapseRunsKeepsAlphabet(s[1..], cls);
    }
  }

  /** Removes the class characters at the front. */
  function StripStart(s: string, cls: CharClass): (r: string)
    ensures |r| <= |s| && r == s[|s| - |r|..]
    ensures r != [] ==> !InClass(r[0], cls)
  {
    if s != [] && InClass(s[0], cls) then StripStart(s[1..], cls) else s
  }

  /** Removes the class characters at the back. */
  function StripEnd(s: string, cls: CharClass): (r: string)
    ensures |r| <= |s| && r == s[..|r|]
    ensures r != [] ==> !InClass(r[|r| - 1], cls)
  {
    if s != [] && InClass(s[|s| - 1], cls) then StripEnd(s[..|s| - 1], cls) else s
  }

  /** `StripStart` removes class characters only: everything in front of
      the remaining suffix is in the class. */
  lemma {:induction false} StripStartRemovesOnlyClass(s: string, cls: CharClass)
    ensures forall i :: 0 <= i < |s| - |StripStart(s, cls)| ==> InClass(s[i], cls)
  {
    if s != [] && InClass(s[0], cls) {
      StripStartRemovesOnlyClass(s[1..], cls);
      forall i | 1 <= i < |s| - |StripStart(s, cls)|
        ensures InClass(s[i], cls)
      {
        assert s[i] == s[1..][i - 1];
      }
    }
  }

  /** `StripEnd` removes class characters only: everything behind the
      remaining prefix is in the class. */
  lemma {:induction false} StripEndRemovesOnlyClass(s: string, cls: CharClass)
    ensures forall i :: |StripEnd(s, cls)| <= i < |s| ==> InClass(s[i], cls)
  {
    if s != [] && InClass(s[|s| - 1], cls) {
      StripEndRemovesOnlyClass(s[..|s| - 1], cls);
      forall i | |StripEnd(s, cls)| <= i < |s| - 1
        ensures InClass(s[i], cls)
      {
        assert s[i] == s[..|s| - 1][i];
      }
    }
  }

  /** `r` occurs in `s` starting at position `a`. */
  predicate PieceAt(r: string, s: string, a: nat) {
    a + |r| <= |s| && r == s[a..a + |r|]
  }

  /** `str.strip()` for `Whitespace` and `str.strip('-')` for `Hyphen`. */
  function Strip(s: string, cls: CharClass): string {
    StripEnd(StripStart(s, cls), cls)
  }

  /** Stripping leaves no class character at either end. */
  lemma StripTrimsEnds(s: string, cls: CharClass)
    ensures Strip(s, cls) != [] ==> !InClass(Strip(s, cls)[0], cls) && !InClass(Strip(s, cls)[|Strip(s, cls)| - 1], cls)
  {
  }

  /** Stripping leaves a contiguous piece of `s`. */
  lemma StripIsPiece(s: string, cls: CharClass)
    ensures exists a: nat :: PieceAt(Strip(s, cls), s, a)
  {
    var t := StripStart(s, cls);
    assert PieceAt(Strip(s, cls), s, |s| - |t|);
  }

  /** Every property that holds character by character survives stripping. */
  lemma StripKeepsChars(s: string, cls: CharClass, P: char -> bool)
    requires forall m :: 0 <= m < |s| ==> P(s[m])
    ensures forall m :: 0 <= m < |Strip(s, cls)| ==> P(Strip(s, cls)[m])
  {
    var r := Strip(s, cls);
    StripIsPiece(s, cls);
    var a: nat :| PieceAt(r, s, a);
    forall m | 0 <= m < |r| ensures P(r[m]) {
      assert r[m] == s[a + m];
    }
  }

  /** Stripping cannot bring two class characters together. */
  lemma StripKeepsNoAdjacent(s: string, cls: CharClass)
    requires NoAdjacent(s, cls)
    ensures NoAdjacent(Strip(s, cls), cls)
  {
    var r := Strip(s, cls);
    StripIsPiece(s, cls);
    var a: nat :| PieceAt(r, s, a);
    forall m, n | 0 <= m < |r| && 0 <= n < |r| && n == m + 1
      ensures !(InClass(r[m], cls) && InClass(r[n], cls))
    {
      assert r[m] == s[a + m] && r[n] == s[a + n];
    }
  }

  /** `str.replace(from, to)` for one-character strings. */
  function ReplaceChar(s: string, from: char, to: char): string {
    seq(|s|, i requires 0 <= i < |s| => if s[i] == from then to else s[i])
  }

  /** ReplaceChar handles the first character and then the rest. */
  lemma ReplaceCharCons(s: string, from: char, to: char)
    requires s != []
    ensures ReplaceChar(s, from, to) == [if s[0] == from then to else s[0]] + ReplaceChar(s[1..], from, to)
  {
  }

  // ---------------------------------------------------------------------
  // The character-by-character passes distribute over concatenation
  // ---------------------------------------------------------------------

  lemma LowerAsciiAppend(a: string, b: string)
    ensures LowerAscii(a + b) == LowerAscii(a) + LowerAscii(b)
  {
  }

  lemma {:induction false} StripNonAsciiAppend(a: string, b: string)
    ensures StripNonAscii(a + b) == StripNonAscii(a) + StripNonAscii(b)
  {
    if a != [] {
      assert (a + b)[0] == a[0] && (a + b)[1..] == a[1..] + b;
      StripNonAsciiAppend(a[1..], b);
    } else {
      assert a + b == b;
    }
  }

  lemma {:induction false} ExpandWithAppend(a: string, b: string, table: seq<(char, string)>)
    ensures ExpandWith(a + b, table) == ExpandWith(a, table) + ExpandWith(b, table)
  {
    if a != [] {
      assert (a + b)[0] == a[0] && (a + b)[1..] == a[1..] + b;
      ExpandWithAppend(a[1..], b, table);
    } else {
      assert a + b == b;
    }
  }

  lemma {:induction false} KeepAllowedAppend(a: string, b: string)
    ensures KeepAllowed(a + b) == KeepAllowed(a) + KeepAllowed(b)
  {
    if a != [] {
      assert (a + b)[0] == a[0] && (a + b)[1..] == a[1..] + b;
      KeepAllowedAppend(a[1..], b);
    } else {
      assert a + b == b;
    }
  }

  /** Replacing a symbol that does not occur changes nothing. */
  lemma {:induction false} ReplaceAllAbsent(s: string, sym: char, repl: string)
    requires sym !in s
    ensures ReplaceAll(s, sym, repl) == s
  {
    if s != [] {
      assert sym !in s[1..];
      ReplaceAllAbsent(s[1..], sym, repl);
    }
  }

  /** After replacing a symbol by a text without it, the symbol is gone. */
  lemma {:induction false} ReplaceAllRemoves(s: string, sym: char, repl: string)
    requires sym !in repl
    ensures sym !in ReplaceAll(s, sym, repl)
  {
    if s != [] {
      ReplaceAllRemoves(s[1..], sym, repl);
    }
  }

  lemma {:induction false} ReplaceAllAppend(a: string, b: string, sym: char, repl: string)
    ensures ReplaceAll(a + b, sym, repl) == ReplaceAll(a, sym, repl) + ReplaceAll(b, sym, repl)
  {
    if a != [] {
      assert (a + b)[0] == a[0] && (a + b)[1..] == a[1..] + b;
      ReplaceAllAppend(a[1..], b, sym, repl);
    } else {
      assert a + b == b;
    }
  }

  // ---------------------------------------------------------------------
  // Applying the table one entry at a time, as the source's `for` loop does,
  // equals applying it all at once
  // ---------------------------------------------------------------------

  /** `sym` can be applied after the entries of `table`: it is none of their
      symbols and occurs in none of their padded words. */
  predicate FreshSymbol(sym: char, table: seq<(char, string)>) {
    forall k :: 0 <= k < |table| ==> table[k].0 != sym && sym !in Padded(table[k].1)
  }

  lemma {:induction false} SymbolTextStep(c: char, table: seq<(char, string)>, sym: char, word: string)
    requires FreshSymbol(sym, table)
    ensures ReplaceAll(SymbolText(c, table), sym, Padded(word)) == SymbolText(c, table + [(sym, word)])
  {
    if table == [] {
      assert [(sym, word)][1..] == [];
    } else {
      assert (table + [(sym, word)])[1..] == table[1..] + [(sym, word)];
      if table[0].0 != c {
        assert FreshSymbol(sym, table[1..]) by {
          forall k | 0 <= k < |table[1..]|
            ensures table[1..][k].0 != sym && sym !in Padded(table[1..][k].1)
          {
            assert table[1..][k] == table[k + 1];
          }
        }
        SymbolTextStep(c, table[1..], sym, word);
      } else {
        ReplaceAllAbsent(Padded(table[0].1), sym, Padded(word));
      }
    }
  }

  lemma {:induction false} ExpandWithStep(s: string, table: seq<(char, string)>, sym: char, word: string)
    requires FreshSymbol(sym, table)
    ensures ReplaceAll(ExpandWith(s, table), sym, Padded(word)) == ExpandWith(s, table + [(sym, word)])
  {
    if s != [] {
      ReplaceAllAppend(SymbolText(s[0], table), ExpandWith(s[1..], table), sym, Padded(word));
      SymbolTextStep(s[0], table, sym, word);
      ExpandWithStep(s[1..], table, sym, word);
    }
  }

  /** Each entry of a well-formed table can be applied after the ones before it. */
  lemma TablePrefixFresh(table: seq<(char, string)>, i: nat)
    requires WellFormedTable(table) && i < |table|
    ensures FreshSymbol(table[i].0, table[..i])
  {
    forall k | 0 <= k < i
      ensures table[..i][k].0 != table[i].0 && table[i].0 !in Padded(table[..i][k].1)
    {
      var p := Padded(table[k].1);
      forall m | 0 <= m < |p| ensures p[m] != table[i].0 {
        if 0 < m < |p| - 1 {
          assert p[m] == table[k].1[m - 1];
        }
      }
    }
  }


  /** The replacement table can be applied one entry at a time. */
  lemma ReplacementsPrefixFresh(i: nat)
    requires i < |Replacements|
    ensures FreshSymbol(Replacements[i].0, Replacements[..i])
  {
    ReplacementsWellFormed();
    TablePrefixFresh(Replacements, i);
  }

  // ---------------------------------------------------------------------
  // Passes that leave a finished slug unchanged
  // ---------------------------------------------------------------------

  lemma LowerAsciiOfSlugChars(s: string)
    requires AllSlugChars(s)
    ensures LowerAscii(s) == s
  {
  }

  lemma {:induction false} StripNonAsciiOfAscii(s: string)
    requires forall i :: 0 <= i < |s| ==> s[i] as int < 128
    ensures StripNonAscii(s) == s
  {
    if s != [] {
      StripNonAsciiOfAscii(s[1..]);
    }
  }

  lemma {:induction false} SymbolTextOfNonSymbol(c: char, table: seq<(char, string)>)
    requires !IsSymbolOf(c, table)
    ensures SymbolText(c, table) == [c]
  {
    if table != [] {
      SymbolTextOfNonSymbol(c, table[1..]);
    }
  }

  lemma {:induction false} ExpandWithEmptyTable(s: string)
    ensures ExpandWith(s, []) == s
  {
    if s != [] {
      ExpandWithEmptyTable(s[1..]);
    }
  }

  lemma {:induction false} ExpandWithOfNoSymbols(s: string, table: seq<(char, string)>)
    requires WellFormedTable(table) && AllAllowed(s)
    ensures ExpandWith(s, table) == s
  {
    if s != [] {
      assert !IsSymbolOf(s[0], table);
      SymbolTextOfNonSymbol(s[0], table);
      ExpandWithOfNoSymbols(s[1..], table);
    }
  }
}
