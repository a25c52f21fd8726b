/** An independent description of what the last five passes of
    `generate_slug` (utils/slug_utils.py:46-59) compute: the words of the
    filtered text (its maximal runs of non-separator characters), joined by
    single hyphens. The lemmas show that every one of those passes leaves
    this value unchanged, and that a string already in slug shape is its own
    value; SlugUtils combines them into "the pipeline computes Hyphenated". */
module Hyphenation {
  import opened SlugText

  /** The position of the first separator, or |s| if there is none. */
  function FirstSeparator(s: string): (i: nat)
    ensures i <= |s|
    ensures forall j :: 0 <= j < i ==> !IsSeparator(s[j])
    ensures i < |s| ==> IsSeparator(s[i])
  {
    if s == [] || IsSeparator(s[0]) then 0 else 1 + FirstSeparator(s[1..])
  }

  /** Joins two pieces with one hyphen, leaving out the hyphen when either piece is empty. */
  function HyphenJoin(a: string, b: string): (r: string)
    ensures a == [] ==> r == b
    ensures b == [] ==> r == a
    ensures a != [] && b != [] ==> r == a + "-" + b
  {
    if a == [] then b else if b == [] then a else a + "-" + b
  }

  /** The words of `s`, separated by single hyphens. */
  function Hyphenated(s: string): string
    decreases |s|
  {
    var i := FirstSeparator(s);
    if i == |s| then s else HyphenJoin(s[..i], Hyphenated(s[i + 1..]))
  }

  /** `s` starts with a character that belongs to a word. */
  predicate LeadsWithWord(s: string) {
    s != [] && !IsSeparator(s[0])
  }

  /** A string in slug shape as far as separators go: no whitespace, no two
      hyphens in a row, no hyphen at either end. */
  predicate HyphenCanonical(t: string) {
    && NoWhitespace(t)
    && NoAdjacent(t, Hyphen)
    && (t != [] ==> t[0] != '-' && t[|t| - 1] != '-')
  }

  lemma HyphenJoinAssociative(x: string, y: string, z: string)
    ensures HyphenJoin(x, HyphenJoin(y, z)) == HyphenJoin(HyphenJoin(x, y), z)
  {
    if x != [] && y != [] && z != [] {
      assert x + "-" + (y + "-" + z) == (x + "-" + y) + "-" + z;
    }
  }

  // ---------------------------------------------------------------------
  // How Hyphenated behaves on a first character
  // ---------------------------------------------------------------------

  lemma HyphenatedConsSeparator(c: char, s: string)
    requires IsSeparator(c)
    ensures Hyphenated([c] + s) == Hyphenated(s)
  {
    assert FirstSeparator([c] + s) == 0;
    assert ([c] + s)[1..] == s;
  }

  lemma HyphenatedConsWord(c: char, s: string)
    requires !IsSeparator(c)
    ensures Hyphenated([c] + s) == if LeadsWithWord(s) then [c] + Hyphenated(s) else HyphenJoin([c], Hyphenated(s))
  {
    var t := [c] + s;
    assert t[1..] == s;
    assert FirstSeparator(t) == 1 + FirstSeparator(s);
    var i := FirstSeparator(s);
    if i == |s| {
      assert Hyphenated(t) == t;
    } else {
      assert t[..i + 1] == [c] + s[..i];
      assert t[i + 2..] == s[i + 1..];
      if i == 0 {
        assert s[..0] == [];
      }
    }
  }

  /** Hyphenated([c] + x) depends on x only through Hyphenated(x) and whether x starts with a word. */
  lemma HyphenatedConsCongruent(c: char, x: string, y: string)
    requires Hyphenated(x) == Hyphenated(y) && LeadsWithWord(x) == LeadsWithWord(y)
    ensures Hyphenated([c] + x) == Hyphenated([c] + y)
  {
    if IsSeparator(c) {
      HyphenatedConsSeparator(c, x);
      HyphenatedConsSeparator(c, y);
    } else {
      HyphenatedConsWord(c, x);
      HyphenatedConsWord(c, y);
    }
  }

  // ---------------------------------------------------------------------
  // Concatenation at a separator
  // ---------------------------------------------------------------------

  /** Splitting at any separator splits the words: the two halves are
      hyphenated independently and joined. */
  lemma {:induction false} HyphenatedSplit(a: string, c: char, b: string)
    requires IsSeparator(c)
    ensures Hyphenated(a + [c] + b) == HyphenJoin(Hyphenated(a), Hyphenated(b))
    decreases |a|
  {
    var t := a + ([c] + b);
    assert a + [c] + b == t;
    FirstSeparatorAppend(a, [c] + b);
    var i := FirstSeparator(a);
    if i == |a| {
      assert t[..|a|] == a && t[|a| + 1..] == b;
      HyphenatedAt(t, |a|);
    } else {
      assert t[..i] == a[..i];
      assert t[i + 1..] == a[i + 1..] + [c] + b;
      HyphenatedAt(t, i);
      HyphenatedAt(a, i);
      HyphenatedSplit(a[i + 1..], c, b);
      HyphenJoinAssociative(a[..i], Hyphenated(a[i + 1..]), Hyphenated(b));
    }
  }

  /** One unfolding of Hyphenated at its first separator. */
  lemma HyphenatedAt(s: string, i: nat)
    requires i == FirstSeparator(s) && i < |s|
    ensures Hyphenated(s) == HyphenJoin(s[..i], Hyphenated(s[i + 1..]))
  {
  }

  lemma {:induction false} FirstSeparatorAppend(a: string, b: string)
    ensures FirstSeparator(a + b) == if FirstSeparator(a) < |a| then FirstSeparator(a) else |a| + FirstSeparator(b)
  {
    if a == [] {
      assert a + b == b;
    } else {
      assert (a + b)[0] == a[0] && (a + b)[1..] == a[1..] + b;
      FirstSeparatorAppend(a[1..], b);
    }
  }

  lemma HyphenatedSnocSeparator(s: string, c: char)
    requires IsSeparator(c)
    ensures Hyphenated(s + [c]) == Hyphenated(s)
  {
    HyphenatedSplit(s, c, []);
    assert s + [c] + [] == s + [c];
  }

  // ---------------------------------------------------------------------
  // The passes leave Hyphenated unchanged
  // ---------------------------------------------------------------------

  lemma {:induction false} CollapseRunsKeepsWords(s: string, cls: CharClass)
    ensures Hyphenated(CollapseRuns(s, cls)) == Hyphenated(s)
    ensures LeadsWithWord(CollapseRuns(s, cls)) == LeadsWithWord(s)
  {
    if s != [] {
      var rest := CollapseRuns(s[1..], cls);
      CollapseRunsKeepsWords(s[1..], cls);
      assert s == [s[0]] + s[1..];
      if InClass(s[0], cls) {
        HyphenatedConsSeparator(s[0], s[1..]);
        if !(|s| > 1 && InClass(s[1], cls)) {
          HyphenatedConsSeparator(Representative(cls), rest);
        }
      } else {
        HyphenatedConsCongruent(s[0], rest, s[1..]);
      }
    }
  }

  lemma {:induction false} StripStartKeepsWords(s: string, cls: CharClass)
    ensures Hyphenated(StripStart(s, cls)) == Hyphenated(s)
  {
    if s != [] && InClass(s[0], cls) {
      StripStartKeepsWords(s[1..], cls);
      assert s == [s[0]] + s[1..];
      HyphenatedConsSeparator(s[0], s[1..]);
    }
  }

  lemma {:induction false} StripEndKeepsWords(s: string, cls: CharClass)
    ensures Hyphenated(StripEnd(s, cls)) == Hyphenated(s)
  {
    if s != [] && InClass(s[|s| - 1], cls) {
      StripEndKeepsWords(s[..|s| - 1], cls);
      assert s == s[..|s| - 1] + [s[|s| - 1]];
      HyphenatedSnocSeparator(s[..|s| - 1], s[|s| - 1]);
    }
  }

  lemma StripKeepsWords(s: string, cls: CharClass)
    ensures Hyphenated(Strip(s, cls)) == Hyphenated(s)
  {
    StripStartKeepsWords(s, cls);
    StripEndKeepsWords(StripStart(s, cls), cls);
  }

  lemma {:induction false} ReplaceCharKeepsWords(s: string, from: char, to: char)
    requires IsSeparator(from) && IsSeparator(to)
    ensures Hyphenated(ReplaceChar(s, from, to)) == Hyphenated(s)
    ensures LeadsWithWord(ReplaceChar(s, from, to)) == LeadsWithWord(s)
  {
    if s != [] {
      var c := if s[0] == from then to else s[0];
      var rest := ReplaceChar(s[1..], from, to);
      ReplaceCharCons(s, from, to);
      ReplaceCharKeepsWords(s[1..], from, to);
      assert s == [s[0]] + s[1..];
      if IsSeparator(s[0]) {
        HyphenatedConsSeparator(s[0], s[1..]);
        HyphenatedConsSeparator(c, rest);
      } else {
        HyphenatedConsCongruent(s[0], rest, s[1..]);
      }
    }
  }

  // ---------------------------------------------------------------------
  // A string in slug shape is its own hyphenation
  // ---------------------------------------------------------------------

  lemma {:induction false} HyphenatedOfCanonical(t: string)
    requires HyphenCanonical(t)
    ensures Hyphenated(t) == t
    decreases |t|
  {
    var i := FirstSeparator(t);
    if i < |t| {
      assert t[i] == '-';
      assert 0 < i < |t| - 1;
      var rest := t[i + 1..];
      assert rest[0] == t[i + 1] && rest[0] != '-';
      assert HyphenCanonical(rest) by {
        forall k, l | 0 <= k && l == k + 1 && l < |rest|
          ensures !(InClass(rest[k], Hyphen) && InClass(rest[l], Hyphen))
        {
          assert rest[k] == t[i + 1 + k] && rest[l] == t[i + 1 + l];
        }
      }
      HyphenatedOfCanonical(rest);
      assert t == t[..i] + "-" + rest;
    }
  }

  // ---------------------------------------------------------------------
  // What survives in Hyphenated
  // ---------------------------------------------------------------------

  /** Hyphenated is empty exactly when `s` holds no word character at all. */
  lemma {:induction false} HyphenatedEmptyIff(s: string)
    ensures Hyphenated(s) == [] <==> forall k :: 0 <= k < |s| ==> IsSeparator(s[k])
    decreases |s|
  {
    var i := FirstSeparator(s);
    if i == |s| {
      if s != [] {
        assert !IsSeparator(s[0]);
      }
    } else {
      HyphenatedEmptyIff(s[i + 1..]);
      if i > 0 {
        assert !IsSeparator(s[0]);
      } else {
        assert forall k :: 0 < k < |s| ==> s[k] == s[1..][k - 1];
      }
    }
  }

  /** The words of a text with no separators are the text itself. */
  lemma HyphenatedOfWord(w: string)
    requires forall k :: 0 <= k < |w| ==> !IsSeparator(w[k])
    ensures Hyphenated(w) == w
  {
  }
}
