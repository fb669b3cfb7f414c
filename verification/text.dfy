/**
 * The Python string operations the differentiator of
 * numerical_methods/derivatives.py is built from, on strings as
 * `seq<char>`: `str.replace`, `str.strip`, `str.lower`, `''.join` and
 * `re.split(r'([+-])', ...)`.
 */
module Text {

  /** pat occurs somewhere in s. */
  predicate Contains(s: string, pat: string)
    decreases |s|
  {
    pat <= s || (s != [] && Contains(s[1..], pat))
  }

  /**
   * Python's s.replace(pat, rep) for a non-empty pat: occurrences are found
   * left to right, do not overlap, and each is replaced once.
   */
  function Replace(s: string, pat: string, rep: string): (r: string)
    requires pat != []
    ensures !Contains(s, pat) ==> r == s
    ensures pat == rep ==> r == s
    ensures |rep| <= |pat| ==> |r| <= |s|
    decreases |s|
  {
    if s == [] then []
    else if pat <= s then rep + Replace(s[|pat|..], pat, rep)
    else [s[0]] + Replace(s[1..], pat, rep)
  }

  lemma {:induction false} ContainsSuffix(s: string, pat: string, k: nat)
    requires k <= |s|
    ensures Contains(s[k..], pat) ==> Contains(s, pat)
    decreases k
  {
    if k > 0 {
      assert s[1..][k - 1..] == s[k..];
      ContainsSuffix(s[1..], pat, k - 1);
    }
  }

  lemma {:induction false} ContainsAt(s: string, pat: string, k: nat)
    requires k + |pat| <= |s|
    requires s[k..k + |pat|] == pat
    ensures Contains(s, pat)
  {
    assert pat <= s[k..];
    if k > 0 {
      ContainsSuffix(s, pat, k);
    }
  }

  // ------------------------------------------------------------ erasure

  /** s with every character of e deleted. */
  function Erase(s: string, e: set<char>): (r: string)
    ensures |r| <= |s|
    ensures forall i :: 0 <= i < |r| ==> r[i] !in e
  {
    if s == [] then []
    else if s[0] in e then Erase(s[1..], e)
    else [s[0]] + Erase(s[1..], e)
  }

  lemma {:induction false} EraseAppend(a: string, b: string, e: set<char>)
    ensures Erase(a + b, e) == Erase(a, e) + Erase(b, e)
  {
    if a == [] {
      assert a + b == b;
    } else {
      assert (a + b)[1..] == a[1..] + b;
      EraseAppend(a[1..], b, e);
    }
  }

  /**
   * A replacement that only trades characters of e for characters of e
   * leaves every other character, and their order, as it was.
   */
  lemma {:induction false} ReplaceKeepsErasure(s: string, pat: string, rep: string, e: set<char>)
    requires pat != []
    requires Erase(pat, e) == Erase(rep, e)
    ensures Erase(Replace(s, pat, rep), e) == Erase(s, e)
    decreases |s|
  {
    if s == [] {
    } else if pat <= s {
      ReplaceKeepsErasure(s[|pat|..], pat, rep, e);
      EraseAppend(rep, Replace(s[|pat|..], pat, rep), e);
      assert s == pat + s[|pat|..];
      EraseAppend(pat, s[|pat|..], e);
    } else {
      ReplaceKeepsErasure(s[1..], pat, rep, e);
      EraseAppend([s[0]], Replace(s[1..], pat, rep), e);
      assert s == [s[0]] + s[1..];
      EraseAppend([s[0]], s[1..], e);
    }
  }

  // ---------------------------------------------------- doubled characters

  /** Two adjacent copies of c. */
  function Double(c: char): string
  {
    [c, c]
  }

  /** A doubled c in a + b lies in a, in b, or across the seam. */
  lemma {:induction false} DoubleInAppend(a: string, b: string, c: char)
    ensures Contains(a + b, Double(c)) <==>
              || Contains(a, Double(c))
              || Contains(b, Double(c))
              || (a != [] && b != [] && a[|a| - 1] == c && b[0] == c)
  {
    if a == [] {
      assert a + b == b;
    } else {
      assert (a + b)[1..] == a[1..] + b;
      DoubleInAppend(a[1..], b, c);
      if |a| == 1 {
        assert !Contains(a[1..], Double(c));
        if b != [] && b[0] == c && a[0] == c {
          assert Double(c) <= a + b;
        }
      }
    }
  }

  /**
   * If a replacement, seen from the left, starts with c, the input started
   * with c or held a doubled c: the replacement text has no c, and a
   * deleted occurrence ends in c.
   */
  lemma {:induction false} ReplaceHeadIsC(t: string, pat: string, rep: string, c: char)
    requires pat != [] && c !in rep
    requires rep != [] || pat[|pat| - 1] == c
    ensures var r := Replace(t, pat, rep);
            r != [] && r[0] == c ==> t != [] && (t[0] == c || Contains(t, Double(c)))
    decreases |t|
  {
    if t == [] {
    } else if pat <= t {
      var t' := t[|pat|..];
      var r' := Replace(t', pat, rep);
      assert Replace(t, pat, rep) == rep + r';
      if rep == [] {
        ReplaceHeadIsC(t', pat, rep, c);
        if r' != [] && r'[0] == c {
          assert t[|pat| - 1] == c;
          DoubleAcrossCut(t, |pat|, c);
        }
      } else {
        assert rep[0] != c;
      }
    }
  }

  /** A c just before a cut, followed after it by a c or a doubled c, gives a doubled c. */
  lemma DoubleAcrossCut(t: string, k: nat, c: char)
    requires 0 < k < |t| && t[k - 1] == c
    requires t[k] == c || Contains(t[k..], Double(c))
    ensures Contains(t, Double(c))
  {
    if t[k] == c {
      assert t[k - 1..k + 1] == Double(c);
      ContainsAt(t, Double(c), k - 1);
    } else {
      ContainsSuffix(t, Double(c), k);
    }
  }

  /**
   * A replacement whose text holds no c, and which either inserts
   * something or deletes an occurrence ending in c, cannot create a
   * doubled c.
   */
  lemma {:induction false} ReplaceKeepsNoDouble(s: string, pat: string, rep: string, c: char)
    requires pat != [] && c !in rep
    requires rep != [] || pat[|pat| - 1] == c
    requires !Contains(s, Double(c))
    ensures !Contains(Replace(s, pat, rep), Double(c))
    decreases |s|
  {
    if s == [] {
    } else if pat <= s {
      var t := s[|pat|..];
      ContainsSuffix(s, Double(c), |pat|);
      ReplaceKeepsNoDouble(t, pat, rep, c);
      DoubleInAppend(rep, Replace(t, pat, rep), c);
      assert !Contains(rep, Double(c)) by {
        if Contains(rep, Double(c)) {
          NoCharNoDouble(rep, c);
        }
      }
    } else {
      var t := s[1..];
      ContainsSuffix(s, Double(c), 1);
      ReplaceKeepsNoDouble(t, pat, rep, c);
      DoubleInAppend([s[0]], Replace(t, pat, rep), c);
      ReplaceHeadIsC(t, pat, rep, c);
      assert !Contains([s[0]], Double(c));
    }
  }

  /** Replacing every doubled c by text without c leaves no doubled c. */
  lemma {:induction false} ReplaceRemovesDouble(s: string, c: char, rep: string)
    requires c !in rep
    ensures !Contains(Replace(s, Double(c), rep), Double(c))
    decreases |s|
  {
    if s == [] {
    } else if Double(c) <= s {
      var t := s[2..];
      ReplaceRemovesDouble(t, c, rep);
      DoubleInAppend(rep, Replace(t, Double(c), rep), c);
      if rep != [] {
        NoCharNoDouble(rep, c);
      }
    } else {
      var t := s[1..];
      ReplaceRemovesDouble(t, c, rep);
      DoubleInAppend([s[0]], Replace(t, Double(c), rep), c);
      ReplaceHeadIsC(t, Double(c), rep, c);
      if Contains(t, Double(c)) && s[0] == c {
        NoCharNoDouble(rep, c);
      }
      assert !Contains([s[0]], Double(c));
    }
  }

  /** A pattern holding a character s lacks does not occur in s. */
  lemma {:induction false} NoCharNotContains(s: string, pat: string, c: char)
    requires c in pat && c !in s
    ensures !Contains(s, pat)
    decreases |s|
  {
    if s != [] {
      assert !(pat <= s);
      assert c !in s[1..];
      NoCharNotContains(s[1..], pat, c);
    }
  }

  /** Text shorter than the pattern does not contain it. */
  lemma {:induction false} ShortNotContains(s: string, pat: string)
    requires |s| < |pat|
    ensures !Contains(s, pat)
    decreases |s|
  {
    if s != [] {
      ShortNotContains(s[1..], pat);
    }
  }

  /**
   * When the pattern's first character does not occur in a, the pattern
   * does not occur in a followed by all but its last character: the
   * condition under which ReplaceFirst replaces the occurrence after a.
   */
  lemma {:induction false} HeadFreeNotContains(a: string, pat: string)
    requires pat != [] && pat[0] !in a
    ensures !Contains(a + pat[..|pat| - 1], pat)
    decreases |a|
  {
    var w := pat[..|pat| - 1];
    if a == [] {
      assert a + w == w;
      ShortNotContains(w, pat);
    } else {
      assert (a + w)[0] == a[0];
      assert (a + w)[1..] == a[1..] + w;
      HeadFreeNotContains(a[1..], pat);
    }
  }

  /** A stretch that cannot start the pattern passes through a replacement unchanged. */
  lemma {:induction false} ReplaceSkips(a: string, b: string, pat: string, rep: string)
    requires pat != [] && pat[0] !in a
    ensures Replace(a + b, pat, rep) == a + Replace(b, pat, rep)
    decreases |a|
  {
    if a == [] {
      assert a + b == b;
    } else {
      var s := a + b;
      assert Replace(s, pat, rep) == [a[0]] + Replace(a[1..] + b, pat, rep) by {
        assert s[0] == a[0];
        assert s[1..] == a[1..] + b;
        ReplaceSkipsHead(s, pat, rep);
      }
      assert Replace(a[1..] + b, pat, rep) == a[1..] + Replace(b, pat, rep) by {
        ReplaceSkips(a[1..], b, pat, rep);
      }
      assert a == [a[0]] + a[1..];
    }
  }

  /** An occurrence at the front is replaced, and the search goes on after it. */
  lemma ReplaceHit(pat: string, u: string, rep: string)
    requires pat != []
    ensures Replace(pat + u, pat, rep) == rep + Replace(u, pat, rep)
  {
    assert pat <= pat + u;
    assert (pat + u)[|pat|..] == u;
  }

  /** A lone occurrence after text that cannot start the pattern is replaced, and nothing else changes. */
  lemma ReplaceOnce(a: string, pat: string, b: string, rep: string)
    requires pat != [] && pat[0] !in a && !Contains(b, pat)
    ensures Replace(a + pat + b, pat, rep) == a + rep + b
  {
    var u := pat + b;
    assert Replace(u, pat, rep) == rep + b by {
      ReplaceHit(pat, b, rep);
    }
    assert Replace(a + u, pat, rep) == a + Replace(u, pat, rep) by {
      ReplaceSkips(a, u, pat, rep);
    }
    assert a + pat + b == a + u;
    assert a + (rep + b) == a + rep + b;
  }

  /** A pattern that is not a prefix of w is not a prefix of anything that extends w. */
  lemma NotPrefixOfLonger(pat: string, w: string, s: string)
    requires |pat| <= |w| && w <= s && !(pat <= w)
    ensures !(pat <= s)
  {
    var k :| 0 <= k < |pat| && pat[k] != w[k];
    assert s[k] == w[k];
  }

  /**
   * The first occurrence is replaced: when pat does not occur in a, nor
   * straddle the end of a, Replace copies a, writes rep, and goes on after
   * the occurrence. With "no occurrence, no change" this pins Replace down
   * as Python's left-to-right, non-overlapping str.replace.
   */
  lemma ReplaceFirst(a: string, pat: string, b: string, rep: string)
    requires pat != [] && !Contains(a + pat[..|pat| - 1], pat)
    ensures Replace(a + pat + b, pat, rep) == a + rep + Replace(b, pat, rep)
  {
    assert a + pat + b == a + (pat + b);
    ReplaceCopies(a, pat + b, pat, rep);
    ReplaceHit(pat, b, rep);
  }

  /**
   * Text before an occurrence of pat, with no occurrence of its own and none
   * straddling into the occurrence, is copied unchanged.
   */
  lemma {:induction false} ReplaceCopies(a: string, u: string, pat: string, rep: string)
    requires pat != [] && pat <= u && !Contains(a + pat[..|pat| - 1], pat)
    ensures Replace(a + u, pat, rep) == a + Replace(u, pat, rep)
    decreases |a|
  {
    if a == [] {
      assert a + u == u;
    } else {
      var r := Replace(u, pat, rep);
      var s := a + u;
      assert Replace(s, pat, rep) == [s[0]] + Replace(s[1..], pat, rep) by {
        StraddleFree(a, pat, u);
        ReplaceSkipsHead(s, pat, rep);
      }
      assert Replace(s[1..], pat, rep) == a[1..] + r by {
        assert s[1..] == a[1..] + u;
        StraddleFree(a, pat, u);
        ReplaceCopies(a[1..], u, pat, rep);
      }
      assert [s[0]] + (a[1..] + r) == a + r by {
        assert s[0] == a[0];
        assert a == [a[0]] + a[1..];
      }
    }
  }

  /** Text that does not start with the pattern keeps its first character. */
  lemma ReplaceSkipsHead(s: string, pat: string, rep: string)
    requires pat != [] && s != [] && !(pat <= s)
    ensures Replace(s, pat, rep) == [s[0]] + Replace(s[1..], pat, rep)
  {
  }

  /**
   * When pat neither occurs in a nor straddles its end, a followed by an
   * occurrence of pat does not start with pat, and the same holds once a's
   * first character is dropped.
   */
  lemma StraddleFree(a: string, pat: string, u: string)
    requires pat != [] && a != [] && pat <= u && !Contains(a + pat[..|pat| - 1], pat)
    ensures !(pat <= a + u)
    ensures !Contains(a[1..] + pat[..|pat| - 1], pat)
  {
    var w := a + pat[..|pat| - 1];
    assert !(pat <= a + u) by {
      assert !(pat <= w);
      assert w <= a + u;
      NotPrefixOfLonger(pat, w, a + u);
    }
    assert w[1..] == a[1..] + pat[..|pat| - 1];
  }

  /** A character that starts the pattern, followed by one that does not continue it, is kept. */
  lemma ReplaceMiss(c: char, u: string, pat: string, rep: string)
    requires |pat| > 1 && u != [] && u[0] != pat[1]
    ensures Replace([c] + u, pat, rep) == [c] + Replace(u, pat, rep)
  {
    assert ([c] + u)[1] == u[0];
    assert !(pat <= [c] + u);
    assert ([c] + u)[1..] == u;
  }

  lemma {:induction false} NoCharNoDouble(s: string, c: char)
    requires c !in s
    ensures !Contains(s, Double(c))
    decreases |s|
  {
    if s != [] {
      assert s[0] != c;
      assert c !in s[1..];
      NoCharNoDouble(s[1..], c);
    }
  }

  // ------------------------------------------------------ strip and lower

  /**
   * The characters Python's str.strip() removes: the ASCII controls 9-13
   * and 28-31, space, and the Unicode spaces and separators.
   */
  predicate IsSpace(c: char)
  {
    var n := c as int;
    || 9 <= n <= 13 || 28 <= n <= 32
    || n == 0x85 || n == 0xA0 || n == 0x1680
    || 0x2000 <= n <= 0x200A
    || n == 0x2028 || n == 0x2029 || n == 0x202F || n == 0x205F || n == 0x3000
  }

  /** How many whitespace characters s starts with. */
  function LeadCount(s: string): (n: nat)
    ensures n <= |s|
    ensures forall j :: 0 <= j < n ==> IsSpace(s[j])
    ensures n == |s| || !IsSpace(s[n])
  {
    if s != [] && IsSpace(s[0]) then 1 + LeadCount(s[1..]) else 0
  }

  /** How many whitespace characters s ends with. */
  function TrailCount(s: string): (n: nat)
    ensures n <= |s|
    ensures forall j :: |s| - n <= j < |s| ==> IsSpace(s[j])
    ensures n == |s| || !IsSpace(s[|s| - 1 - n])
  {
    if s != [] && IsSpace(s[|s| - 1]) then 1 + TrailCount(s[..|s| - 1]) else 0
  }

  /**
   * Python's s.strip(): what is left once whitespace is cut from both
   * ends. It is empty exactly when s is all whitespace, and otherwise
   * starts and ends with a character that is not whitespace.
   */
  function Strip(s: string): (r: string)
    ensures r == [] <==> forall j :: 0 <= j < |s| ==> IsSpace(s[j])
    ensures r != [] ==> !IsSpace(r[0]) && !IsSpace(r[|r| - 1])
    ensures |r| <= |s|
  {
    if LeadCount(s) == |s| then []
    else s[LeadCount(s)..|s| - TrailCount(s)]
  }

  /**
   * The strip is the middle of s, unchanged: everything before it and
   * everything after it is whitespace.
   */
  lemma StripTakesMiddle(s: string)
    ensures exists i, j :: 0 <= i <= j <= |s| && Strip(s) == s[i..j]
              && (forall k :: 0 <= k < i ==> IsSpace(s[k]))
              && (forall k :: j <= k < |s| ==> IsSpace(s[k]))
  {
    if LeadCount(s) == |s| {
      assert Strip(s) == s[|s|..|s|];
    } else {
      var i, j := LeadCount(s), |s| - TrailCount(s);
      assert Strip(s) == s[i..j];
    }
  }

  /** Stripping twice is stripping once. */
  lemma StripIdempotent(s: string)
    ensures Strip(Strip(s)) == Strip(s)
  {
    var t := Strip(s);
    if t != [] {
      assert LeadCount(t) == 0;
      assert TrailCount(t) == 0;
      assert t[0..|t|] == t;
    }
  }

  /** A string with no whitespace at either end is its own strip. */
  lemma StripOfTrimmed(s: string)
    requires s != [] && !IsSpace(s[0]) && !IsSpace(s[|s| - 1])
    ensures Strip(s) == s
  {
    assert LeadCount(s) == 0;
    assert TrailCount(s) == 0;
    assert s[0..|s|] == s;
  }

  /** Python's str.lower() on one character, for the ASCII letters. */
  function LowerChar(c: char): char
  {
    if 'A' <= c <= 'Z' then (c as int + 32) as char else c
  }

  function Lower(s: string): (r: string)
    ensures |r| == |s|
    ensures forall i :: 0 <= i < |s| ==> r[i] == LowerChar(s[i])
  {
    if s == [] then [] else [LowerChar(s[0])] + Lower(s[1..])
  }

  /** The first line of calculate_derivative: spaces removed, then lower-cased. */
  function Normalize(s: string): (r: string)
  {
    Lower(Replace(s, " ", ""))
  }

  lemma {:induction false} NoSpaceAfterRemoval(s: string)
    ensures ' ' !in Replace(s, " ", "")
    decreases |s|
  {
    if s != [] {
      NoSpaceAfterRemoval(s[1..]);
    }
  }

  /** A normalised string has no space and no upper-case ASCII letter. */
  lemma NormalizeShape(s: string)
    ensures ' ' !in Normalize(s)
    ensures forall i :: 0 <= i < |Normalize(s)| ==> !('A' <= Normalize(s)[i] <= 'Z')
  {
    var t := Replace(s, " ", "");
    NoSpaceAfterRemoval(s);
    assert forall i :: 0 <= i < |t| ==> t[i] != ' ';
  }

  /** Normalising twice is normalising once, so layout and case never matter twice. */
  lemma NormalizeIdempotent(s: string)
    ensures Normalize(Normalize(s)) == Normalize(s)
  {
    var n := Normalize(s);
    NormalizeShape(s);
    NoSpaceNoContains(n);
    assert Lower(n) == n;
  }

  /** Text without spaces or upper-case ASCII letters is already normalised. */
  lemma NormalizeKeeps(s: string)
    requires ' ' !in s
    requires forall i :: 0 <= i < |s| ==> !('A' <= s[i] <= 'Z')
    ensures Normalize(s) == s
  {
    NoSpaceNoContains(s);
    assert Lower(s) == s;
  }

  lemma {:induction false} NoSpaceNoContains(s: string)
    requires ' ' !in s
    ensures !Contains(s, " ")
    decreases |s|
  {
    if s != [] {
      assert s[0] != ' ';
      assert ' ' !in s[1..];
      NoSpaceNoContains(s[1..]);
    }
  }

  // ---------------------------------------------------------- join, split

  /** ''.join(items). */
  function Concat(items: seq<string>): string
  {
    if items == [] then [] else items[0] + Concat(items[1..])
  }

  predicate IsSign(c: char)
  {
    c == '+' || c == '-'
  }

  /** No '+' or '-' anywhere in s. */
  predicate SignFree(s: string)
  {
    forall i :: 0 <= i < |s| ==> !IsSign(s[i])
  }

  /** The items of a split: sign-free text, then alternately one sign and sign-free text. */
  predicate Alternates(items: seq<string>)
  {
    && |items| % 2 == 1
    && (forall i :: 0 <= i < |items| && i % 2 == 0 ==> SignFree(items[i]))
    && (forall i :: 0 <= i < |items| && i % 2 == 1 ==> |items[i]| == 1 && IsSign(items[i][0]))
  }

  /**
   * re.split(r'([+-])', s): the text between signs, with each sign kept
   * as an item of its own; empty text is kept too.
   */
  function SplitSigns(s: string): (r: seq<string>)
    ensures Alternates(r)
    ensures Concat(r) == s
  {
    if s == [] then [[]]
    else
      var rest := SplitSigns(s[1..]);
      if IsSign(s[0]) then
        SplitSignStep(s, rest);
        [[], [s[0]]] + rest
      else
        SplitTextStep(s, rest);
        [[s[0]] + rest[0]] + rest[1..]
  }

  lemma SplitSignStep(s: string, rest: seq<string>)
    requires s != [] && IsSign(s[0])
    requires Alternates(rest) && Concat(rest) == s[1..]
    ensures Alternates([[], [s[0]]] + rest)
    ensures Concat([[], [s[0]]] + rest) == s
  {
    var r := [[], [s[0]]] + rest;
    ConcatAppend([[], [s[0]]], rest);
    assert Concat([[], [s[0]]]) == [s[0]] by {
      assert Concat([[], [s[0]]]) == [] + ([s[0]] + Concat([]));
    }
    assert s == [s[0]] + s[1..];
    forall i | 0 <= i < |r| && i % 2 == 0
      ensures SignFree(r[i])
    {
      if i >= 2 {
        assert r[i] == rest[i - 2];
      }
    }
    forall i | 0 <= i < |r| && i % 2 == 1
      ensures |r[i]| == 1 && IsSign(r[i][0])
    {
      if i >= 2 {
        assert r[i] == rest[i - 2];
      }
    }
  }

  lemma SplitTextStep(s: string, rest: seq<string>)
    requires s != [] && !IsSign(s[0])
    requires Alternates(rest) && Concat(rest) == s[1..]
    ensures Alternates([[s[0]] + rest[0]] + rest[1..])
    ensures Concat([[s[0]] + rest[0]] + rest[1..]) == s
  {
    SignFreeCons(s[0], rest[0]);
    AlternatesNewHead(rest, [s[0]] + rest[0]);
    ConcatNewHead(rest, [s[0]] + rest[0]);
    assert s == [s[0]] + s[1..];
  }

  /** Replacing the first piece of an alternating cutting by sign-free text keeps it alternating. */
  lemma AlternatesNewHead(items: seq<string>, head: string)
    requires Alternates(items) && SignFree(head)
    ensures Alternates([head] + items[1..])
  {
    var r := [head] + items[1..];
    forall i | 0 <= i < |r| && i % 2 == 0
      ensures SignFree(r[i])
    {
      if i > 0 {
        assert r[i] == items[i];
      }
    }
    forall i | 0 <= i < |r| && i % 2 == 1
      ensures |r[i]| == 1 && IsSign(r[i][0])
    {
      assert r[i] == items[i];
    }
  }

  lemma ConcatNewHead(items: seq<string>, head: string)
    requires items != []
    ensures Concat([head] + items[1..]) == head + Concat(items[1..])
    ensures Concat(items) == items[0] + Concat(items[1..])
  {
    assert ([head] + items[1..])[1..] == items[1..];
  }

  lemma SignFreeCons(c: char, t: string)
    requires !IsSign(c) && SignFree(t)
    ensures SignFree([c] + t)
  {
    forall j | 0 <= j < |[c] + t|
      ensures !IsSign(([c] + t)[j])
    {
      if j > 0 {
        assert ([c] + t)[j] == t[j - 1];
      }
    }
  }

  lemma {:induction false} ConcatAppend(a: seq<string>, b: seq<string>)
    ensures Concat(a + b) == Concat(a) + Concat(b)
  {
    if a == [] {
      assert a + b == b;
    } else {
      assert (a + b)[1..] == a[1..] + b;
      ConcatAppend(a[1..], b);
    }
  }

  /**
   * The split is the only way to cut s into alternating sign-free text and
   * single signs: any such cutting is the one SplitSigns returns.
   */
  lemma {:induction false} SplitSignsUnique(s: string, items: seq<string>)
    requires Alternates(items) && Concat(items) == s
    ensures items == SplitSigns(s)
    decreases |s|, |items[0]|
  {
    var head := items[0];
    if |items| == 1 {
      assert Concat(items) == head + Concat(items[1..]);
      assert items[1..] == [];
      assert s == head;
      assert SignFree(items[0]);
      SplitOfSignFree(s);
    } else if head == [] {
      var c := items[1][0];
      var tail := items[2..];
      assert items[1] == [c];
      assert items == [head, items[1]] + tail;
      ConcatAppend([head, items[1]], tail);
      assert Concat([head, items[1]]) == [c] by {
        assert Concat([head, items[1]]) == head + (items[1] + Concat([]));
      }
      assert s == [c] + Concat(tail);
      assert s[1..] == Concat(tail);
      AlternatesTail(items);
      SplitSignsUnique(s[1..], tail);
      assert IsSign(s[0]);
    } else {
      var items' := [head[1..]] + items[1..];
      assert SignFree(head[1..]) by {
        forall j | 0 <= j < |head[1..]|
          ensures !IsSign(head[1..][j])
        {
          assert head[1..][j] == head[j + 1];
        }
      }
      AlternatesNewHead(items, head[1..]);
      ConcatNewHead(items, head[1..]);
      assert head == [head[0]] + head[1..];
      assert s == [head[0]] + Concat(items');
      SplitSignsUnique(s[1..], items');
    }
  }

  /**
   * Splitting a + [c] + b at a sign c gives the split of a, the sign, and
   * the split of b: the sign's neighbours never merge with it.
   */
  lemma SplitAround(a: string, c: char, b: string)
    requires IsSign(c)
    ensures SplitSigns(a + [c] + b) == SplitSigns(a) + [[c]] + SplitSigns(b)
  {
    var x := SplitSigns(a);
    var y := SplitSigns(b);
    AlternatesJoin(x, c, y);
    ConcatAppend(x + [[c]], y);
    ConcatAppend(x, [[c]]);
    assert Concat([[c]]) == [c] by {
      assert Concat([[c]]) == [c] + Concat([]);
    }
    SplitSignsUnique(a + [c] + b, x + [[c]] + y);
  }

  lemma AlternatesJoin(x: seq<string>, c: char, y: seq<string>)
    requires Alternates(x) && IsSign(c) && Alternates(y)
    ensures Alternates(x + [[c]] + y)
  {
    var r := x + [[c]] + y;
    assert |r| % 2 == 1 by {
      AfterOddPrefix(|r|, |x|);
    }
    forall i | 0 <= i < |r| && i % 2 == 0
      ensures SignFree(r[i])
    {
      JoinEven(x, c, y, i);
    }
    forall i | 0 <= i < |r| && i % 2 == 1
      ensures |r[i]| == 1 && IsSign(r[i][0])
    {
      JoinOdd(x, c, y, i);
    }
  }

  /** An even position of the join holds sign-free text. */
  lemma JoinEven(x: seq<string>, c: char, y: seq<string>, i: int)
    requires Alternates(x) && Alternates(y)
    requires 0 <= i < |x| + 1 + |y| && i % 2 == 0
    ensures SignFree((x + [[c]] + y)[i])
  {
    if i < |x| {
      assert (x + [[c]] + y)[i] == x[i];
    } else {
      AfterOddPrefix(i, |x|);
      assert (x + [[c]] + y)[i] == y[i - |x| - 1];
    }
  }

  /** An odd position of the join holds one sign. */
  lemma JoinOdd(x: seq<string>, c: char, y: seq<string>, i: int)
    requires Alternates(x) && IsSign(c) && Alternates(y)
    requires 0 <= i < |x| + 1 + |y| && i % 2 == 1
    ensures |(x + [[c]] + y)[i]| == 1 && IsSign((x + [[c]] + y)[i][0])
  {
    if i < |x| {
      assert (x + [[c]] + y)[i] == x[i];
    } else if i > |x| {
      AfterOddPrefix(i, |x|);
      assert (x + [[c]] + y)[i] == y[i - |x| - 1];
    } else {
      assert (x + [[c]] + y)[i] == [c];
    }
  }

  /** Past an odd-length prefix and one more item, positions keep their parity. */
  lemma AfterOddPrefix(i: int, n: int)
    requires n % 2 == 1 && i > n
    ensures (i - n - 1) % 2 == i % 2
  {
    var m := n / 2;
    assert n == 2 * m + 1;
    assert i - n - 1 == i - 2 * (m + 1);
  }

  /** The signs of s, in order. */
  function Signs(s: string): (r: string)
    ensures forall i :: 0 <= i < |r| ==> IsSign(r[i])
    ensures SignFree(s) ==> r == []
  {
    if s == [] then []
    else if IsSign(s[0]) then [s[0]] + Signs(s[1..])
    else Signs(s[1..])
  }

  /** s has no sign exactly when it has no signs to list. */
  lemma {:induction false} SignsEmpty(s: string)
    ensures Signs(s) == [] <==> SignFree(s)
    decreases |s|
  {
    if s != [] && !IsSign(s[0]) {
      SignsEmpty(s[1..]);
      assert SignFree(s) <==> SignFree(s[1..]) by {
        if SignFree(s[1..]) {
          forall i | 0 <= i < |s|
            ensures !IsSign(s[i])
          {
            if i > 0 {
              assert s[i] == s[1..][i - 1];
            }
          }
        }
      }
    }
  }

  lemma {:induction false} SignsAppend(a: string, b: string)
    ensures Signs(a + b) == Signs(a) + Signs(b)
  {
    if a == [] {
      assert a + b == b;
    } else {
      assert (a + b)[1..] == a[1..] + b;
      SignsAppend(a[1..], b);
    }
  }

  lemma AlternatesTail(items: seq<string>)
    requires Alternates(items) && 3 <= |items|
    ensures Alternates(items[2..])
  {
    var tail := items[2..];
    forall i | 0 <= i < |tail| && i % 2 == 0
      ensures SignFree(tail[i])
    {
      assert tail[i] == items[i + 2];
    }
    forall i | 0 <= i < |tail| && i % 2 == 1
      ensures |tail[i]| == 1 && IsSign(tail[i][0])
    {
      assert tail[i] == items[i + 2];
    }
  }

  lemma {:induction false} SplitOfSignFree(s: string)
    requires SignFree(s)
    ensures SplitSigns(s) == [s]
    decreases |s|
  {
    if s != [] {
      assert SignFree(s[1..]) by {
        forall i | 0 <= i < |s[1..]|
          ensures !IsSign(s[1..][i])
        {
          assert s[1..][i] == s[i + 1];
        }
      }
      SplitOfSignFree(s[1..]);
      assert !IsSign(s[0]);
      assert s == [s[0]] + s[1..];
    }
  }
}
