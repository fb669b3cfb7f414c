/**
 * The numeral pattern `[+-]?\d+(\.\d+)?` of numerical_methods/derivatives.py
 * and what `float()` makes of the text it matches. `re.match` anchors at
 * the start only and, for this pattern, takes the longest numeral there;
 * NumeralAt is that parse, and NumeralBetween says when a stretch of text
 * has the pattern's shape. Positions are indices into the text; values
 * are exact reals.
 */
module Numerals {
  import opened Results
  import opened Text

  predicate IsDigit(c: char)
  {
    '0' <= c <= '9'
  }

  function DigitValue(c: char): nat
    requires IsDigit(c)
  {
    c as int - '0' as int
  }

  function DigitChar(d: nat): (c: char)
    requires d < 10
    ensures IsDigit(c) && DigitValue(c) == d
  {
    ('0' as int + d) as char
  }

  /** s[i..j] is all digits. */
  predicate DigitsBetween(s: string, i: nat, j: nat)
    requires i <= j <= |s|
  {
    forall k :: i <= k < j ==> IsDigit(s[k])
  }

  /** Where the run of digits that starts at i ends. */
  function RunEnd(s: string, i: nat): (e: nat)
    requires i <= |s|
    ensures i <= e <= |s|
    ensures DigitsBetween(s, i, e)
    ensures e < |s| ==> !IsDigit(s[e])
    decreases |s| - i
  {
    if i < |s| && IsDigit(s[i]) then RunEnd(s, i + 1) else i
  }

  /** s[i..j] is digits, a '.' at p, and digits again, with digits on both sides. */
  predicate PointAt(s: string, i: nat, p: nat, j: nat)
    requires i <= j <= |s|
  {
    i < p < j - 1 && s[p] == '.' && DigitsBetween(s, i, p) && DigitsBetween(s, p + 1, j)
  }

  /** s[i..j] matches `\d+(\.\d+)?` in full. */
  predicate UnsignedBetween(s: string, i: nat, j: nat)
    requires i <= j <= |s|
  {
    i < j && (DigitsBetween(s, i, j) || exists p :: i < p < j && PointAt(s, i, p, j))
  }

  /** s[i..j] matches `[+-]?\d+(\.\d+)?` in full. */
  predicate NumeralBetween(s: string, i: nat, j: nat)
    requires i <= j <= |s|
  {
    if i < j && IsSign(s[i]) then UnsignedBetween(s, i + 1, j) else UnsignedBetween(s, i, j)
  }

  /** The whole of t matches the numeral pattern. */
  predicate Numeric(t: string)
  {
    NumeralBetween(t, 0, |t|)
  }

  /** The number the digits s[i..j] denote, most significant first. */
  function ValueBetween(s: string, i: nat, j: nat): nat
    requires i <= j <= |s| && DigitsBetween(s, i, j)
    decreases j - i
  {
    if i == j then 0 else 10 * ValueBetween(s, i, j - 1) + DigitValue(s[j - 1])
  }

  /** The digits s[i..j] read after a decimal point: "25" is 0.25. */
  function FractionBetween(s: string, i: nat, j: nat): (r: real)
    requires i <= j <= |s| && DigitsBetween(s, i, j)
    ensures 0.0 <= r <= 1.0
    decreases j - i
  {
    if i == j then 0.0 else (DigitValue(s[i]) as real + FractionBetween(s, i + 1, j)) / 10.0
  }

  /** A numeral read from a text: its value and the index just past it. */
  datatype Numeral = Numeral(value: real, end: nat)

  /** m, negated when the text has a '-' at i. */
  function SignAt(s: string, i: nat, m: real): real
  {
    if i < |s| && s[i] == '-' then -m else m
  }

  /**
   * re.match of the numeral pattern at index i, followed by float() of the
   * matched text: an optional sign, a run of digits and, when a digit
   * follows a '.', the '.' and the run of digits after it.
   */
  function NumeralAt(s: string, i: nat): (r: Option<Numeral>)
    requires i <= |s|
    ensures r.Some? ==> i < r.value.end <= |s|
  {
    var start := if i < |s| && IsSign(s[i]) then i + 1 else i;
    var whole := RunEnd(s, start);
    if whole == start then None
    else if whole + 1 < |s| && s[whole] == '.' && IsDigit(s[whole + 1]) then
      var frac := RunEnd(s, whole + 1);
      Some(Numeral(SignAt(s, i, ValueBetween(s, start, whole) as real + FractionBetween(s, whole + 1, frac)), frac))
    else
      Some(Numeral(SignAt(s, i, ValueBetween(s, start, whole) as real), whole))
  }

  // ------------------------------------------------- the longest match

  /**
   * NumeralAt takes the longest stretch from i with the numeral's shape,
   * and finds none exactly when no stretch from i has it.
   */
  lemma NumeralAtIsLongest(s: string, i: nat)
    requires i <= |s|
    ensures NumeralAt(s, i).Some? ==> NumeralBetween(s, i, NumeralAt(s, i).value.end)
    ensures NumeralAt(s, i).Some? ==>
              forall j :: NumeralAt(s, i).value.end < j <= |s| ==> !NumeralBetween(s, i, j)
    ensures NumeralAt(s, i).None? ==> forall j :: i <= j <= |s| ==> !NumeralBetween(s, i, j)
  {
    var start := if i < |s| && IsSign(s[i]) then i + 1 else i;
    var whole := RunEnd(s, start);
    var point := whole + 1 < |s| && s[whole] == '.' && IsDigit(s[whole + 1]);
    var end := if point then RunEnd(s, whole + 1) else whole;
    forall j | i <= j <= |s|
      ensures NumeralBetween(s, i, j) <==> start <= j && UnsignedBetween(s, start, j)
    {
    }
    if whole > start {
      if point {
        assert PointAt(s, start, whole, end);
      }
      assert UnsignedBetween(s, start, end);
    }
    forall j | (if whole == start then start else end) < j <= |s|
      ensures !UnsignedBetween(s, start, j)
    {
      LongerNotUnsigned(s, start, whole, point, end, j);
    }
  }

  /** No stretch from start longer than the parsed one has the unsigned shape. */
  lemma LongerNotUnsigned(s: string, start: nat, whole: nat, point: bool, end: nat, j: nat)
    requires start <= |s| && whole == RunEnd(s, start)
    requires point == (whole + 1 < |s| && s[whole] == '.' && IsDigit(s[whole + 1]))
    requires end == if point then RunEnd(s, whole + 1) else whole
    requires (if whole == start then start else end) < j <= |s|
    ensures !UnsignedBetween(s, start, j)
  {
  }

  /** A whole text has the numeral's shape exactly when NumeralAt reads all of it. */
  lemma NumericIsFullMatch(t: string)
    ensures Numeric(t) <==> NumeralAt(t, 0).Some? && NumeralAt(t, 0).value.end == |t|
  {
    NumeralAtIsLongest(t, 0);
  }

  /** A leading sign is read with the numeral after it and negates it when it is '-'. */
  lemma SignedNumeral(s: string, i: nat)
    requires i + 1 < |s| && IsSign(s[i]) && !IsSign(s[i + 1])
    ensures NumeralAt(s, i).Some? <==> NumeralAt(s, i + 1).Some?
    ensures NumeralAt(s, i).Some? ==>
              && NumeralAt(s, i).value.end == NumeralAt(s, i + 1).value.end
              && NumeralAt(s, i).value.value ==
                   (if s[i] == '-' then -NumeralAt(s, i + 1).value.value else NumeralAt(s, i + 1).value.value)
  {
  }

  // ------------------------------------------------------------ naturals

  /** The decimal digits of n, most significant first. */
  function NatToDigits(n: nat): string
  {
    if n < 10 then [DigitChar(n)] else NatToDigits(n / 10) + [DigitChar(n % 10)]
  }

  /** The digits of n are a nonempty run of digits worth n, with no leading zero unless n is 0. */
  lemma {:induction false} NatToDigitsReads(n: nat)
    ensures var r := NatToDigits(n);
            && r != [] && DigitsBetween(r, 0, |r|)
            && ValueBetween(r, 0, |r|) == n
            && (r[0] == '0' ==> n == 0)
  {
    if n >= 10 {
      var r := NatToDigits(n);
      var h := NatToDigits(n / 10);
      NatToDigitsReads(n / 10);
      assert r == h + [DigitChar(n % 10)];
      ValueAgrees(r, h, 0, |r| - 1);
      assert r[0] == h[0];
    }
  }

  /** Different naturals are written differently. */
  lemma NatToDigitsInjective(m: nat, n: nat)
    ensures NatToDigits(m) == NatToDigits(n) ==> m == n
  {
    NatToDigitsReads(m);
    NatToDigitsReads(n);
  }

  /** The value of a stretch of digits depends only on those digits. */
  lemma {:induction false} ValueAgrees(s: string, t: string, i: nat, j: nat)
    requires i <= j <= |s| && j <= |t| && DigitsBetween(s, i, j)
    requires forall k :: i <= k < j ==> s[k] == t[k]
    ensures DigitsBetween(t, i, j) && ValueBetween(s, i, j) == ValueBetween(t, i, j)
    decreases j - i
  {
    if i < j {
      ValueAgrees(s, t, i, j - 1);
    }
  }

  lemma {:induction false} FractionAgrees(s: string, t: string, i: nat, j: nat)
    requires i <= j <= |s| && j <= |t| && DigitsBetween(s, i, j)
    requires forall k :: i <= k < j ==> s[k] == t[k]
    ensures DigitsBetween(t, i, j) && FractionBetween(s, i, j) == FractionBetween(t, i, j)
    decreases j - i
  {
    if i < j {
      FractionAgrees(s, t, i + 1, j);
    }
  }

  /** A run of digits that stops at e, at the end or before a non-digit, ends at e. */
  lemma {:induction false} RunEndExact(s: string, i: nat, e: nat)
    requires i <= e <= |s| && DigitsBetween(s, i, e)
    requires e == |s| || !IsDigit(s[e])
    ensures RunEnd(s, i) == e
    decreases e - i
  {
    if i < e {
      RunEndExact(s, i + 1, e);
    }
  }

  /** A text that does not continue a numeral just read: no digit, and no '.' before a digit. */
  predicate EndsNumeral(rest: string)
  {
    rest == [] || (!IsDigit(rest[0]) && !(rest[0] == '.' && 1 < |rest| && IsDigit(rest[1])))
  }

  /** Reading the digits of n back, after any prefix, gives n and takes exactly those digits. */
  lemma NumeralOfNat(pre: string, n: nat, rest: string)
    requires EndsNumeral(rest)
    ensures var s := pre + NatToDigits(n) + rest;
            NumeralAt(s, |pre|) == Some(Numeral(n as real, |pre| + |NatToDigits(n)|))
  {
    var ds := NatToDigits(n);
    NatToDigitsReads(n);
    var s := pre + ds + rest;
    var i := |pre|;
    var e := i + |ds|;
    ShiftedValue(ds, pre, rest);
    if e < |s| {
      assert s[e] == rest[0];
    }
    if e + 1 < |s| {
      assert s[e + 1] == rest[1];
    }
    assert !IsSign(s[i]) by {
      assert s[i] == ds[0];
    }
    RunEndExact(s, i, e);
  }

  /** Digits from i to w, a '.', and digits from w + 1 to e, where the digits stop. */
  lemma ReadDecimal(s: string, i: nat, w: nat, e: nat)
    requires i < w && w + 1 < e <= |s| && !IsSign(s[i])
    requires DigitsBetween(s, i, w) && s[w] == '.' && DigitsBetween(s, w + 1, e)
    requires e == |s| || !IsDigit(s[e])
    ensures NumeralAt(s, i).Some?
    ensures NumeralAt(s, i).value.end == e
    ensures NumeralAt(s, i).value.value == ValueBetween(s, i, w) as real + FractionBetween(s, w + 1, e)
  {
    RunEndExact(s, i, w);
    RunEndExact(s, w + 1, e);
  }

  /** The digits ds, placed after pre, have the value they have on their own. */
  lemma ShiftedValue(ds: string, pre: string, rest: string)
    requires DigitsBetween(ds, 0, |ds|)
    ensures var s := pre + ds + rest;
            && DigitsBetween(s, |pre|, |pre| + |ds|)
            && ValueBetween(s, |pre|, |pre| + |ds|) == ValueBetween(ds, 0, |ds|)
  {
    var s := pre + ds + rest;
    var i := |pre|;
    forall k | 0 <= k < |ds|
      ensures s[i + k] == ds[k]
    {
    }
    ShiftedValueFrom(s, ds, i, |ds|);
  }

  lemma {:induction false} ShiftedValueFrom(s: string, ds: string, i: nat, n: nat)
    requires n <= |ds| && i + n <= |s| && DigitsBetween(ds, 0, n)
    requires forall k :: 0 <= k < n ==> s[i + k] == ds[k]
    ensures DigitsBetween(s, i, i + n) && ValueBetween(s, i, i + n) == ValueBetween(ds, 0, n)
    decreases n
  {
    assert forall k :: i <= k < i + n ==> s[k] == ds[k - i];
    if n > 0 {
      ShiftedValueFrom(s, ds, i, n - 1);
      assert s[i + n - 1] == ds[n - 1];
    }
  }
}
