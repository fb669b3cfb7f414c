/**
 * format_derivative of numerical_methods/derivatives.py, the display form
 * of a derivative: Python's "**" shown as "^", unit factors and unit
 * exponents dropped. FormatDerivative is the replacement chain as written;
 * FormatFixed drops a unit only where the 1 is a whole number.
 */
module Format {
  import opened Text
  import opened Numerals

  /**
   * format_derivative: "0" for empty text or "0"; otherwise "**" becomes
   * "^", then "1*x" becomes "x", "1*" is deleted and "x^1" becomes "x".
   * No "**" is left in the result.
   */
  function FormatDerivative(d: string): (r: string)
    ensures !Contains(r, "**")
  {
    if d == [] || d == "0" then "0"
    else
      var a := Replace(d, "**", "^");
      var b := Replace(a, "1*x", "x");
      var c := Replace(b, "1*", "");
      var r := Replace(c, "x^1", "x");
      assert Double('*') == "**";
      ReplaceRemovesDouble(d, '*', "^");
      ReplaceKeepsNoDouble(a, "1*x", "x", '*');
      ReplaceKeepsNoDouble(b, "1*", "", '*');
      ReplaceKeepsNoDouble(c, "x^1", "x", '*');
      r
  }

  /** A character that continues a number written before or after it. */
  predicate InNumber(c: char)
  {
    IsDigit(c) || c == '.'
  }

  /**
   * Every "1*" deleted where the 1 is a whole number: not right after a
   * digit or '.'. afterNumber says whether the text before s ended in one.
   */
  function DropUnitFactors(s: string, afterNumber: bool): (r: string)
    ensures |r| <= |s|
    decreases |s|
  {
    if s == [] then []
    else if !afterNumber && "1*" <= s then DropUnitFactors(s[2..], false)
    else [s[0]] + DropUnitFactors(s[1..], InNumber(s[0]))
  }

  /** Every "x^1" shortened to "x" where the 1 is a whole number: not followed by a digit or '.'. */
  function DropUnitExponents(s: string): (r: string)
    ensures |r| <= |s|
    decreases |s|
  {
    if s == [] then []
    else if "x^1" <= s && (|s| == 3 || !InNumber(s[3])) then "x" + DropUnitExponents(s[3..])
    else [s[0]] + DropUnitExponents(s[1..])
  }

  /** format_derivative with the unit rules applied to whole numbers only. */
  function FormatFixed(d: string): (r: string)
    ensures !Contains(r, "**")
  {
    if d == [] || d == "0" then "0"
    else
      var a := Replace(d, "**", "^");
      assert Double('*') == "**";
      ReplaceRemovesDouble(d, '*', "^");
      var r := DropUnitExponents(DropUnitFactors(a, false));
      DropsKeepNoDouble(a);
      r
  }

  lemma DropsKeepNoDouble(a: string)
    requires !Contains(a, Double('*'))
    ensures !Contains(DropUnitExponents(DropUnitFactors(a, false)), Double('*'))
  {
    FactorsKeepNoDouble(a, false);
    ExponentsKeepNoDouble(DropUnitFactors(a, false));
  }

  lemma {:induction false} FactorsKeepNoDouble(s: string, afterNumber: bool)
    requires !Contains(s, Double('*'))
    ensures !Contains(DropUnitFactors(s, afterNumber), Double('*'))
    ensures DropUnitFactors(s, afterNumber) != [] && DropUnitFactors(s, afterNumber)[0] == '*' ==>
              s != [] && s[0] == '*'
    decreases |s|
  {
    if s == [] {
    } else if !afterNumber && "1*" <= s {
      ContainsSuffix(s, Double('*'), 2);
      FactorsKeepNoDouble(s[2..], false);
    } else {
      ContainsSuffix(s, Double('*'), 1);
      FactorsKeepNoDouble(s[1..], InNumber(s[0]));
      var r := DropUnitFactors(s[1..], InNumber(s[0]));
      DoubleInAppend([s[0]], r, '*');
      assert !Contains([s[0]], Double('*'));
    }
  }

  lemma {:induction false} ExponentsKeepNoDouble(s: string)
    requires !Contains(s, Double('*'))
    ensures !Contains(DropUnitExponents(s), Double('*'))
    ensures DropUnitExponents(s) != [] && DropUnitExponents(s)[0] == '*' ==> s != [] && s[0] == '*'
    decreases |s|
  {
    if s == [] {
    } else if "x^1" <= s && (|s| == 3 || !InNumber(s[3])) {
      ContainsSuffix(s, Double('*'), 3);
      ExponentsKeepNoDouble(s[3..]);
      DoubleInAppend("x", DropUnitExponents(s[3..]), '*');
      assert !Contains("x", Double('*')) by {
        NoCharNoDouble("x", '*');
      }
    } else {
      ContainsSuffix(s, Double('*'), 1);
      ExponentsKeepNoDouble(s[1..]);
      var r := DropUnitExponents(s[1..]);
      DoubleInAppend([s[0]], r, '*');
      assert !Contains([s[0]], Double('*'));
    }
  }

  // ------------------------------------------------- written-out monomials

  /** A nonempty run of digits, as a written natural is. */
  predicate Digits(ds: string)
  {
    ds != [] && forall i :: 0 <= i < |ds| ==> IsDigit(ds[i])
  }

  /** The "**" of x**n is replaced by "^". */
  lemma StarsReplaced(ds: string)
    requires '*' !in ds
    ensures Replace("x**" + ds, "**", "^") == "x^" + ds
  {
    assert Replace("x" + "**" + ds, "**", "^") == "x" + "^" + ds by {
      NoCharNotContains(ds, "**", '*');
      ReplaceOnce("x", "**", ds, "^");
    }
    assert "x" + "**" + ds == "x**" + ds && "x" + "^" + ds == "x^" + ds;
  }

  /** The "**" of a*x**n is replaced by "^", and nothing else changes. */
  lemma ScaledStarsReplaced(da: string, dn: string)
    requires '*' !in da && '*' !in dn
    ensures Replace(da + "*x**" + dn, "**", "^") == da + "*" + ("x^" + dn)
  {
    var u := "x**" + dn;
    assert da + "*x**" + dn == da + ("*" + u);
    assert Replace(da + ("*" + u), "**", "^") == da + Replace("*" + u, "**", "^") by {
      ReplaceSkips(da, "*" + u, "**", "^");
    }
    assert Replace("*" + u, "**", "^") == "*" + Replace(u, "**", "^") by {
      assert "*" + u == ['*'] + u;
      ReplaceMiss('*', u, "**", "^");
    }
    StarsReplaced(dn);
  }

  /** Text without '*' has no unit factor to drop. */
  lemma {:induction false} NoStarFactors(s: string, afterNumber: bool)
    requires '*' !in s
    ensures DropUnitFactors(s, afterNumber) == s
    decreases |s|
  {
    if s != [] {
      assert !("1*" <= s) by {
        if |s| >= 2 {
          assert s[1] != '*';
        }
      }
      assert '*' !in s[1..];
      NoStarFactors(s[1..], InNumber(s[0]));
    }
  }

  /** Text without 'x' has no unit exponent to drop. */
  lemma {:induction false} NoXExponents(s: string)
    requires 'x' !in s
    ensures DropUnitExponents(s) == s
    decreases |s|
  {
    if s != [] {
      assert !("x^1" <= s) by {
        assert s[0] != 'x';
      }
      assert 'x' !in s[1..];
      NoXExponents(s[1..]);
    }
  }

  /** Text before any 'x' passes through DropUnitExponents unchanged. */
  lemma {:induction false} NoXSkips(pre: string, s: string)
    requires 'x' !in pre
    ensures DropUnitExponents(pre + s) == pre + DropUnitExponents(s)
    decreases |pre|
  {
    if pre == [] {
      assert pre + s == s;
    } else {
      assert (pre + s)[0] == pre[0] != 'x';
      assert (pre + s)[1..] == pre[1..] + s;
      assert 'x' !in pre[1..];
      NoXSkips(pre[1..], s);
    }
  }

  /**
   * A run of digits keeps every 1 it holds: a 1 followed by a digit is not
   * a unit factor, and neither is a last 1 that follows a number.
   */
  lemma {:induction false} DigitsKeepFactors(ds: string, rest: string, afterNumber: bool)
    requires Digits(ds)
    requires afterNumber || ds != "1"
    ensures DropUnitFactors(ds + rest, afterNumber) == ds + DropUnitFactors(rest, true)
    decreases |ds|
  {
    var s := ds + rest;
    assert s[0] == ds[0];
    assert |ds| > 1 ==> s[1] == ds[1];
    assert |ds| == 1 ==> ds == [ds[0]];
    assert !(!afterNumber && "1*" <= s);
    assert s[1..] == ds[1..] + rest;
    if |ds| > 1 {
      DigitsKeepFactors(ds[1..], rest, true);
    } else {
      assert ds[1..] + rest == rest;
    }
  }

  /** The coefficient of a*x^n is dropped exactly when it is 1. */
  lemma UnitFactorDropped(da: string, tail: string)
    requires Digits(da) && '*' !in tail
    ensures DropUnitFactors(da + "*" + tail, false) == (if da == "1" then "" else da + "*") + tail
  {
    NoStarFactors(tail, false);
    assert da + "*" + tail == da + ("*" + tail);
    if da == "1" {
      assert (da + ("*" + tail))[2..] == tail;
    } else {
      DigitsKeepFactors(da, "*" + tail, false);
      assert ("*" + tail)[1..] == tail;
    }
  }

  /** The exponent of x^n is dropped exactly when it is 1. */
  lemma UnitExponentDropped(dn: string)
    requires Digits(dn)
    ensures DropUnitExponents("x^" + dn) == "x" + (if dn == "1" then "" else "^" + dn)
  {
    var s := "x^" + dn;
    assert 'x' !in "^" + dn;
    NoXExponents("^" + dn);
    assert s[1..] == "^" + dn;
    if dn == "1" {
      assert s == "x^1" && s[3..] == [];
    } else if "x^1" <= s {
      assert |dn| > 1 && s[3] == dn[1];
    }
  }

  /** x**n is shown as x^n, and as bare x when n is the digit 1. */
  lemma FixedPower(dn: string)
    requires Digits(dn)
    ensures FormatFixed("x**" + dn) == "x" + (if dn == "1" then "" else "^" + dn)
  {
    StarsReplaced(dn);
    assert '*' !in "x^" + dn;
    NoStarFactors("x^" + dn, false);
    UnitExponentDropped(dn);
  }

  /**
   * a*x**n is shown as a*x^n, without the factor when a is the digit 1
   * and without the exponent when n is; every other digit is kept.
   */
  lemma FixedScaledPower(da: string, dn: string)
    requires Digits(da) && Digits(dn)
    ensures FormatFixed(da + "*x**" + dn) ==
              (if da == "1" then "" else da + "*") + "x" + (if dn == "1" then "" else "^" + dn)
  {
    var d := da + "*x**" + dn;
    var tail := "x^" + dn;
    var pre := if da == "1" then "" else da + "*";
    assert d != [] && d != "0" by { assert d[|da|] == '*'; }
    assert Replace(d, "**", "^") == da + "*" + tail by { ScaledStarsReplaced(da, dn); }
    assert DropUnitFactors(da + "*" + tail, false) == pre + tail by { UnitFactorDropped(da, tail); }
    assert DropUnitExponents(pre + tail) == pre + DropUnitExponents(tail) by { NoXSkips(pre, tail); }
    assert DropUnitExponents(tail) == "x" + (if dn == "1" then "" else "^" + dn) by { UnitExponentDropped(dn); }
  }

  /** Written naturals: the factor is dropped exactly for a = 1 and the exponent exactly for n = 1. */
  lemma FixedNaturals(a: nat, n: nat)
    ensures FormatFixed(NatToDigits(a) + "*x**" + NatToDigits(n)) ==
              (if a == 1 then "" else NatToDigits(a) + "*") + "x" + (if n == 1 then "" else "^" + NatToDigits(n))
  {
    NatToDigitsReads(a);
    NatToDigitsReads(n);
    assert NatToDigits(1) == "1";
    NatToDigitsInjective(a, 1);
    NatToDigitsInjective(n, 1);
    FixedScaledPower(NatToDigits(a), NatToDigits(n));
  }

  // ---------------------------------------------------------- the findings

  /**
   * As written, the unit-exponent rule also fires on an exponent that only
   * starts with 1: x**1d is shown as x followed by d, so x**10 becomes
   * "x0". FixedPower keeps the exponent whole.
   */
  lemma UnitExponentEatsDigits(ds: string)
    requires Digits(ds)
    ensures FormatDerivative("x**1" + ds) == "x" + ds
  {
    assert '*' !in ds && 'x' !in ds;
    UnitExponentRules(ds);
  }

  /**
   * The case derive_single_term produces in practice: Python writes the
   * derivative of a*x**2 as the float 2a, then "*x**1.0", for example
   * "10.0*x**1.0" for 5*x**2. As written, the unit-exponent rule turns the
   * exponent 1.0 into ".0" ("10.0*x.0"). FormatFixed keeps it, since 1.0 is
   * not a whole 1. The coefficient is ci.cf, and its last digit is not 1,
   * so that only the exponent rule is at work.
   */
  lemma FloatExponentEaten(ci: string, cf: string)
    requires Digits(ci) && Digits(cf) && cf[|cf| - 1] != '1'
    ensures FormatDerivative(ci + "." + cf + "*x**1.0") == ci + "." + cf + "*x.0"
    ensures FormatFixed(ci + "." + cf + "*x**1.0") == ci + "." + cf + "*x^1.0"
  {
    var c := ci + "." + cf;
    assert c + "*x**1.0" == ci + "." + cf + "*x**1.0";
    assert Number(c) && c != "1" && c[|c| - 1] != '1' by {
      assert c[|c| - 1] == cf[|cf| - 1];
    }
    FloatExponentRules(c);
    FloatExponentFixed(c);
  }

  /** Text made of digits and '.' only: a number as Python writes a float. */
  predicate Number(c: string)
  {
    c != [] && forall i :: 0 <= i < |c| ==> InNumber(c[i])
  }

  /** The four rules of format_derivative on c*x**1.0, for a number c not ending in 1. */
  lemma FloatExponentRules(c: string)
    requires Number(c) && c[|c| - 1] != '1'
    ensures FormatDerivative(c + "*x**1.0") == c + "*x.0"
  {
    var a := c + "*x^1.0";
    assert '*' !in c;
    assert Replace(c + "*x**1.0", "**", "^") == a by {
      NumberStars(c);
    }
    assert Replace(a, "1*x", "x") == a by {
      assert a == c + "*" + "x^1.0";
      NoUnitBeforeStar(c, "x^1.0", "1*x");
    }
    assert Replace(a, "1*", "") == a by {
      assert a == c + "*" + "x^1.0";
      NoUnitBeforeStar(c, "x^1.0", "1*");
    }
    assert Replace(a, "x^1", "x") == c + "*x.0" by {
      FloatExponentOneDropped(c);
    }
  }

  /** The "**" of c*x**1.0 is replaced by "^". */
  lemma NumberStars(c: string)
    requires '*' !in c
    ensures Replace(c + "*x**1.0", "**", "^") == c + "*x^1.0"
  {
    assert '*' !in "1.0";
    ScaledStarsReplaced(c, "1.0");
    assert c + "*x**1.0" == c + "*x**" + "1.0";
    assert c + "*" + ("x^" + "1.0") == c + "*x^1.0";
  }

  /** As written, the "x^1" of c*x^1.0 is shortened to "x", leaving ".0". */
  lemma FloatExponentOneDropped(c: string)
    requires 'x' !in c
    ensures Replace(c + "*x^1.0", "x^1", "x") == c + "*x.0"
  {
    var pre := c + "*";
    assert c + "*x^1.0" == pre + "x^1" + ".0";
    assert Replace(pre + "x^1" + ".0", "x^1", "x") == pre + "x" + Replace(".0", "x^1", "x") by {
      assert 'x' !in pre;
      HeadFreeNotContains(pre, "x^1");
      assert "x^1"[..2] == "x^";
      ReplaceFirst(pre, "x^1", ".0", "x");
    }
    assert Replace(".0", "x^1", "x") == ".0" by {
      NoCharNotContains(".0", "x^1", 'x');
    }
    assert pre + "x" + ".0" == c + "*x.0";
  }

  /**
   * A unit-factor pattern ("1*" or "1*x") does not occur in c*tail when
   * c has no '*' and does not end in 1, and tail has no '*'.
   */
  lemma {:induction false} NoUnitBeforeStar(c: string, tail: string, pat: string)
    requires c != [] && '*' !in c && c[|c| - 1] != '1' && '*' !in tail
    requires |pat| >= 2 && pat[0] == '1' && pat[1] == '*'
    ensures !Contains(c + "*" + tail, pat)
    decreases |c|
  {
    var s := c + "*" + tail;
    assert (s[1..] == "*" + tail) || (s[1..] == c[1..] + "*" + tail);
    if |c| == 1 {
      assert s[0] == c[0] != '1';
      assert s[1..] == "*" + tail;
      assert !Contains("*" + tail, pat) by {
        assert ("*" + tail)[1..] == tail;
        NoCharNotContains(tail, pat, '*');
      }
    } else {
      assert s[1] == c[1] != '*';
      assert s[1..] == c[1..] + "*" + tail;
      NoUnitBeforeStar(c[1..], tail, pat);
    }
  }

  /** The corrected rules leave c*x^1.0 alone: its 1s are inside numbers. */
  lemma FloatExponentFixed(c: string)
    requires Number(c) && c != "1"
    ensures FormatFixed(c + "*x**1.0") == c + "*x^1.0"
  {
    var a := c + "*x^1.0";
    assert Replace(c + "*x**1.0", "**", "^") == a by {
      assert '*' !in c;
      NumberStars(c);
    }
    assert DropUnitFactors(a, false) == a by {
      FloatFactorsKept(c);
    }
    assert DropUnitExponents(a) == a by {
      FloatExponentKept(c);
    }
  }

  /** The corrected factor rule keeps the number in front of *x^1.0. */
  lemma FloatFactorsKept(c: string)
    requires Number(c) && c != "1"
    ensures DropUnitFactors(c + "*x^1.0", false) == c + "*x^1.0"
  {
    NumberKeepsFactors(c, "*x^1.0", false);
    assert DropUnitFactors("*x^1.0", true) == "*" + DropUnitFactors("x^1.0", false);
    NoStarFactors("x^1.0", false);
  }

  /** The corrected exponent rule keeps 1.0: the 1 there is followed by '.'. */
  lemma FloatExponentKept(c: string)
    requires 'x' !in c
    ensures DropUnitExponents(c + "*x^1.0") == c + "*x^1.0"
  {
    var pre := c + "*";
    assert c + "*x^1.0" == pre + "x^1.0";
    assert DropUnitExponents(pre + "x^1.0") == pre + DropUnitExponents("x^1.0") by {
      assert 'x' !in pre;
      NoXSkips(pre, "x^1.0");
    }
    assert DropUnitExponents("x^1.0") == "x^1.0" by {
      PointExponentKept();
    }
  }

  /** x^1.0 keeps its exponent under the corrected rule. */
  lemma PointExponentKept()
    ensures DropUnitExponents("x^1.0") == "x^1.0"
  {
    var s: string := "x^1.0";
    assert "x^1" <= s && s[3] == '.';
    assert s[1..] == "^1.0";
    NoXExponents("^1.0");
  }

  /**
   * A number keeps every 1 it holds when a '*' follows it, unless the number
   * is a lone 1 at the start of a term.
   */
  lemma {:induction false} NumberKeepsFactors(c: string, rest: string, afterNumber: bool)
    requires Number(c)
    requires afterNumber || c != "1"
    ensures DropUnitFactors(c + rest, afterNumber) == c + DropUnitFactors(rest, true)
    decreases |c|
  {
    var s := c + rest;
    assert s[0] == c[0];
    assert |c| > 1 ==> s[1] == c[1];
    assert |c| == 1 ==> c == [c[0]];
    assert !(!afterNumber && "1*" <= s);
    assert s[1..] == c[1..] + rest;
    if |c| > 1 {
      NumberKeepsFactors(c[1..], rest, true);
    } else {
      assert c[1..] + rest == rest;
    }
  }

  /** The four rules of format_derivative on x**1 followed by text with no star and no x. */
  lemma UnitExponentRules(ds: string)
    requires '*' !in ds && 'x' !in ds
    ensures FormatDerivative("x**1" + ds) == "x" + ds
  {
    var a := "x^1" + ds;
    assert Replace("x**1" + ds, "**", "^") == a by { ExponentStars(ds); }
    assert Replace(a, "1*x", "x") == a && Replace(a, "1*", "") == a by {
      assert '*' !in a;
      NoCharNotContains(a, "1*x", '*');
      NoCharNotContains(a, "1*", '*');
    }
    assert Replace(a, "x^1", "x") == "x" + ds by { UnitExponentRule(ds); }
    assert ("x**1" + ds)[0] == 'x';
  }

  /** An exponent that does not start with 1 is shown unchanged after the caret. */
  lemma PowerKept(dn: string)
    requires Digits(dn) && dn[0] != '1'
    ensures FormatDerivative("x**" + dn) == "x^" + dn
  {
    var a := "x^" + dn;
    assert Replace("x**" + dn, "**", "^") == a by { StarsReplaced(dn); }
    assert Replace(a, "1*x", "x") == a && Replace(a, "1*", "") == a by {
      assert '*' !in a;
      NoCharNotContains(a, "1*x", '*');
      NoCharNotContains(a, "1*", '*');
    }
    assert Replace(a, "x^1", "x") == a by {
      ExponentKept([], dn);
      assert [] + "x^" + dn == a;
    }
    assert ("x**" + dn)[0] == 'x';
  }

  /**
   * On a power of x the replacement chain shows what FormatFixed shows
   * exactly when the exponent is 1 or does not start with the digit 1.
   */
  lemma PowerFormatAgrees(dn: string)
    requires Digits(dn)
    ensures FormatDerivative("x**" + dn) == FormatFixed("x**" + dn) <==> (dn == "1" || dn[0] != '1')
  {
    if dn == "1" || dn[0] != '1' {
      PowerFormatSame(dn);
    } else {
      PowerFormatDiffers(dn);
    }
  }

  /** An exponent of 1, or one not starting with 1, is shown alike by both. */
  lemma PowerFormatSame(dn: string)
    requires Digits(dn) && (dn == "1" || dn[0] != '1')
    ensures FormatDerivative("x**" + dn) == FormatFixed("x**" + dn)
  {
    var s := "x**" + dn;
    assert FormatFixed(s) == "x" + (if dn == "1" then "" else "^" + dn) by { FixedPower(dn); }
    if dn == "1" {
      assert FormatDerivative(s) == "x" by {
        UnitExponentRules([]);
        assert "x**1" + [] == s && "x" + [] == "x";
      }
    } else {
      assert FormatDerivative(s) == "x^" + dn by { PowerKept(dn); }
    }
  }

  /** A longer exponent starting with 1 is shown differently by the two. */
  lemma PowerFormatDiffers(dn: string)
    requires Digits(dn) && dn != "1" && dn[0] == '1'
    ensures FormatDerivative("x**" + dn) != FormatFixed("x**" + dn)
  {
    var s := "x**" + dn;
    assert FormatFixed(s) == "x^" + dn by { FixedPower(dn); }
    assert FormatDerivative(s) == "x" + dn[1..] by { LeadingUnitEaten(dn); }
    assert |"x" + dn[1..]| < |"x^" + dn|;
  }

  /** An exponent longer than 1 that starts with 1 loses that 1 as written. */
  lemma LeadingUnitEaten(dn: string)
    requires Digits(dn) && dn != "1" && dn[0] == '1'
    ensures FormatDerivative("x**" + dn) == "x" + dn[1..]
  {
    var ds := dn[1..];
    assert "x**" + dn == "x**1" + ds by {
      assert dn[..1] == "1" by { assert |dn[..1]| == 1 && dn[..1][0] == dn[0]; }
      assert dn == dn[..1] + ds;
      assert "x**" + ("1" + ds) == "x**1" + ds;
    }
    assert Digits(ds);
    UnitExponentEatsDigits(ds);
  }

  /** The first rule of format_derivative on x**1d turns the stars into a caret. */
  lemma ExponentStars(ds: string)
    requires '*' !in ds
    ensures Replace("x**1" + ds, "**", "^") == "x^1" + ds
  {
    assert '*' !in "1" + ds;
    StarsReplaced("1" + ds);
    assert "x**" + ("1" + ds) == "x**1" + ds && "x^" + ("1" + ds) == "x^1" + ds;
  }

  /** The last rule of format_derivative on x^1d drops the caret and the 1. */
  lemma UnitExponentRule(ds: string)
    requires 'x' !in ds
    ensures Replace("x^1" + ds, "x^1", "x") == "x" + ds
  {
    NoCharNotContains(ds, "x^1", 'x');
    ReplaceOnce([], "x^1", ds, "x");
    assert [] + "x^1" + ds == "x^1" + ds && [] + "x" + ds == "x" + ds;
  }

  /**
   * As written, the unit-factor rule also fires on a coefficient that only
   * ends in 1: d1*x**n is shown as d followed by x^n, so 21*x**2 becomes
   * "2x^2". FixedScaledPower keeps the coefficient whole.
   */
  lemma UnitFactorEatsDigits(ds: string, dn: string)
    requires Digits(ds) && '1' !in ds
    requires Digits(dn) && dn[0] != '1'
    ensures FormatDerivative(ds + "1*x**" + dn) == ds + "x^" + dn
  {
    var s := ds + "1*x**" + dn;
    var c := ds + "x^" + dn;
    assert Replace(s, "**", "^") == ds + "1*x^" + dn by { FactorStars(ds, dn); }
    assert Replace(ds + "1*x^" + dn, "1*x", "x") == c by { FactorUnit(ds, dn); }
    assert Replace(c, "1*", "") == c by { NoFactorLeft(ds, dn); }
    assert Replace(c, "x^1", "x") == c by { ExponentKept(ds, dn); }
    assert s[0] == ds[0] && IsDigit(s[0]) && |s| > 1;
  }

  /** The first rule of format_derivative on d1*x**n turns the stars into a caret. */
  lemma FactorStars(ds: string, dn: string)
    requires Digits(ds) && Digits(dn)
    ensures Replace(ds + "1*x**" + dn, "**", "^") == ds + "1*x^" + dn
  {
    assert '*' !in ds + "1" && '*' !in dn;
    assert ds + "1*x**" + dn == (ds + "1") + "*x**" + dn;
    ScaledStarsReplaced(ds + "1", dn);
    assert (ds + "1") + "*" + ("x^" + dn) == ds + "1*x^" + dn;
  }

  /** The second rule of format_derivative on d1*x^n drops the 1* that ends the coefficient. */
  lemma FactorUnit(ds: string, dn: string)
    requires Digits(ds) && '1' !in ds && Digits(dn)
    ensures Replace(ds + "1*x^" + dn, "1*x", "x") == ds + "x^" + dn
  {
    assert '*' !in "^" + dn;
    NoCharNotContains("^" + dn, "1*x", '*');
    ReplaceOnce(ds, "1*x", "^" + dn, "x");
    assert ds + "1*x" + ("^" + dn) == ds + "1*x^" + dn;
    assert ds + "x" + ("^" + dn) == ds + "x^" + dn;
  }

  /** The third rule of format_derivative finds no 1* once every star is gone. */
  lemma NoFactorLeft(ds: string, dn: string)
    requires Digits(ds) && Digits(dn)
    ensures Replace(ds + "x^" + dn, "1*", "") == ds + "x^" + dn
  {
    assert '*' !in ds + "x^" + dn;
    NoCharNotContains(ds + "x^" + dn, "1*", '*');
  }

  /** An exponent that does not start with 1 is untouched by the unit-exponent rule. */
  lemma ExponentKept(ds: string, dn: string)
    requires 'x' !in ds && 'x' !in dn && dn != [] && dn[0] != '1'
    ensures Replace(ds + "x^" + dn, "x^1", "x") == ds + "x^" + dn
  {
    var u := "x^" + dn;
    assert ds + "x^" + dn == ds + u;
    assert Replace(ds + u, "x^1", "x") == ds + Replace(u, "x^1", "x") by {
      ReplaceSkips(ds, u, "x^1", "x");
    }
    assert Replace(u, "x^1", "x") == u by { CaretKept(dn); }
  }

  /** x^n with n not starting with 1 holds no "x^1". */
  lemma CaretKept(dn: string)
    requires 'x' !in dn && dn != [] && dn[0] != '1'
    ensures Replace("x^" + dn, "x^1", "x") == "x^" + dn
  {
    var u := "x^" + dn;
    var v := u[1..];
    assert Replace(v, "x^1", "x") == v by {
      assert 'x' !in v;
      NoCharNotContains(v, "x^1", 'x');
    }
    assert Replace(u, "x^1", "x") == [u[0]] + Replace(v, "x^1", "x") by {
      assert u[2] == dn[0];
      assert !("x^1" <= u);
    }
    assert [u[0]] + v == u;
  }
}
