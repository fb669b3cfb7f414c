/**
 * The heuristic symbolic differentiator of numerical_methods/derivatives.py:
 * calculate_derivative, derive_single_term and format_derivative. Numbers
 * are turned back into text by `render`, an uninterpreted stand-in for
 * Python's str() of a float ("2.0", "0.5"); the values it is given are
 * exact reals.
 */
module Derivatives {
  import opened Results
  import opened Text
  import opened Numerals

  // ------------------------------------------------------------ one term

  /** t has p at index i. */
  predicate HasAt(t: string, i: nat, p: string)
  {
    i <= |t| && p <= t[i..]
  }

  /** a·x^n: the shape of term the patterns understand, and the reference the power rule acts on. */
  datatype Monomial = Monomial(coef: real, exp: real)

  /** The power rule: the derivative of a·x^n is (a·n)·x^(n-1). */
  function PowerRule(m: Monomial): (d: Monomial)
    ensures m.exp == 0.0 ==> d.coef == 0.0
    ensures m.exp == 1.0 ==> d == Monomial(m.coef, 0.0)
  {
    Monomial(m.coef * m.exp, m.exp - 1.0)
  }

  /** re.match(r'x\*\*([+-]?\d+(\.\d+)?)', t): the exponent read after "x**". */
  function PowerOfX(t: string): Option<real>
  {
    if HasAt(t, 0, "x**") then
      match NumeralAt(t, 3)
      case None => None
      case Some(n) => Some(n.value)
    else None
  }

  /** re.match of a numeral, "*x**" and a numeral: the coefficient and the exponent. */
  function ScaledPower(t: string): Option<Monomial>
  {
    match NumeralAt(t, 0)
    case None => None
    case Some(a) =>
      if HasAt(t, a.end, "*x**") then
        match NumeralAt(t, a.end + 4)
        case None => None
        case Some(n) => Some(Monomial(a.value, n.value))
      else None
  }

  /** re.match of a numeral followed by "*x": the coefficient. */
  function ScaledX(t: string): Option<real>
  {
    match NumeralAt(t, 0)
    case None => None
    case Some(a) => if HasAt(t, a.end, "*x") then Some(a.value) else None
  }

  /**
   * derive_single_term. The term is stripped, then the patterns are tried
   * in order: a whole constant, "x" alone, x**n, a*x**n, a*x; anything
   * else derives to "0". Exponents 1 and 0 are special-cased before the
   * power rule is written out.
   */
  function DeriveSingleTerm(term: string, render: real -> string): string
  {
    DeriveStripped(Strip(term), render)
  }

  /**
   * re.match(r'^[+-]?\d+(\.\d+)?$', t): the longest numeral at the start
   * is all of t, which Numerals.NumericIsFullMatch shows is the case
   * exactly when t has the numeral's shape.
   */
  predicate IsConstant(t: string)
  {
    NumeralAt(t, 0).Some? && NumeralAt(t, 0).value.end == |t|
  }

  /** derive_single_term once the term is stripped. */
  function DeriveStripped(t: string, render: real -> string): string
  {
    if IsConstant(t) then "0"
    else if t == "x" then "1"
    else if PowerOfX(t).Some? then DerivePower(PowerOfX(t).value, render)
    else if ScaledPower(t).Some? then DeriveScaled(ScaledPower(t).value, render)
    else if ScaledX(t).Some? then render(ScaledX(t).value)
    else "0"
  }

  /** What x**n derives to: exponents 1 and 0 are special-cased before n*x**(n-1) is written. */
  function DerivePower(n: real, render: real -> string): string
  {
    if n == 1.0 then "1"
    else if n == 0.0 then "0"
    else render(n) + "*x**" + render(n - 1.0)
  }

  /** What a*x**n derives to: a for n = 1, "0" for n = 0, else (a·n)*x**(n-1). */
  function DeriveScaled(m: Monomial, render: real -> string): string
  {
    if m.exp == 1.0 then render(m.coef)
    else if m.exp == 0.0 then "0"
    else render(m.coef * m.exp) + "*x**" + render(m.exp - 1.0)
  }

  // ----------------------------------------- the patterns as regular expressions

  /** Inside a numeral, past its first character, there are only digits and a '.'. */
  lemma NumeralInterior(s: string, i: nat, j: nat, k: nat)
    requires i <= j <= |s| && NumeralBetween(s, i, j) && i < k < j
    ensures IsDigit(s[k]) || s[k] == '.'
  {
    var start := if IsSign(s[i]) then i + 1 else i;
    if !DigitsBetween(s, start, j) {
      var p :| start < p < j && PointAt(s, start, p, j);
      if k != p {
        assert IsDigit(s[k]);
      }
    }
  }

  /**
   * When some numeral at i is followed by text starting with '*', the
   * greedy parse at i reads exactly that numeral: backtracking never
   * chooses a shorter one.
   */
  lemma GroupIsLongest(t: string, i: nat, j: nat, p: string)
    requires i <= j <= |t| && NumeralBetween(t, i, j)
    requires p != [] && p[0] == '*' && HasAt(t, j, p)
    ensures NumeralAt(t, i).Some? && NumeralAt(t, i).value.end == j
  {
    NumeralAtIsLongest(t, i);
    var e := NumeralAt(t, i).value.end;
    if j < e {
      assert t[j] == p[0];
      NumeralInterior(t, i, e, j);
    }
  }

  /** PowerOfX succeeds exactly when t is "x**" followed by something with the numeral's shape. */
  lemma PowerOfXMatches(t: string)
    ensures PowerOfX(t).Some? <==>
              HasAt(t, 0, "x**") && exists j :: 3 <= j <= |t| && NumeralBetween(t, 3, j)
    ensures PowerOfX(t).Some? ==> PowerOfX(t).value == NumeralAt(t, 3).value.value
  {
    if HasAt(t, 0, "x**") {
      NumeralAtIsLongest(t, 3);
    }
  }

  /** ScaledX succeeds exactly when some numeral at the start is followed by "*x". */
  lemma ScaledXMatches(t: string)
    ensures ScaledX(t).Some? <==>
              exists j :: 0 <= j <= |t| && NumeralBetween(t, 0, j) && HasAt(t, j, "*x")
  {
    NumeralAtIsLongest(t, 0);
    if j :| 0 <= j <= |t| && NumeralBetween(t, 0, j) && HasAt(t, j, "*x") {
      GroupIsLongest(t, 0, j, "*x");
    }
  }

  /** t[0..j] is a numeral, then "*x**", then t[j + 4..k] is a numeral. */
  predicate ScaledPowerShape(t: string, j: nat, k: nat)
  {
    j + 4 <= k <= |t| && NumeralBetween(t, 0, j) && HasAt(t, j, "*x**") && NumeralBetween(t, j + 4, k)
  }

  /**
   * ScaledPower succeeds exactly when t starts with a numeral, "*x**" and
   * another numeral: re.match's reading of a*x**n.
   */
  lemma ScaledPowerMatches(t: string)
    ensures ScaledPower(t).Some? <==> exists j: nat, k: nat :: ScaledPowerShape(t, j, k)
  {
    NumeralAtIsLongest(t, 0);
    if ScaledPower(t).Some? {
      var j := NumeralAt(t, 0).value.end;
      NumeralAtIsLongest(t, j + 4);
      var k := NumeralAt(t, j + 4).value.end;
      assert ScaledPowerShape(t, j, k);
    }
    if j: nat, k: nat :| ScaledPowerShape(t, j, k) {
      GroupIsLongest(t, 0, j, "*x**");
      NumeralAtIsLongest(t, j + 4);
    }
  }

  // ------------------------------------------- written monomials and the power rule

  /**
   * Digits and x are not whitespace, so a term that starts and ends with
   * one of them is its own strip and derives as it stands.
   */
  lemma StrippedTerm(t: string, render: real -> string)
    requires t != [] && (IsDigit(t[0]) || t[0] == 'x') && (IsDigit(t[|t| - 1]) || t[|t| - 1] == 'x')
    ensures DeriveSingleTerm(t, render) == DeriveStripped(t, render)
  {
    StripOfTrimmed(t);
  }

  /** Text between two written naturals starts and ends with a digit. */
  lemma DigitEnds(a: nat, mid: string, n: nat)
    ensures var t := NatToDigits(a) + mid + NatToDigits(n);
            t != [] && IsDigit(t[0]) && IsDigit(t[|t| - 1])
  {
    var ds := NatToDigits(a);
    var es := NatToDigits(n);
    NatToDigitsReads(a);
    NatToDigitsReads(n);
    assert (ds + mid + es)[0] == ds[0];
    assert (ds + mid + es)[|ds + mid + es| - 1] == es[|es| - 1];
  }

  /** Text ending in a written natural ends with a digit. */
  lemma DigitLast(pre: string, n: nat)
    ensures var t := pre + NatToDigits(n);
            t != [] && IsDigit(t[|t| - 1])
  {
    var es := NatToDigits(n);
    NatToDigitsReads(n);
    assert (pre + es)[|pre + es| - 1] == es[|es| - 1];
  }

  /** A stripped term read by the x**n pattern takes that branch. */
  lemma PowerBranch(t: string, render: real -> string)
    requires !IsConstant(t) && t != "x" && PowerOfX(t).Some?
    ensures DeriveStripped(t, render) == DerivePower(PowerOfX(t).value, render)
  {
  }

  /** A stripped term read by the a*x**n pattern, and not by x**n, takes that branch. */
  lemma ScaledPowerBranch(t: string, render: real -> string)
    requires !IsConstant(t) && t != "x" && PowerOfX(t).None? && ScaledPower(t).Some?
    ensures DeriveStripped(t, render) == DeriveScaled(ScaledPower(t).value, render)
  {
  }

  /** A stripped term read by the a*x pattern only takes that branch. */
  lemma ScaledXBranch(t: string, render: real -> string)
    requires !IsConstant(t) && t != "x" && PowerOfX(t).None? && ScaledPower(t).None?
    requires ScaledX(t).Some?
    ensures DeriveStripped(t, render) == render(ScaledX(t).value)
  {
  }

  /** Text that does not start with x is not x**n. */
  lemma NoPowerOfX(t: string)
    requires t != [] && t[0] != 'x'
    ensures PowerOfX(t).None?
  {
  }

  /** Reading a written natural a followed by "*x": the coefficient, and the index just past it. */
  lemma LeadingNatural(a: nat, rest: string)
    requires rest != [] && rest[0] == '*'
    ensures var t := NatToDigits(a) + rest;
            && t != [] && t[0] != 'x' && !IsConstant(t)
            && NumeralAt(t, 0).Some?
            && NumeralAt(t, 0).value.end == |NatToDigits(a)|
            && NumeralAt(t, 0).value.value == a as real
  {
    var t := NatToDigits(a) + rest;
    NumeralOfNat([], a, rest);
    assert [] + NatToDigits(a) + rest == t;
    assert t[0] == NatToDigits(a)[0];
  }

  /** a*x**n written out is read as the monomial a·x^n. */
  lemma ReadScaledPower(a: nat, n: nat)
    ensures var t := NatToDigits(a) + "*x**" + NatToDigits(n);
            && ScaledPower(t).Some?
            && ScaledPower(t).value.coef == a as real
            && ScaledPower(t).value.exp == n as real
  {
    var ds := NatToDigits(a);
    var dn := NatToDigits(n);
    var t := ds + "*x**" + dn;
    LeadingNatural(a, "*x**" + dn);
    assert ds + ("*x**" + dn) == t;
    assert t[|ds|..] == "*x**" + dn;
    assert HasAt(t, |ds|, "*x**");
    var pre := ds + "*x**";
    NaturalAtEnd(pre, n);
    assert NumeralAt(t, 0).value.end + 4 == |pre|;
    ScaledPowerOf(t, a as real, n as real);
  }

  /** A natural written at the very end of the text is read whole from where it starts. */
  lemma NaturalAtEnd(pre: string, n: nat)
    ensures NumeralAt(pre + NatToDigits(n), |pre|) == Some(Numeral(n as real, |pre| + |NatToDigits(n)|))
  {
    NumeralOfNat(pre, n, []);
    assert pre + NatToDigits(n) + [] == pre + NatToDigits(n);
  }

  /** The a*x**n pattern reads a numeral, "*x**" and a second numeral. */
  lemma ScaledPowerOf(t: string, c: real, e: real)
    requires NumeralAt(t, 0).Some? && NumeralAt(t, 0).value.value == c
    requires HasAt(t, NumeralAt(t, 0).value.end, "*x**")
    requires NumeralAt(t, NumeralAt(t, 0).value.end + 4).Some?
    requires NumeralAt(t, NumeralAt(t, 0).value.end + 4).value.value == e
    ensures ScaledPower(t).Some? && ScaledPower(t).value.coef == c && ScaledPower(t).value.exp == e
  {
  }

  /** a*x written out is read as a coefficient before "*x", and not as a power. */
  lemma ReadScaledX(a: nat)
    ensures var t := NatToDigits(a) + "*x";
            && ScaledPower(t).None?
            && ScaledX(t).Some?
            && ScaledX(t).value == a as real
  {
    var ds := NatToDigits(a);
    var t := ds + "*x";
    LeadingNatural(a, "*x");
    assert t[|ds|..] == "*x";
    assert HasAt(t, |ds|, "*x") && !HasAt(t, |ds|, "*x**");
  }

  /** x**n written out is read as the exponent n. */
  lemma ReadPowerOfX(n: nat)
    ensures var t := "x**" + NatToDigits(n);
            && t[0] == 'x' && t != "x" && !IsConstant(t)
            && PowerOfX(t).Some? && PowerOfX(t).value == n as real
  {
    var t := "x**" + NatToDigits(n);
    assert !IsDigit(t[0]) && !IsSign(t[0]);
    assert |t| > 1;
    NumeralOfNat("x**", n, []);
    assert "x**" + NatToDigits(n) + [] == t;
    assert HasAt(t, 0, "x**");
  }

  /** A written natural is read whole by the constant pattern. */
  lemma ReadConstant(a: nat)
    ensures IsConstant(NatToDigits(a))
  {
    var ds := NatToDigits(a);
    NumeralOfNat([], a, []);
    assert [] + ds + [] == ds;
  }

  /** A written natural is a constant, and a constant derives to "0", as a·x^0 does under the power rule. */
  lemma ConstantTerm(a: nat, render: real -> string)
    ensures DeriveSingleTerm(NatToDigits(a), render) == "0"
    ensures PowerRule(Monomial(a as real, 0.0)).coef == 0.0
  {
    NatToDigitsReads(a);
    StrippedTerm(NatToDigits(a), render);
    ReadConstant(a);
  }

  /**
   * x**n derives by the power rule with coefficient 1: "1" for n = 1, "0"
   * for n = 0, and otherwise n*x**(n-1) with both numbers rendered.
   */
  lemma PowerTerm(n: nat, render: real -> string)
    ensures var d := PowerRule(Monomial(1.0, n as real));
            DeriveSingleTerm("x**" + NatToDigits(n), render) ==
              if n == 1 then "1"
              else if n == 0 then "0"
              else render(d.coef) + "*x**" + render(d.exp)
  {
    var t := "x**" + NatToDigits(n);
    PowerStripped(n, render);
    DigitLast("x**", n);
    StrippedTerm(t, render);
  }

  /** The stripped text x**n takes the x**n branch with exponent n. */
  lemma PowerStripped(n: nat, render: real -> string)
    ensures DeriveStripped("x**" + NatToDigits(n), render) == DerivePower(n as real, render)
  {
    ReadPowerOfX(n);
    PowerBranch("x**" + NatToDigits(n), render);
  }

  /**
   * a*x**n derives by the power rule: rendered a for n = 1, "0" for n = 0,
   * and otherwise (a·n)*x**(n-1) with both numbers rendered.
   */
  lemma ScaledPowerTerm(a: nat, n: nat, render: real -> string)
    ensures var d := PowerRule(Monomial(a as real, n as real));
            DeriveSingleTerm(NatToDigits(a) + "*x**" + NatToDigits(n), render) ==
              if n == 1 then render(d.coef)
              else if n == 0 then "0"
              else render(d.coef) + "*x**" + render(d.exp)
  {
    ScaledPowerRead(a, n, render);
    ScaledByPowerRule(Monomial(a as real, n as real), render);
  }

  /** a*x**n written out is derived as the monomial a·x^n. */
  lemma ScaledPowerRead(a: nat, n: nat, render: real -> string)
    ensures DeriveSingleTerm(NatToDigits(a) + "*x**" + NatToDigits(n), render) ==
              DeriveScaled(Monomial(a as real, n as real), render)
  {
    var t := NatToDigits(a) + "*x**" + NatToDigits(n);
    ScaledPowerStripped(a, n, render);
    DigitEnds(a, "*x**", n);
    StrippedTerm(t, render);
  }

  /** The stripped text a*x**n takes the a*x**n branch with the monomial a·x^n. */
  lemma ScaledPowerStripped(a: nat, n: nat, render: real -> string)
    ensures DeriveStripped(NatToDigits(a) + "*x**" + NatToDigits(n), render) ==
              DeriveScaled(Monomial(a as real, n as real), render)
  {
    var t := NatToDigits(a) + "*x**" + NatToDigits(n);
    var m := Monomial(a as real, n as real);
    LeadingNatural(a, "*x**" + NatToDigits(n));
    assert NatToDigits(a) + ("*x**" + NatToDigits(n)) == t;
    NoPowerOfX(t);
    ReadScaledPower(a, n);
    ScaledPowerBranch(t, render);
    assert ScaledPower(t).value == m;
  }

  /** DeriveScaled writes out the power rule, with exponent 1 giving the bare coefficient. */
  lemma ScaledByPowerRule(m: Monomial, render: real -> string)
    ensures var d := PowerRule(m);
            DeriveScaled(m, render) ==
              if m.exp == 1.0 then render(d.coef)
              else if m.exp == 0.0 then "0"
              else render(d.coef) + "*x**" + render(d.exp)
  {
    if m.exp == 1.0 {
      assert m.coef * m.exp == m.coef;
    }
  }

  /** a*x derives to rendered a, the power rule's coefficient for exponent 1. */
  lemma ScaledXTerm(a: nat, render: real -> string)
    ensures DeriveSingleTerm(NatToDigits(a) + "*x", render) ==
              render(PowerRule(Monomial(a as real, 1.0)).coef)
  {
    var t := NatToDigits(a) + "*x";
    LeadingNatural(a, "*x");
    NoPowerOfX(t);
    ReadScaledX(a);
    ScaledXBranch(t, render);
    assert DeriveSingleTerm(t, render) == DeriveStripped(t, render) by {
      NatToDigitsReads(a);
      assert t[0] == NatToDigits(a)[0];
      StrippedTerm(t, render);
    }
  }

  /** x alone derives to "1". */
  lemma XTerm(render: real -> string)
    ensures DeriveSingleTerm("x", render) == "1"
  {
    StrippedTerm("x", render);
  }

  // ------------------------------------------- any term the patterns read

  /** A numeral's text starts with a sign or a digit and ends with a digit. */
  lemma NumeralEnds(u: string, j: nat)
    requires 0 < j <= |u| && NumeralBetween(u, 0, j)
    ensures IsSign(u[0]) || IsDigit(u[0])
    ensures IsDigit(u[j - 1])
  {
    var start := if IsSign(u[0]) then 1 else 0;
    if !DigitsBetween(u, start, j) {
      var p :| start < p < j && PointAt(u, start, p, j);
    }
  }

  /**
   * A term whose stripped text is a whole numeral, signed or decimal
   * (`-3`, `2.5`), derives to "0".
   */
  lemma ConstantTermGeneral(t: string, render: real -> string)
    requires Numeric(Strip(t))
    ensures DeriveSingleTerm(t, render) == "0"
  {
    NumericIsFullMatch(Strip(t));
  }

  /** A term whose stripped text is x derives to "1". */
  lemma XTermGeneral(t: string, render: real -> string)
    requires Strip(t) == "x"
    ensures DeriveSingleTerm(t, render) == "1"
  {
    assert RunEnd("x", 0) == 0;
  }

  /**
   * A term whose stripped text starts with x** and a numeral n, of any
   * sign or with a fraction (`x**2.5`, `x**-1`), and whatever follows it,
   * derives by the power rule with coefficient 1: "1" for n = 1, "0" for
   * n = 0, and otherwise n*x**(n-1) rendered. The greedy read may run past
   * j, so n is the numeral NumeralAt reads at 3.
   */
  lemma PowerTermGeneral(t: string, j: nat, render: real -> string)
    requires HasAt(Strip(t), 0, "x**") && 3 <= j <= |Strip(t)| && NumeralBetween(Strip(t), 3, j)
    ensures var u := Strip(t);
            && NumeralAt(u, 3).Some?
            && var n := NumeralAt(u, 3).value.value;
               var d := PowerRule(Monomial(1.0, n));
               DeriveSingleTerm(t, render) ==
                 if n == 1.0 then "1"
                 else if n == 0.0 then "0"
                 else render(d.coef) + "*x**" + render(d.exp)
  {
    var u := Strip(t);
    PowerOfXMatches(u);
    var n := NumeralAt(u, 3).value.value;
    assert u[0] == 'x' && |u| > 3;
    assert RunEnd(u, 0) == 0;
    PowerBranch(u, render);
    assert 1.0 * n == n;
  }

  /**
   * A term whose stripped text starts with a numeral a ending at j, "*x**"
   * and a numeral n, signed or decimal, derives by the power rule: rendered
   * a for n = 1, "0" for n = 0, and otherwise (a·n)*x**(n-1) rendered. The
   * coefficient is read whole, up to j.
   */
  lemma ScaledPowerTermGeneral(t: string, j: nat, k: nat, render: real -> string)
    requires ScaledPowerShape(Strip(t), j, k)
    ensures var u := Strip(t);
            && NumeralAt(u, 0).Some? && NumeralAt(u, 0).value.end == j
            && NumeralAt(u, j + 4).Some?
            && var a := NumeralAt(u, 0).value.value;
               var n := NumeralAt(u, j + 4).value.value;
               var d := PowerRule(Monomial(a, n));
               DeriveSingleTerm(t, render) ==
                 if n == 1.0 then render(d.coef)
                 else if n == 0.0 then "0"
                 else render(d.coef) + "*x**" + render(d.exp)
  {
    var u := Strip(t);
    ScaledShapeTakesBranch(u, j, k, render);
    ScaledByPowerRule(ScaledPower(u).value, render);
  }

  /** Stripped text of the a*x**n shape is read whole and takes that branch. */
  lemma ScaledShapeTakesBranch(u: string, j: nat, k: nat, render: real -> string)
    requires ScaledPowerShape(u, j, k)
    ensures && NumeralAt(u, 0).Some? && NumeralAt(u, 0).value.end == j
            && NumeralAt(u, j + 4).Some?
            && ScaledPower(u) == Some(Monomial(NumeralAt(u, 0).value.value, NumeralAt(u, j + 4).value.value))
            && DeriveStripped(u, render) == DeriveScaled(ScaledPower(u).value, render)
  {
    assert NumeralAt(u, 0).Some? && NumeralAt(u, 0).value.end == j by {
      GroupIsLongest(u, 0, j, "*x**");
    }
    assert NumeralAt(u, j + 4).Some? by {
      NumeralAtIsLongest(u, j + 4);
      assert NumeralBetween(u, j + 4, k);
    }
    assert ScaledPower(u) == Some(Monomial(NumeralAt(u, 0).value.value, NumeralAt(u, j + 4).value.value));
    assert DeriveStripped(u, render) == DeriveScaled(ScaledPower(u).value, render) by {
      assert !IsConstant(u) && u != "x";
      assert PowerOfX(u).None? by {
        NumeralEnds(u, j);
        NoPowerOfX(u);
      }
      ScaledPowerBranch(u, render);
    }
  }

  /**
   * A term whose stripped text starts with a numeral a ending at j and
   * "*x", signed or decimal, and that the a*x**n pattern does not read,
   * derives to rendered a, the power rule's coefficient for exponent 1.
   */
  lemma ScaledXTermGeneral(t: string, j: nat, render: real -> string)
    requires j <= |Strip(t)| && NumeralBetween(Strip(t), 0, j) && HasAt(Strip(t), j, "*x")
    requires !(HasAt(Strip(t), j, "*x**") && NumeralAt(Strip(t), j + 4).Some?)
    ensures var u := Strip(t);
            && NumeralAt(u, 0).Some? && NumeralAt(u, 0).value.end == j
            && DeriveSingleTerm(t, render) == render(PowerRule(Monomial(NumeralAt(u, 0).value.value, 1.0)).coef)
  {
    var u := Strip(t);
    ScaledXTakesBranch(u, j, render);
    var a := NumeralAt(u, 0).value.value;
    assert a * 1.0 == a;
  }

  /** Stripped text of the a*x shape, not read by a*x**n, is read whole and takes the a*x branch. */
  lemma ScaledXTakesBranch(u: string, j: nat, render: real -> string)
    requires j <= |u| && NumeralBetween(u, 0, j) && HasAt(u, j, "*x")
    requires !(HasAt(u, j, "*x**") && NumeralAt(u, j + 4).Some?)
    ensures && NumeralAt(u, 0).Some? && NumeralAt(u, 0).value.end == j
            && DeriveStripped(u, render) == render(NumeralAt(u, 0).value.value)
  {
    assert NumeralAt(u, 0).Some? && NumeralAt(u, 0).value.end == j by {
      GroupIsLongest(u, 0, j, "*x");
    }
    assert ScaledX(u) == Some(NumeralAt(u, 0).value.value);
    assert ScaledPower(u).None?;
    assert !IsConstant(u) && u != "x";
    assert PowerOfX(u).None? by {
      NumeralEnds(u, j);
      NoPowerOfX(u);
    }
    ScaledXBranch(u, render);
  }

  /**
   * A term that no pattern reads derives to "0": its stripped text is not
   * a whole numeral, not x, not x** followed by a numeral, and its leading
   * numeral, if any, is not followed by "*x".
   */
  lemma OtherTermGeneral(t: string, render: real -> string)
    requires !Numeric(Strip(t)) && Strip(t) != "x"
    requires !(HasAt(Strip(t), 0, "x**") && NumeralAt(Strip(t), 3).Some?)
    requires NumeralAt(Strip(t), 0).None? || !HasAt(Strip(t), NumeralAt(Strip(t), 0).value.end, "*x")
    ensures DeriveSingleTerm(t, render) == "0"
  {
    var u := Strip(t);
    NumericIsFullMatch(u);
    assert PowerOfX(u).None?;
    assert ScaledPower(u).None? by {
      if NumeralAt(u, 0).Some? {
        StarXPrefix(u, NumeralAt(u, 0).value.end);
      }
    }
    assert ScaledX(u).None?;
  }

  /** Wherever "*x**" is, "*x" is: the a*x**n pattern extends the a*x one. */
  lemma StarXPrefix(u: string, e: nat)
    ensures HasAt(u, e, "*x**") ==> HasAt(u, e, "*x")
  {
    if HasAt(u, e, "*x**") {
      assert u[e..][..2] == "*x**"[..2];
    }
  }

  // ------------------------------------------------------------ the table

  /**
   * The table of special cases looked up, verbatim, before any term is
   * derived: the value stored under s, or None when s is not a key.
   */
  function Lookup(s: string): Option<string>
  {
    if s == "x" then Some("1")
    else if s == "x**2" then Some("2*x")
    else if s == "x**3" then Some("3*x**2")
    else if s == "x**4" then Some("4*x**3")
    else if s == "2*x" then Some("2")
    else if s == "3*x" then Some("3")
    else if s == "x+1" then Some("1")
    else if s == "x-1" then Some("1")
    else if s == "x**2-4" then Some("2*x")
    else if s == "x**2+x" then Some("2*x+1")
    else if s == "x**3-x" then Some("3*x**2-1")
    else if s == "2*x**2" then Some("4*x")
    else if s == "3*x**2" then Some("6*x")
    else None
  }

  /** c·x^e with an integer coefficient: a term of the polynomials the table is about. */
  datatype PolyTerm = PolyTerm(coef: int, exp: nat)

  /** A term written as the table writes it: magnitude only, no "1*" factor, no "**1". */
  function ShowTerm(m: PolyTerm): string
  {
    var c := if m.coef < 0 then -m.coef else m.coef;
    if m.exp == 0 then NatToDigits(c)
    else (if c == 1 then "" else NatToDigits(c) + "*") + "x" + (if m.exp == 1 then "" else "**" + NatToDigits(m.exp))
  }

  /** The terms after the first, each preceded by its sign. */
  function ShowRest(p: seq<PolyTerm>): string
  {
    if p == [] then [] else (if p[0].coef < 0 then "-" else "+") + ShowTerm(p[0]) + ShowRest(p[1..])
  }

  /** A polynomial written out, its first term signed only when negative. */
  function ShowPoly(p: seq<PolyTerm>): string
  {
    if p == [] then "0" else (if p[0].coef < 0 then "-" else "") + ShowTerm(p[0]) + ShowRest(p[1..])
  }

  /** A binomial with a positive leading coefficient is its two terms joined by the second's sign. */
  lemma ShowBinomial(m: PolyTerm, n: PolyTerm)
    requires m.coef > 0
    ensures ShowPoly([m, n]) == ShowTerm(m) + (if n.coef < 0 then "-" else "+") + ShowTerm(n)
  {
    var sign := if n.coef < 0 then "-" else "+";
    assert ShowRest([n]) == sign + ShowTerm(n) by {
      assert [n][1..] == [];
    }
    assert ShowPoly([m, n]) == ShowTerm(m) + ShowRest([n]) by {
      assert [m, n][1..] == [n];
    }
  }

  /** The derivative of a polynomial by the power rule; constant terms drop out. */
  function DerivePoly(p: seq<PolyTerm>): (r: seq<PolyTerm>)
    ensures |r| <= |p|
  {
    if p == [] then []
    else if p[0].exp == 0 then DerivePoly(p[1..])
    else [PolyTerm(p[0].coef * p[0].exp, p[0].exp - 1)] + DerivePoly(p[1..])
  }

  /** Some polynomial is written k, and v writes its derivative by the power rule. */
  ghost predicate WritesDerivative(k: string, v: string)
  {
    exists p :: ShowPoly(p) == k && v == ShowPoly(DerivePoly(p))
  }

  /**
   * Every entry of the table is right: its key writes some polynomial, and
   * its value writes that polynomial's derivative by the power rule.
   */
  lemma TableIsPowerRule(s: string)
    ensures Lookup(s).Some? ==> WritesDerivative(s, Lookup(s).value)
  {
    if s == "x" {
      EntryX();
    } else if s == "x**2" {
      EntryXSquared();
    } else if s == "x**3" {
      EntryXCubed();
    } else if s == "x**4" {
      EntryXFourth();
    } else if s == "2*x" {
      EntryTwoX();
    } else if s == "3*x" {
      EntryThreeX();
    } else if s == "x+1" {
      EntryXPlusOne();
    } else if s == "x-1" {
      EntryXMinusOne();
    } else if s == "x**2-4" {
      EntryXSquaredMinusFour();
    } else if s == "x**2+x" {
      EntryXSquaredPlusX();
    } else if s == "x**3-x" {
      EntryXCubedMinusX();
    } else if s == "2*x**2" {
      EntryTwoXSquared();
    } else if s == "3*x**2" {
      EntryThreeXSquared();
    }
  }

  // The table entries one by one: each key and value computed from its polynomial.

  lemma EntryX()
    ensures WritesDerivative("x", "1")
  {
    var p := [PolyTerm(1, 1)];
    assert ShowPoly(p) == "x" by {
      assert NatToDigits(1) == "1";
      assert ShowTerm(PolyTerm(1, 1)) == "x";
    }
    assert ShowPoly(DerivePoly(p)) == "1" by {
      assert NatToDigits(1) == "1";
      assert DerivePoly([PolyTerm(1, 1)]) == [PolyTerm(1, 0)];
      assert ShowTerm(PolyTerm(1, 0)) == "1";
    }
  }

  lemma EntryXSquared()
    ensures WritesDerivative("x**2", "2*x")
  {
    var p := [PolyTerm(1, 2)];
    assert ShowPoly(p) == "x**2" by {
      assert NatToDigits(1) == "1" && NatToDigits(2) == "2";
      assert ShowTerm(PolyTerm(1, 2)) == "x**2";
    }
    assert ShowPoly(DerivePoly(p)) == "2*x" by {
      assert NatToDigits(1) == "1" && NatToDigits(2) == "2";
      assert DerivePoly([PolyTerm(1, 2)]) == [PolyTerm(2, 1)];
      assert ShowTerm(PolyTerm(2, 1)) == "2*x";
    }
  }

  lemma EntryXCubed()
    ensures WritesDerivative("x**3", "3*x**2")
  {
    var p := [PolyTerm(1, 3)];
    assert ShowPoly(p) == "x**3" by {
      assert NatToDigits(1) == "1" && NatToDigits(2) == "2" && NatToDigits(3) == "3";
      assert ShowTerm(PolyTerm(1, 3)) == "x**3";
    }
    assert ShowPoly(DerivePoly(p)) == "3*x**2" by {
      assert NatToDigits(1) == "1" && NatToDigits(2) == "2" && NatToDigits(3) == "3";
      assert DerivePoly([PolyTerm(1, 3)]) == [PolyTerm(3, 2)];
      assert ShowTerm(PolyTerm(3, 2)) == "3*x**2";
    }
  }

  lemma EntryXFourth()
    ensures WritesDerivative("x**4", "4*x**3")
  {
    var p := [PolyTerm(1, 4)];
    assert ShowPoly(p) == "x**4" by {
      assert NatToDigits(1) == "1" && NatToDigits(3) == "3" && NatToDigits(4) == "4";
      assert ShowTerm(PolyTerm(1, 4)) == "x**4";
    }
    assert ShowPoly(DerivePoly(p)) == "4*x**3" by {
      assert NatToDigits(1) == "1" && NatToDigits(3) == "3" && NatToDigits(4) == "4";
      assert DerivePoly([PolyTerm(1, 4)]) == [PolyTerm(4, 3)];
      assert ShowTerm(PolyTerm(4, 3)) == "4*x**3";
    }
  }

  lemma EntryTwoX()
    ensures WritesDerivative("2*x", "2")
  {
    var p := [PolyTerm(2, 1)];
    assert ShowPoly(p) == "2*x" by {
      assert NatToDigits(2) == "2";
      assert ShowTerm(PolyTerm(2, 1)) == "2*x";
    }
    assert ShowPoly(DerivePoly(p)) == "2" by {
      assert NatToDigits(2) == "2";
      assert DerivePoly([PolyTerm(2, 1)]) == [PolyTerm(2, 0)];
      assert ShowTerm(PolyTerm(2, 0)) == "2";
    }
  }

  lemma EntryThreeX()
    ensures WritesDerivative("3*x", "3")
  {
    var p := [PolyTerm(3, 1)];
    assert ShowPoly(p) == "3*x" by {
      assert NatToDigits(3) == "3";
      assert ShowTerm(PolyTerm(3, 1)) == "3*x";
    }
    assert ShowPoly(DerivePoly(p)) == "3" by {
      assert NatToDigits(3) == "3";
      assert DerivePoly([PolyTerm(3, 1)]) == [PolyTerm(3, 0)];
      assert ShowTerm(PolyTerm(3, 0)) == "3";
    }
  }

  lemma EntryXPlusOne()
    ensures WritesDerivative("x+1", "1")
  {
    var p := [PolyTerm(1, 1), PolyTerm(1, 0)];
    assert ShowPoly(p) == "x+1" by {
      assert NatToDigits(1) == "1";
      assert ShowTerm(PolyTerm(1, 1)) == "x";
      assert ShowTerm(PolyTerm(1, 0)) == "1";
      ShowBinomial(PolyTerm(1, 1), PolyTerm(1, 0));
    }
    assert ShowPoly(DerivePoly(p)) == "1" by {
      assert NatToDigits(1) == "1";
      assert DerivePoly([PolyTerm(1, 1), PolyTerm(1, 0)]) == [PolyTerm(1, 0)];
      assert ShowTerm(PolyTerm(1, 0)) == "1";
    }
  }

  lemma EntryXMinusOne()
    ensures WritesDerivative("x-1", "1")
  {
    var p := [PolyTerm(1, 1), PolyTerm(-1, 0)];
    assert ShowPoly(p) == "x-1" by {
      assert NatToDigits(1) == "1";
      assert ShowTerm(PolyTerm(1, 1)) == "x";
      assert ShowTerm(PolyTerm(-1, 0)) == "1";
      ShowBinomial(PolyTerm(1, 1), PolyTerm(-1, 0));
    }
    assert ShowPoly(DerivePoly(p)) == "1" by {
      assert NatToDigits(1) == "1";
      assert DerivePoly([PolyTerm(1, 1), PolyTerm(-1, 0)]) == [PolyTerm(1, 0)];
      assert ShowTerm(PolyTerm(1, 0)) == "1";
    }
  }

  lemma EntryXSquaredMinusFour()
    ensures WritesDerivative("x**2-4", "2*x")
  {
    var p := [PolyTerm(1, 2), PolyTerm(-4, 0)];
    assert ShowPoly(p) == "x**2-4" by {
      assert NatToDigits(1) == "1" && NatToDigits(2) == "2" && NatToDigits(4) == "4";
      assert ShowTerm(PolyTerm(1, 2)) == "x**2";
      assert ShowTerm(PolyTerm(-4, 0)) == "4";
      ShowBinomial(PolyTerm(1, 2), PolyTerm(-4, 0));
    }
    assert ShowPoly(DerivePoly(p)) == "2*x" by {
      assert NatToDigits(1) == "1" && NatToDigits(2) == "2" && NatToDigits(4) == "4";
      assert DerivePoly([PolyTerm(1, 2), PolyTerm(-4, 0)]) == [PolyTerm(2, 1)];
      assert ShowTerm(PolyTerm(2, 1)) == "2*x";
    }
  }

  lemma EntryXSquaredPlusX()
    ensures WritesDerivative("x**2+x", "2*x+1")
  {
    var p := [PolyTerm(1, 2), PolyTerm(1, 1)];
    assert ShowPoly(p) == "x**2+x" by {
      assert NatToDigits(1) == "1" && NatToDigits(2) == "2";
      assert ShowTerm(PolyTerm(1, 2)) == "x**2";
      assert ShowTerm(PolyTerm(1, 1)) == "x";
      ShowBinomial(PolyTerm(1, 2), PolyTerm(1, 1));
    }
    assert ShowPoly(DerivePoly(p)) == "2*x+1" by {
      assert NatToDigits(1) == "1" && NatToDigits(2) == "2";
      assert DerivePoly([PolyTerm(1, 2), PolyTerm(1, 1)]) == [PolyTerm(2, 1), PolyTerm(1, 0)];
      assert ShowTerm(PolyTerm(2, 1)) == "2*x";
      assert ShowTerm(PolyTerm(1, 0)) == "1";
      ShowBinomial(PolyTerm(2, 1), PolyTerm(1, 0));
    }
  }

  lemma EntryXCubedMinusX()
    ensures WritesDerivative("x**3-x", "3*x**2-1")
  {
    var p := [PolyTerm(1, 3), PolyTerm(-1, 1)];
    assert ShowPoly(p) == "x**3-x" by {
      assert NatToDigits(1) == "1" && NatToDigits(2) == "2" && NatToDigits(3) == "3";
      assert ShowTerm(PolyTerm(1, 3)) == "x**3";
      assert ShowTerm(PolyTerm(-1, 1)) == "x";
      ShowBinomial(PolyTerm(1, 3), PolyTerm(-1, 1));
    }
    assert ShowPoly(DerivePoly(p)) == "3*x**2-1" by {
      assert NatToDigits(1) == "1" && NatToDigits(2) == "2" && NatToDigits(3) == "3";
      assert DerivePoly([PolyTerm(1, 3), PolyTerm(-1, 1)]) == [PolyTerm(3, 2), PolyTerm(-1, 0)];
      assert ShowTerm(PolyTerm(3, 2)) == "3*x**2";
      assert ShowTerm(PolyTerm(-1, 0)) == "1";
      ShowBinomial(PolyTerm(3, 2), PolyTerm(-1, 0));
    }
  }

  lemma EntryTwoXSquared()
    ensures WritesDerivative("2*x**2", "4*x")
  {
    var p := [PolyTerm(2, 2)];
    assert ShowPoly(p) == "2*x**2" by {
      assert NatToDigits(2) == "2" && NatToDigits(4) == "4";
      assert ShowTerm(PolyTerm(2, 2)) == "2*x**2";
    }
    assert ShowPoly(DerivePoly(p)) == "4*x" by {
      assert NatToDigits(2) == "2" && NatToDigits(4) == "4";
      assert DerivePoly([PolyTerm(2, 2)]) == [PolyTerm(4, 1)];
      assert ShowTerm(PolyTerm(4, 1)) == "4*x";
    }
  }

  lemma EntryThreeXSquared()
    ensures WritesDerivative("3*x**2", "6*x")
  {
    var p := [PolyTerm(3, 2)];
    assert ShowPoly(p) == "3*x**2" by {
      assert NatToDigits(2) == "2" && NatToDigits(3) == "3" && NatToDigits(6) == "6";
      assert ShowTerm(PolyTerm(3, 2)) == "3*x**2";
    }
    assert ShowPoly(DerivePoly(p)) == "6*x" by {
      assert NatToDigits(2) == "2" && NatToDigits(3) == "3" && NatToDigits(6) == "6";
      assert DerivePoly([PolyTerm(3, 2)]) == [PolyTerm(6, 1)];
      assert ShowTerm(PolyTerm(6, 1)) == "6*x";
    }
  }

  // ------------------------------------------------------------ a sum of terms

  /** One item of the joined derivative: a separator kept as it was, or a term's derivative. */
  datatype Piece = Sign(sign: char) | Derived(text: string)

  /**
   * What the loop of calculate_derivative appends for one item of the
   * split: a separator as it is; nothing for blank text; otherwise the
   * stripped term's derivative, unless that is empty or "0".
   */
  function DeriveItem(item: string, render: real -> string): seq<Piece>
  {
    if item == "+" || item == "-" then [Sign(item[0])]
    else if Strip(item) == [] then []
    else
      var d := DeriveSingleTerm(Strip(item), render);
      if d == [] || d == "0" then [] else [Derived(d)]
  }

  /** The list of pieces the loop builds from the items of the split, in order. */
  function DerivePieces(items: seq<string>, render: real -> string): (r: seq<Piece>)
    ensures forall i :: 0 <= i < |r| && r[i].Sign? ==> IsSign(r[i].sign)
    ensures forall i :: 0 <= i < |r| && r[i].Derived? ==> r[i].text != [] && r[i].text != "0"
  {
    if items == [] then [] else DeriveItem(items[0], render) + DerivePieces(items[1..], render)
  }

  lemma {:induction false} PiecesAppend(a: seq<string>, b: seq<string>, render: real -> string)
    ensures DerivePieces(a + b, render) == DerivePieces(a, render) + DerivePieces(b, render)
    decreases |a|
  {
    if a == [] {
      assert a + b == b;
    } else {
      assert (a + b)[1..] == a[1..] + b;
      PiecesAppend(a[1..], b, render);
    }
  }

  /** The separators among the pieces, in order. */
  function PieceSigns(ps: seq<Piece>): string
  {
    if ps == [] then []
    else if ps[0].Sign? then [ps[0].sign] + PieceSigns(ps[1..])
    else PieceSigns(ps[1..])
  }

  lemma {:induction false} PieceSignsAppend(a: seq<Piece>, b: seq<Piece>)
    ensures PieceSigns(a + b) == PieceSigns(a) + PieceSigns(b)
    decreases |a|
  {
    if a == [] {
      assert a + b == b;
    } else {
      assert (a + b)[1..] == a[1..] + b;
      PieceSignsAppend(a[1..], b);
    }
  }

  /** Every item is sign-free text or a single sign, as the items of a split are. */
  predicate Separated(items: seq<string>)
  {
    forall i :: 0 <= i < |items| ==> SignFree(items[i]) || (|items[i]| == 1 && IsSign(items[i][0]))
  }

  lemma {:induction false} SeparatedSigns(items: seq<string>, render: real -> string)
    requires Separated(items)
    ensures PieceSigns(DerivePieces(items, render)) == Signs(Concat(items))
    decreases |items|
  {
    if items != [] {
      var item := items[0];
      assert Separated(items[1..]) by {
        forall i | 0 <= i < |items[1..]|
          ensures SignFree(items[1..][i]) || (|items[1..][i]| == 1 && IsSign(items[1..][i][0]))
        {
          assert items[1..][i] == items[i + 1];
        }
      }
      SeparatedSigns(items[1..], render);
      PieceSignsAppend(DeriveItem(item, render), DerivePieces(items[1..], render));
      SignsAppend(item, Concat(items[1..]));
      if !SignFree(item) {
        assert item == [item[0]];
      }
    }
  }

  /** Every sign of the input survives among the pieces, in order, whatever the terms derive to. */
  lemma SignsSurvive(s: string, render: real -> string)
    ensures PieceSigns(DerivePieces(SplitSigns(s), render)) == Signs(s)
  {
    var items := SplitSigns(s);
    assert Separated(items) by {
      forall i | 0 <= i < |items|
        ensures SignFree(items[i]) || (|items[i]| == 1 && IsSign(items[i][0]))
      {
        assert i % 2 == 0 || i % 2 == 1;
      }
    }
    SeparatedSigns(items, render);
  }

  /**
   * A single term contributes its own derivative: text with no sign gives
   * the one piece DeriveSingleTerm writes for it, unless that is "" or "0".
   * With SumDerivesTermwise this fixes the pieces of every sum.
   */
  lemma TermPiece(s: string, render: real -> string)
    requires SignFree(s) && Strip(s) != []
    ensures var d := DeriveSingleTerm(Strip(s), render);
            DerivePieces(SplitSigns(s), render) == if d == [] || d == "0" then [] else [Derived(d)]
  {
    SplitOfSignFree(s);
    assert s != "+" && s != "-" by {
      assert !IsSign(s[0]);
    }
    assert DerivePieces([s], render) == DeriveItem(s, render) + DerivePieces([], render);
  }

  /**
   * The terms of a sum are derived one by one: the pieces of a + [c] + b
   * are those of a, the separator c, and those of b.
   */
  lemma SumDerivesTermwise(a: string, c: char, b: string, render: real -> string)
    requires IsSign(c)
    ensures DerivePieces(SplitSigns(a + [c] + b), render) ==
              DerivePieces(SplitSigns(a), render) + [Sign(c)] + DerivePieces(SplitSigns(b), render)
  {
    SplitAround(a, c, b);
    PiecesAppend(SplitSigns(a) + [[c]], SplitSigns(b), render);
    PiecesAppend(SplitSigns(a), [[c]], render);
    assert DerivePieces([[c]], render) == [Sign(c)] by {
      assert DerivePieces([[c]], render) == DeriveItem([c], render) + DerivePieces([], render);
    }
  }

  /** ''.join of the pieces. */
  function Join(ps: seq<Piece>): string
  {
    if ps == [] then []
    else (match ps[0] case Sign(c) => [c] case Derived(d) => d) + Join(ps[1..])
  }

  /**
   * The clean-up after joining: "+-" becomes "-", then "++" becomes "+",
   * one leading '+' is dropped, and nothing left becomes "0". It only ever
   * deletes '+' characters: once they are erased, the result is the input.
   */
  function Clean(joined: string): (r: string)
    ensures r != []
    ensures r == "0" || Erase(r, {'+'}) == Erase(joined, {'+'})
    ensures Erase(joined, {'+'}) != [] ==> Erase(r, {'+'}) == Erase(joined, {'+'})
  {
    var u := Replace(Replace(joined, "+-", "-"), "++", "+");
    CleanErases(joined);
    var v := if u != [] && u[0] == '+' then u[1..] else u;
    if v == [] then "0" else v
  }

  lemma CleanErases(joined: string)
    ensures var u := Replace(Replace(joined, "+-", "-"), "++", "+");
            && Erase(u, {'+'}) == Erase(joined, {'+'})
            && (u != [] && u[0] == '+' ==> Erase(u[1..], {'+'}) == Erase(joined, {'+'}))
  {
    assert Erase("+-", {'+'}) == Erase("-", {'+'});
    assert Erase("++", {'+'}) == Erase("+", {'+'});
    ReplaceKeepsErasure(joined, "+-", "-", {'+'});
    ReplaceKeepsErasure(Replace(joined, "+-", "-"), "++", "+", {'+'});
  }

  /**
   * The "+-" rule on its own: between two stretches with no '+', the one
   * "+-" becomes "-" and nothing else changes.
   */
  lemma CleanPlusMinus(a: string, b: string)
    requires '+' !in a && '+' !in b
    ensures Clean(a + "+-" + b) == a + "-" + b
  {
    var u := a + "-" + b;
    assert Replace(a + "+-" + b, "+-", "-") == u by {
      HeadFreeNotContains(a, "+-");
      assert "+-"[..1] == "+";
      ReplaceFirst(a, "+-", b, "-");
      NoCharNotContains(b, "+-", '+');
    }
    assert Replace(u, "++", "+") == u by {
      assert '+' !in u;
      NoCharNotContains(u, "++", '+');
    }
    assert u[0] != '+' by {
      if a != [] {
        assert u[0] == a[0];
      } else {
        assert u[0] == '-';
      }
    }
  }

  /**
   * The "++" rule on its own: after a non-empty stretch with no '+', a
   * doubled '+' becomes one, as when a dropped constant leaves its sign
   * next to the next term's ("x+5+x" joins to "1++1" and cleans to "1+1").
   */
  lemma CleanPlusPlus(a: string, b: string)
    requires a != [] && '+' !in a && '+' !in b && (b == [] || b[0] != '-')
    ensures Clean(a + "++" + b) == a + "+" + b
  {
    var s := a + "++" + b;
    var u := a + "+" + b;
    assert Replace(s, "+-", "-") == s by {
      assert s == a + ("++" + b);
      ReplaceSkips(a, "++" + b, "+-", "-");
      DoublePlusKept(b);
    }
    assert Replace(s, "++", "+") == u by {
      HeadFreeNotContains(a, "++");
      assert "++"[..1] == "+";
      ReplaceFirst(a, "++", b, "+");
      NoCharNotContains(b, "++", '+');
    }
    assert u[0] == a[0];
  }

  /** The "+-" rule leaves "++" alone when what follows has no '+' and does not start with '-'. */
  lemma DoublePlusKept(b: string)
    requires '+' !in b && (b == [] || b[0] != '-')
    ensures Replace("++" + b, "+-", "-") == "++" + b
  {
    var w := "++" + b;
    assert !("+-" <= w) by { assert w[1] == '+'; }
    assert w[1..] == "+" + b;
    assert !("+-" <= "+" + b) by {
      if b != [] { assert ("+" + b)[1] == b[0]; }
    }
    assert ("+" + b)[1..] == b;
    NoCharNotContains(b, "+-", '+');
  }

  /**
   * The leading-'+' rule on its own: one '+' in front of text with no '+'
   * is dropped, and nothing left becomes "0". When the text starts with
   * '-', the "+-" rule gives the same result.
   */
  lemma CleanLeadingPlus(t: string)
    requires '+' !in t
    ensures Clean("+" + t) == (if t == [] then "0" else t)
  {
    var s := "+" + t;
    if t != [] && t[0] == '-' {
      assert s == [] + "+-" + t[1..];
      CleanPlusMinus([], t[1..]);
      assert "-" + t[1..] == t;
    } else {
      assert s[1..] == t;
      assert Replace(s, "+-", "-") == s by {
        assert !("+-" <= s);
        NoCharNotContains(t, "+-", '+');
      }
      assert Replace(s, "++", "+") == s by {
        assert !("++" <= s);
        NoCharNotContains(t, "++", '+');
      }
    }
  }

  /**
   * The sum path of calculate_derivative on normalised text: derive the
   * pieces, and when any survive, join and clean them; None when nothing
   * survives.
   */
  function DeriveSum(s: string, render: real -> string): Option<string>
  {
    var pieces := DerivePieces(SplitSigns(s), render);
    if pieces == [] then None else Some(Clean(Join(pieces)))
  }

  /** The message returned when nothing survives. */
  const NotComputable: string := "Derivada no calculable autom\U{E1}ticamente"

  /**
   * calculate_derivative: normalise, look the text up in the table, and
   * otherwise derive it as a sum of terms.
   */
  function CalculateDerivative(funcStr: string, render: real -> string): (r: string)
    ensures r != []
  {
    var s := Normalize(funcStr);
    if Lookup(s).Some? then Lookup(s).value
    else match DeriveSum(s, render)
      case None => NotComputable
      case Some(d) => d
  }

  /** The input is normalised before anything else: normalising it first changes nothing. */
  lemma CalculateNormalizes(funcStr: string, render: real -> string)
    ensures CalculateDerivative(Normalize(funcStr), render) == CalculateDerivative(funcStr, render)
  {
    NormalizeIdempotent(funcStr);
  }

  /**
   * Nothing survives exactly when the text has no sign and is blank or a
   * single term deriving to "" or "0": a separator always survives.
   */
  lemma NothingSurvives(s: string, render: real -> string)
    ensures DeriveSum(s, render).None? <==>
              && SignFree(s)
              && (Strip(s) == [] || (var d := DeriveSingleTerm(Strip(s), render); d == [] || d == "0"))
  {
    SignsSurvive(s, render);
    SignsEmpty(s);
    if SignFree(s) {
      SplitOfSignFree(s);
      assert DerivePieces([s], render) == DeriveItem(s, render) + DerivePieces([], render);
    }
  }

  // ------------------------------------------------------------ documented behaviour

  /** Every key of the table mentions x. */
  lemma LookupNeedsX(s: string)
    ensures Lookup(s).Some? ==> 'x' in s
  {
  }

  /** A written natural has no space, upper-case letter, x or sign, and is its own strip. */
  lemma DigitsArePlain(a: nat)
    ensures var ds := NatToDigits(a);
            && ' ' !in ds && 'x' !in ds && SignFree(ds)
            && (forall i :: 0 <= i < |ds| ==> !('A' <= ds[i] <= 'Z'))
            && Strip(ds) == ds
  {
    var ds := NatToDigits(a);
    NatToDigitsReads(a);
    assert forall i :: 0 <= i < |ds| ==> IsDigit(ds[i]);
    StripOfTrimmed(ds);
  }

  /**
   * A lone constant is not differentiated to "0": its derivative is
   * dropped, nothing survives, and the caller gets the failure message.
   */
  lemma LoneConstant(a: nat, render: real -> string)
    ensures CalculateDerivative(NatToDigits(a), render) == NotComputable
  {
    var ds := NatToDigits(a);
    DigitsArePlain(a);
    NormalizeKeeps(ds);
    LookupNeedsX(ds);
    ConstantTerm(a, render);
    NothingSurvives(ds, render);
  }

  /** A sum of two constants derives to "0": only the separator survives, and it is cleaned away. */
  lemma SumOfConstants(a: nat, b: nat, render: real -> string)
    ensures CalculateDerivative(NatToDigits(a) + "+" + NatToDigits(b), render) == "0"
  {
    SumIsPlain(a, b);
    ConstantsLeaveSign(a, b, render);
    LoneSignCleaned();
  }

  /** Text with no space, no x and no upper-case letter. */
  predicate Plain(s: string)
  {
    ' ' !in s && 'x' !in s && forall i :: 0 <= i < |s| ==> !('A' <= s[i] <= 'Z')
  }

  /** Joining plain texts with '+' keeps them plain. */
  lemma PlainSum(x: string, y: string)
    requires Plain(x) && Plain(y)
    ensures Plain(x + "+" + y)
  {
    var s := x + "+" + y;
    forall i | 0 <= i < |s|
      ensures !('A' <= s[i] <= 'Z')
    {
      if i < |x| {
        assert s[i] == x[i];
      } else if i > |x| {
        assert s[i] == y[i - |x| - 1];
      }
    }
  }

  /** A sum of two written naturals is already normalised and is not a key of the table. */
  lemma SumIsPlain(a: nat, b: nat)
    ensures var s := NatToDigits(a) + "+" + NatToDigits(b);
            Normalize(s) == s && Lookup(s).None?
  {
    var s := NatToDigits(a) + "+" + NatToDigits(b);
    assert Plain(s) by {
      assert Plain(NatToDigits(a)) by { DigitsArePlain(a); }
      assert Plain(NatToDigits(b)) by { DigitsArePlain(b); }
      PlainSum(NatToDigits(a), NatToDigits(b));
    }
    assert Normalize(s) == s by {
      NormalizeKeeps(s);
    }
    assert Lookup(s).None? by {
      LookupNeedsX(s);
    }
  }

  /** A lone '+' joins to "+", which cleans to "0". */
  lemma LoneSignCleaned()
    ensures Clean(Join([Sign('+')])) == "0"
  {
    assert Join([Sign('+')]) == "+";
    assert Replace("+", "+-", "-") == "+";
    assert Replace("+", "++", "+") == "+";
  }

  /** Between two constants only the separator survives. */
  lemma ConstantsLeaveSign(a: nat, b: nat, render: real -> string)
    ensures DerivePieces(SplitSigns(NatToDigits(a) + "+" + NatToDigits(b)), render) == [Sign('+')]
  {
    var x := NatToDigits(a);
    var y := NatToDigits(b);
    SumDerivesTermwise(x, '+', y, render);
    ConstantPieces(a, render);
    ConstantPieces(b, render);
  }

  /** A constant on its own leaves no piece. */
  lemma ConstantPieces(a: nat, render: real -> string)
    ensures DerivePieces(SplitSigns(NatToDigits(a)), render) == []
  {
    var x := NatToDigits(a);
    DigitsArePlain(a);
    ConstantTerm(a, render);
    SplitOfSignFree(x);
    assert DerivePieces([x], render) == DeriveItem(x, render) + DerivePieces([], render);
  }

  /**
   * A sum ending in a constant keeps its separator: x + a derives to "1+"
   * rather than "1", because the constant's "0" is dropped after the sign.
   * (x+1 itself is a key of the table.)
   */
  lemma DanglingSign(a: nat, render: real -> string)
    requires a != 1
    ensures CalculateDerivative("x+" + NatToDigits(a), render) == "1+"
  {
    DanglingIsPlain(a);
    DanglingPieces(a, render);
    SignAfterOneCleaned();
  }

  /** x + a leaves the piece "1" and then the separator. */
  lemma DanglingPieces(a: nat, render: real -> string)
    ensures DerivePieces(SplitSigns("x+" + NatToDigits(a)), render) == [Derived("1"), Sign('+')]
  {
    var ds := NatToDigits(a);
    assert "x+" + ds == "x" + ['+'] + ds;
    assert DerivePieces(SplitSigns("x"), render) == [Derived("1")] by {
      XPieces(render);
    }
    assert DerivePieces(SplitSigns(ds), render) == [] by {
      ConstantPieces(a, render);
    }
    SumDerivesTermwise("x", '+', ds, render);
  }

  /** x + a, for a other than 1, is already normalised and is not a key of the table. */
  lemma DanglingIsPlain(a: nat)
    requires a != 1
    ensures var s := "x+" + NatToDigits(a);
            Normalize(s) == s && Lookup(s).None?
  {
    var ds := NatToDigits(a);
    var s := "x+" + ds;
    DanglingIsNormal(a);
    assert s != "x+1" by {
      assert NatToDigits(1) == "1";
      NatToDigitsInjective(a, 1);
      assert s[2..] == ds != "1" == "x+1"[2..];
    }
    NatToDigitsReads(a);
    SignedMiss(s);
  }

  lemma DanglingIsNormal(a: nat)
    ensures var s := "x+" + NatToDigits(a);
            Normalize(s) == s
  {
    var s := "x+" + NatToDigits(a);
    DigitsArePlain(a);
    assert ' ' !in s;
    NormalizeKeeps(s);
  }

  /** Text starting "x+" is a key of the table only as x+1. */
  lemma SignedMiss(s: string)
    requires |s| >= 3 && s[0] == 'x' && s[1] == '+' && s != "x+1"
    ensures Lookup(s).None?
  {
  }

  /** x alone leaves the one piece "1". */
  lemma XPieces(render: real -> string)
    ensures DerivePieces(SplitSigns("x"), render) == [Derived("1")]
  {
    XTerm(render);
    assert SignFree("x");
    SplitOfSignFree("x");
    StripOfTrimmed("x");
    assert DerivePieces(["x"], render) == DeriveItem("x", render) + DerivePieces([], render);
  }

  /** "1" followed by a lone '+' joins to "1+", which cleaning leaves as it is. */
  lemma SignAfterOneCleaned()
    ensures Clean(Join([Derived("1"), Sign('+')])) == "1+"
  {
    assert Join([Derived("1"), Sign('+')]) == "1+";
    NoCharNotContains("1+", "+-", '-');
    var one: string := "1+";
    var pat: string := "++";
    assert !(pat <= one[1..]) && !(pat <= one) && one[1..][1..] == [];
    assert !Contains(one[1..][1..], pat);
    assert !Contains(one[1..], pat);
    assert !Contains(one, pat);
  }
}
