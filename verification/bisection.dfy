/**
 * The bisection driver of numerical_methods/methods.py. The user function is
 * an uninterpreted `f: real -> real`; numbers are exact reals.
 */
module Bisection {
  import opened Results

  /** One recorded iteration: the bracket, its midpoint, the three values and the half-width. */
  datatype BisectionStep = BisectionStep(
    iteration: nat, a: real, b: real, c: real, fa: real, fb: real, fc: real, error: real)

  /** The record an iteration writes when it works on the bracket [a, b]. */
  function StepOn(f: real -> real, iteration: nat, a: real, b: real): BisectionStep
  {
    var c := (a + b) / 2.0;
    BisectionStep(iteration, a, b, c, f(a), f(b), f(c), Abs(b - a) / 2.0)
  }

  /** The convergence test, applied to the step just recorded. */
  predicate Stops(s: BisectionStep, tol: real)
  {
    Abs(s.fc) < tol || s.error < tol
  }

  /** The bracket the iteration after s works on: [a, c] when f(a)·f(c) < 0, else [c, b]. */
  function After(s: BisectionStep): (real, real)
  {
    if s.fa * s.fc < 0.0 then (s.a, s.c) else (s.c, s.b)
  }

  /** The bracket iteration k + 1 works on: the start bracket, or the one step k - 1 chose. */
  function BracketBefore(a0: real, b0: real, steps: seq<BisectionStep>, k: nat): (real, real)
    requires k <= |steps|
  {
    if k == 0 then (a0, b0) else After(steps[k - 1])
  }

  /** Record k is what iteration k + 1 writes on the bracket chosen before it. */
  predicate Link(f: real -> real, a0: real, b0: real, steps: seq<BisectionStep>, k: nat)
    requires k < |steps|
  {
    steps[k] == StepOn(f, k + 1, BracketBefore(a0, b0, steps, k).0, BracketBefore(a0, b0, steps, k).1)
  }

  /** A trace of bisection started on [a0, b0]: its first |steps| records. */
  predicate IsTrace(f: real -> real, a0: real, b0: real, steps: seq<BisectionStep>)
  {
    forall k :: 0 <= k < |steps| ==> Link(f, a0, b0, steps, k)
  }

  predicate StopsAt(steps: seq<BisectionStep>, tol: real, k: nat)
    requires k < |steps|
  {
    Stops(steps[k], tol)
  }

  /** None of the first n records passes the convergence test. */
  predicate RunsPast(steps: seq<BisectionStep>, tol: real, n: nat)
    requires n <= |steps|
  {
    forall k :: 0 <= k < n ==> !StopsAt(steps, tol, k)
  }

  /** w / 2^k. */
  function Halved(w: real, k: nat): real
  {
    if k == 0 then w else Halved(w, k - 1) / 2.0
  }

  /**
   * bisection_method. With no sign change it fails at once with an empty
   * trace. Otherwise every iteration is recorded before its convergence
   * test; the run stops at the first step that passes the test, or fails
   * after max(0, maxIterations) steps reporting the midpoint of the bracket
   * the last update chose.
   */
  method Bisection(f: real -> real, a0: real, b0: real, tol: real, maxIterations: int)
    returns (r: RootResult<BisectionStep>)
    ensures f(a0) * f(b0) > 0.0 ==> r == Failed(NoSignChange, [], None)
    ensures IsTrace(f, a0, b0, r.steps)
    ensures |r.steps| <= maxIterations || r.steps == []
    ensures |r.steps| > 0 ==> RunsPast(r.steps, tol, |r.steps| - 1)
    ensures r.Converged? <==> |r.steps| > 0 && Stops(Last(r.steps), tol)
    ensures r.Converged? ==>
              && r.root == Last(r.steps).c
              && r.iterations == |r.steps|
              && r.finalError == Last(r.steps).error
    ensures f(a0) * f(b0) <= 0.0 && r.Failed? ==>
              && r.failure == MaxIterationsReached
              && |r.steps| == (if maxIterations < 0 then 0 else maxIterations)
              && r.result == Some((BracketBefore(a0, b0, r.steps, |r.steps|).0
                                   + BracketBefore(a0, b0, r.steps, |r.steps|).1) / 2.0)
    ensures (0.0 < tol && f(a0) * f(b0) <= 0.0 && 0 < maxIterations
             && Halved(Abs(b0 - a0), maxIterations) < tol) ==> r.Converged?
  {
    var a, b := a0, b0;
    var fa, fb := f(a), f(b);
    if fa * fb > 0.0 {
      return Failed(NoSignChange, [], None);
    }
    var steps: seq<BisectionStep> := [];
    var iteration := 0;
    while iteration < maxIterations
      invariant iteration == |steps|
      invariant iteration <= maxIterations || iteration == 0
      invariant IsTrace(f, a0, b0, steps)
      invariant (a, b) == BracketBefore(a0, b0, steps, |steps|)
      invariant fa == f(a) && fb == f(b)
      invariant RunsPast(steps, tol, |steps|)
    {
      var c := (a + b) / 2.0;
      var fc := f(c);
      var step := BisectionStep(iteration + 1, a, b, c, fa, fb, fc, Abs(b - a) / 2.0);
      ExtendTrace(f, a0, b0, steps, tol, step);
      steps := steps + [step];
      if Abs(fc) < tol || Abs(b - a) / 2.0 < tol {
        return Converged(c, iteration + 1, Abs(b - a) / 2.0, steps);
      }
      if fa * fc < 0.0 {
        b, fb := c, fc;
      } else {
        a, fa := c, fc;
      }
      iteration := iteration + 1;
    }
    if |steps| > 0 {
      assert !StopsAt(steps, tol, |steps| - 1);
      ErrorHalves(f, a0, b0, steps, |steps| - 1);
    }
    return Failed(MaxIterationsReached, steps, Some((a + b) / 2.0));
  }

  /**
   * Appending what the next iteration writes on the bracket chosen last
   * extends a trace, and keeps the records before it.
   */
  lemma ExtendTrace(f: real -> real, a0: real, b0: real, steps: seq<BisectionStep>, tol: real, step: BisectionStep)
    requires IsTrace(f, a0, b0, steps)
    requires step == StepOn(f, |steps| + 1, BracketBefore(a0, b0, steps, |steps|).0, BracketBefore(a0, b0, steps, |steps|).1)
    ensures IsTrace(f, a0, b0, steps + [step])
    ensures RunsPast(steps, tol, |steps|) ==> RunsPast(steps + [step], tol, |steps|)
  {
    var steps' := steps + [step];
    forall k | 0 <= k < |steps'|
      ensures Link(f, a0, b0, steps', k)
    {
      if k < |steps| {
        assert Link(f, a0, b0, steps, k);
      }
    }
    if RunsPast(steps, tol, |steps|) {
      forall k | 0 <= k < |steps|
        ensures !StopsAt(steps', tol, k)
      {
        assert !StopsAt(steps, tol, k);
      }
    }
  }

  /** Each record works on a bracket of width (b0 - a0) / 2^k. */
  lemma {:induction false} WidthHalves(f: real -> real, a0: real, b0: real, steps: seq<BisectionStep>, k: nat)
    requires IsTrace(f, a0, b0, steps)
    requires k < |steps|
    ensures steps[k].b - steps[k].a == Halved(b0 - a0, k)
  {
    assert Link(f, a0, b0, steps, k);
    if k > 0 {
      WidthHalves(f, a0, b0, steps, k - 1);
      assert Link(f, a0, b0, steps, k - 1);
    }
  }

  lemma {:induction false} HalvedAbs(w: real, k: nat)
    ensures Abs(Halved(w, k)) == Halved(Abs(w), k)
  {
    if k > 0 {
      HalvedAbs(w, k - 1);
    }
  }

  /** Step k records the error |b0 - a0| / 2^(k+1). */
  lemma ErrorHalves(f: real -> real, a0: real, b0: real, steps: seq<BisectionStep>, k: nat)
    requires IsTrace(f, a0, b0, steps)
    requires k < |steps|
    ensures steps[k].error == Halved(Abs(b0 - a0), k + 1)
  {
    assert Link(f, a0, b0, steps, k);
    WidthHalves(f, a0, b0, steps, k);
    HalvedAbs(b0 - a0, k);
  }

  /**
   * On a proper interval the brackets nest: each midpoint lies between the
   * ends of its bracket, and each bracket lies inside the one before.
   */
  lemma {:induction false} BracketsNest(f: real -> real, a0: real, b0: real, steps: seq<BisectionStep>, k: nat)
    requires IsTrace(f, a0, b0, steps)
    requires a0 <= b0
    requires k < |steps|
    ensures a0 <= steps[k].a <= steps[k].c <= steps[k].b <= b0
    ensures 0 < k ==> steps[k - 1].a <= steps[k].a && steps[k].b <= steps[k - 1].b
  {
    assert Link(f, a0, b0, steps, k);
    if k > 0 {
      BracketsNest(f, a0, b0, steps, k - 1);
      assert Link(f, a0, b0, steps, k - 1);
    }
  }

  /** The trace is determined by f and the start bracket: two runs agree on their common prefix. */
  lemma {:induction false} TraceDetermined(f: real -> real, a0: real, b0: real,
                                           s1: seq<BisectionStep>, s2: seq<BisectionStep>, k: nat)
    requires IsTrace(f, a0, b0, s1) && IsTrace(f, a0, b0, s2)
    requires k < |s1| && k < |s2|
    ensures s1[k] == s2[k]
  {
    assert Link(f, a0, b0, s1, k) && Link(f, a0, b0, s2, k);
    if k > 0 {
      TraceDetermined(f, a0, b0, s1, s2, k - 1);
    }
  }

  /**
   * While no midpoint hits a root exactly, a strict sign change on the
   * start bracket is kept by every bracket the run works on.
   */
  lemma {:induction false} SignChangeKept(f: real -> real, a0: real, b0: real, steps: seq<BisectionStep>, k: nat)
    requires IsTrace(f, a0, b0, steps)
    requires f(a0) * f(b0) < 0.0
    requires k < |steps|
    requires forall j :: 0 <= j < k ==> steps[j].fc != 0.0
    ensures steps[k].fa * steps[k].fb < 0.0
  {
    assert Link(f, a0, b0, steps, k);
    if k > 0 {
      SignChangeKept(f, a0, b0, steps, k - 1);
      var s := steps[k - 1];
      assert Link(f, a0, b0, steps, k - 1);
      assert s.fc != 0.0;
      SignChangeMoves(s.fa, s.fb, s.fc);
    }
  }

  /**
   * As written, a root sitting exactly on the left end passes the sign
   * check (the product is 0, not positive) and is then discarded: with
   * f(x) = x on [0, 1], f(a)·f(c) = 0 sends the bracket to [1/2, 1], where
   * f no longer changes sign.
   */
  lemma EndpointRootDropped(steps: seq<BisectionStep>)
    requires IsTrace(x => x, 0.0, 1.0, steps)
    requires 2 <= |steps|
    ensures steps[0].fa == 0.0
    ensures steps[1].a == 0.5 && steps[1].b == 1.0
    ensures steps[1].fa * steps[1].fb > 0.0
  {
    assert Link(x => x, 0.0, 1.0, steps, 0);
    assert Link(x => x, 0.0, 1.0, steps, 1);
  }

  /**
   * The bracket update with the tie f(a)·f(c) = 0 sent to [a, c]: whenever
   * the bracket [a, b] has f(a)·f(b) <= 0, so has the half it keeps, and a
   * root on the left end is never lost.
   */
  function AfterClosed(s: BisectionStep): (r: (real, real))
    ensures s.fa * s.fb <= 0.0 ==>
              || (r == (s.a, s.c) && s.fa * s.fc <= 0.0)
              || (r == (s.c, s.b) && s.fc * s.fb <= 0.0)
  {
    SignChangeMoves(s.fa, s.fb, s.fc);
    if s.fa * s.fc <= 0.0 then (s.a, s.c) else (s.c, s.b)
  }

  /** If c has the sign of a, a sign change between a and b is one between c and b. */
  lemma SignChangeMoves(fa: real, fb: real, fc: real)
    ensures fa * fb <= 0.0 && fa * fc > 0.0 ==> fc * fb <= 0.0
    ensures fa * fb < 0.0 && fa * fc > 0.0 ==> fc * fb < 0.0
  {
    if fa * fc > 0.0 {
      assert (fa * fa) * (fc * fb) == (fa * fc) * (fa * fb);
      assert fa * fa > 0.0;
    }
  }
}
