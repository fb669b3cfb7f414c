/**
 * The Newton-Raphson driver of numerical_methods/methods.py. The function
 * and its derivative are uninterpreted `real -> real` parameters; numbers
 * are exact reals.
 */
module Newton {
  import opened Results

  /** One recorded iteration: the estimate, f and f' there, the next estimate and their distance. */
  datatype NewtonStep = NewtonStep(iteration: nat, x: real, fx: real, dfx: real, xNew: real, error: real)

  /** Below this magnitude the derivative counts as zero (1e-12). */
  const MinDerivative: real := 0.000000000001

  /** The derivative is too small to divide by. */
  predicate Flat(dfx: real)
  {
    Abs(dfx) < MinDerivative
  }

  /** The record an iteration writes at the estimate x. */
  function StepFrom(f: real -> real, df: real -> real, iteration: nat, x: real): NewtonStep
    requires !Flat(df(x))
  {
    var xNew := x - f(x) / df(x);
    NewtonStep(iteration, x, f(x), df(x), xNew, Abs(xNew - x))
  }

  /** The estimate iteration k + 1 starts from: x0, or the one step k - 1 produced. */
  function Start(x0: real, steps: seq<NewtonStep>, k: nat): real
    requires k <= |steps|
  {
    if k == 0 then x0 else steps[k - 1].xNew
  }

  /** Record k is what iteration k + 1 writes, at a point where the derivative is usable. */
  predicate Link(f: real -> real, df: real -> real, x0: real, steps: seq<NewtonStep>, k: nat)
    requires k < |steps|
  {
    && !Flat(df(Start(x0, steps, k)))
    && steps[k] == StepFrom(f, df, k + 1, Start(x0, steps, k))
  }

  /** A trace of Newton-Raphson started at x0: its first |steps| records. */
  predicate IsTrace(f: real -> real, df: real -> real, x0: real, steps: seq<NewtonStep>)
  {
    forall k :: 0 <= k < |steps| ==> Link(f, df, x0, steps, k)
  }

  predicate StopsAt(steps: seq<NewtonStep>, tol: real, k: nat)
    requires k < |steps|
  {
    steps[k].error < tol
  }

  /** None of the first n records passes the convergence test. */
  predicate RunsPast(steps: seq<NewtonStep>, tol: real, n: nat)
    requires n <= |steps|
  {
    forall k :: 0 <= k < n ==> !StopsAt(steps, tol, k)
  }

  /**
   * newton_raphson_method. Each iteration first checks the derivative at
   * the current estimate and gives up, without recording anything, when it
   * is below 1e-12 in magnitude; otherwise it records the step and stops
   * when the step moved less than tol. After max(0, maxIterations) steps
   * it fails reporting the last estimate.
   */
  method NewtonRaphson(f: real -> real, df: real -> real, x0: real, tol: real, maxIterations: int)
    returns (r: RootResult<NewtonStep>)
    ensures IsTrace(f, df, x0, r.steps)
    ensures |r.steps| <= maxIterations || r.steps == []
    ensures |r.steps| > 0 ==> RunsPast(r.steps, tol, |r.steps| - 1)
    ensures r.Converged? <==> |r.steps| > 0 && StopsAt(r.steps, tol, |r.steps| - 1)
    ensures r.Converged? ==>
              && r.root == Last(r.steps).xNew
              && r.iterations == |r.steps|
              && r.finalError == Last(r.steps).error
    ensures r.Failed? ==> r.failure == DerivativeTooSmall || r.failure == MaxIterationsReached
    ensures r.Failed? && r.failure == DerivativeTooSmall ==>
              && |r.steps| < maxIterations
              && Flat(df(Start(x0, r.steps, |r.steps|)))
              && r.result == None
    ensures r.Failed? && r.failure == MaxIterationsReached ==>
              && |r.steps| == (if maxIterations < 0 then 0 else maxIterations)
              && r.result == Some(Start(x0, r.steps, |r.steps|))
  {
    var steps: seq<NewtonStep> := [];
    var x := x0;
    var iteration := 0;
    while iteration < maxIterations
      invariant iteration == |steps|
      invariant iteration <= maxIterations || iteration == 0
      invariant IsTrace(f, df, x0, steps)
      invariant x == Start(x0, steps, |steps|)
      invariant RunsPast(steps, tol, |steps|)
    {
      var fx := f(x);
      var dfx := df(x);
      if Abs(dfx) < MinDerivative {
        return Failed(DerivativeTooSmall, steps, None);
      }
      var xNew := x - fx / dfx;
      var error := Abs(xNew - x);
      var step := NewtonStep(iteration + 1, x, fx, dfx, xNew, error);
      ExtendTrace(f, df, x0, steps, tol, step);
      steps := steps + [step];
      if error < tol {
        return Converged(xNew, iteration + 1, error, steps);
      }
      x := xNew;
      iteration := iteration + 1;
    }
    return Failed(MaxIterationsReached, steps, Some(x));
  }

  /** Appending what the next iteration writes extends a trace and keeps the records before it. */
  lemma ExtendTrace(f: real -> real, df: real -> real, x0: real, steps: seq<NewtonStep>, tol: real, step: NewtonStep)
    requires IsTrace(f, df, x0, steps)
    requires !Flat(df(Start(x0, steps, |steps|)))
    requires step == StepFrom(f, df, |steps| + 1, Start(x0, steps, |steps|))
    ensures IsTrace(f, df, x0, steps + [step])
    ensures RunsPast(steps, tol, |steps|) ==> RunsPast(steps + [step], tol, |steps|)
  {
    var steps' := steps + [step];
    forall k | 0 <= k < |steps'|
      ensures Link(f, df, x0, steps', k)
    {
      if k < |steps| {
        assert Link(f, df, x0, steps, k);
      }
    }
    if RunsPast(steps, tol, |steps|) {
      forall k | 0 <= k < |steps|
        ensures !StopsAt(steps', tol, k)
      {
        assert !StopsAt(steps, tol, k);
      }
    }
  }

  /** Each step starts where the previous one landed. */
  lemma TraceChains(f: real -> real, df: real -> real, x0: real, steps: seq<NewtonStep>, k: nat)
    requires IsTrace(f, df, x0, steps)
    requires k + 1 < |steps|
    ensures steps[k + 1].x == steps[k].xNew
    ensures steps[k + 1].error == Abs(steps[k + 1].xNew - steps[k].xNew)
  {
    assert Link(f, df, x0, steps, k + 1);
  }

  /** A step does not move exactly when the estimate is already a root. */
  lemma {:induction false} StillExactlyAtRoot(f: real -> real, df: real -> real, x0: real, steps: seq<NewtonStep>, k: nat)
    requires IsTrace(f, df, x0, steps)
    requires k < |steps|
    ensures steps[k].error == 0.0 <==> f(steps[k].x) == 0.0
    ensures steps[k].xNew == steps[k].x <==> steps[k].fx == 0.0
  {
    assert Link(f, df, x0, steps, k);
    var s := steps[k];
    assert s.dfx != 0.0;
    if s.fx != 0.0 {
      assert s.fx / s.dfx != 0.0;
    }
  }

  /**
   * On an affine function m·x + q with a usable slope, the first step lands
   * on the root -q/m, so a second step, if any, does not move.
   */
  lemma AffineSolvedInOneStep(m: real, q: real, x0: real, steps: seq<NewtonStep>)
    requires IsTrace(x => m * x + q, x => m, x0, steps)
    requires 0 < |steps|
    ensures m != 0.0 && steps[0].xNew == -q / m
    ensures 1 < |steps| ==> steps[1].fx == 0.0 && steps[1].error == 0.0
  {
    assert Link(x => m * x + q, x => m, x0, steps, 0);
    var x1 := x0 - (m * x0 + q) / m;
    assert m * x1 + q == 0.0 by {
      assert (m * x0 + q) / m * m == m * x0 + q;
    }
    if 1 < |steps| {
      assert Link(x => m * x + q, x => m, x0, steps, 1);
    }
  }

  /**
   * A shorter run is the start of a longer one: with the same f, f' and x0,
   * the records a run with fewer iterations writes are the first records
   * of any run with more, so raising max_iterations only appends records.
   */
  lemma {:induction false} TraceIsPrefix(f: real -> real, df: real -> real, x0: real,
                                         s1: seq<NewtonStep>, s2: seq<NewtonStep>)
    requires IsTrace(f, df, x0, s1) && IsTrace(f, df, x0, s2)
    requires |s1| <= |s2|
    ensures s1 == s2[..|s1|]
    decreases |s1|
  {
    if s1 != [] {
      var n := |s1| - 1;
      assert IsTrace(f, df, x0, s1[..n]) by {
        forall k | 0 <= k < n
          ensures Link(f, df, x0, s1[..n], k)
        {
          assert Link(f, df, x0, s1, k);
          assert Start(x0, s1[..n], k) == Start(x0, s1, k);
        }
      }
      TraceIsPrefix(f, df, x0, s1[..n], s2);
      assert Start(x0, s1, n) == Start(x0, s2, n) by {
        if n > 0 {
          assert s1[n - 1] == s1[..n][n - 1] == s2[n - 1];
        }
      }
      assert Link(f, df, x0, s1, n) && Link(f, df, x0, s2, n);
      assert s1 == s1[..n] + [s1[n]];
      assert s2[..|s1|] == s2[..n] + [s2[n]];
    }
  }
}
