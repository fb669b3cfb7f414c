/**
 * The fixed-step initial-value solvers of numerical_methods/methods.py:
 * Euler and classical fourth-order Runge-Kutta for y' = f(x, y). The right
 * hand side is an uninterpreted `(real, real) -> real`; numbers are exact
 * reals.
 */
module Ode {
  import opened Results

  /**
   * The step taken from x: h, shortened to land exactly on xFinal when a
   * full step would pass it.
   */
  function StepSize(x: real, h: real, xFinal: real): (s: real)
    requires 0.0 < h && x < xFinal
    ensures 0.0 < s <= h
    ensures x + s <= xFinal
    ensures s < h ==> x + s == xFinal
    ensures x + h <= xFinal ==> s == h
  {
    if x + h > xFinal then xFinal - x else h
  }

  /** x0 + n·h, as n repeated additions. */
  function Grid(x0: real, h: real, n: nat): real
  {
    if n == 0 then x0 else Grid(x0, h, n - 1) + h
  }

  lemma {:induction false} GridIsLinear(x0: real, h: real, n: nat)
    ensures Grid(x0, h, n) == x0 + (n as real) * h
  {
    if n > 0 {
      GridIsLinear(x0, h, n - 1);
      assert ((n - 1) as real) * h + h == (n as real) * h;
    }
  }

  /** With h > 0 the grid rises: a later index never gives a smaller point. */
  lemma {:induction false} GridRises(x0: real, h: real, m: nat, n: nat)
    requires 0.0 < h
    ensures m <= n ==> Grid(x0, h, m) <= Grid(x0, h, n)
    decreases n
  {
    if m < n {
      GridRises(x0, h, m, n - 1);
    }
  }

  /** A number of steps of size h after which the grid from x0 has reached xFinal. */
  function StepsNeeded(x0: real, h: real, xFinal: real): (n: nat)
    requires 0.0 < h
    ensures xFinal <= Grid(x0, h, n)
  {
    if xFinal <= x0 then 0
    else
      var t := (xFinal - x0) / h;
      var n := t.Floor + 1;
      GridIsLinear(x0, h, n);
      assert t * h == xFinal - x0;
      assert t <= n as real;
      assert t * h <= (n as real) * h;
      n
  }

  /**
   * Where the solver stands after k forward steps from x0: on the grid,
   * but never beyond xFinal.
   */
  function Reached(x0: real, h: real, xFinal: real, k: nat): real
  {
    if k == 0 then x0
    else if Grid(x0, h, k) < xFinal then Grid(x0, h, k)
    else xFinal
  }

  /** A step of size StepSize from the grid point k - 1 ends at the point reached after k steps. */
  lemma StepReaches(x0: real, h: real, xFinal: real, k: nat)
    requires 0.0 < h && 1 <= k && Grid(x0, h, k - 1) < xFinal
    ensures Reached(x0, h, xFinal, k - 1) == Grid(x0, h, k - 1)
    ensures Reached(x0, h, xFinal, k) == Grid(x0, h, k - 1) + StepSize(Grid(x0, h, k - 1), h, xFinal)
  {
  }

  // ---------------------------------------------------------------- Euler

  /** One recorded Euler row: the point, the slope there and the value it leads to. */
  datatype EulerStep = EulerStep(iteration: nat, x: real, y: real, fxy: real, yNew: real)

  /** The row an Euler iteration writes from (x, y) with step s. */
  function EulerOn(f: (real, real) -> real, iteration: nat, x: real, y: real, s: real): EulerStep
  {
    EulerStep(iteration, x, y, f(x, y), y + s * f(x, y))
  }

  /**
   * Row 0 is the initial condition; row k >= 1 is the iteration numbered k,
   * taken from x0 + (k - 1)·h, left of xFinal, with the value row k - 1
   * produced.
   */
  predicate EulerLink(f: (real, real) -> real, x0: real, y0: real, h: real, xFinal: real,
                      steps: seq<EulerStep>, k: nat)
    requires k < |steps|
  {
    if k == 0 then steps[0] == EulerStep(0, x0, y0, f(x0, y0), y0)
    else
      var x := Grid(x0, h, k - 1);
      && 0.0 < h && x < xFinal
      && steps[k] == EulerOn(f, k, x, steps[k - 1].yNew, StepSize(x, h, xFinal))
  }

  predicate IsEulerTrace(f: (real, real) -> real, x0: real, y0: real, h: real, xFinal: real,
                         steps: seq<EulerStep>)
  {
    forall k :: 0 <= k < |steps| ==> EulerLink(f, x0, y0, h, xFinal, steps, k)
  }

  /** The state the Euler loop keeps between iterations. */
  predicate EulerRun(f: (real, real) -> real, x0: real, y0: real, h: real, xFinal: real,
                     steps: seq<EulerStep>, x: real, y: real, step: real)
  {
    && 1 <= |steps| && 0.0 < h
    && IsEulerTrace(f, x0, y0, h, xFinal, steps)
    && y == Last(steps).yNew
    && (x == Grid(x0, h, |steps| - 1) || x == xFinal)
    && x <= Grid(x0, h, |steps| - 1)
    && (2 <= |steps| ==> x <= xFinal)
    && (x < xFinal ==> step == h)
    && (xFinal <= x0 ==> |steps| == 1 && x == x0)
  }

  /**
   * euler_method, for the positive step size its callers guarantee. The
   * initial condition is recorded as row 0; then rows are added while x is
   * left of xFinal, the last step shortened to land on xFinal. With
   * x0 >= xFinal nothing is stepped and the initial point is returned.
   */
  method Euler(f: (real, real) -> real, x0: real, y0: real, h: real, xFinal: real)
    returns (r: OdeResult<EulerStep>)
    requires 0.0 < h
    ensures r.success
    ensures IsEulerTrace(f, x0, y0, h, xFinal, r.steps)
    ensures 1 <= |r.steps| && r.finalY == Last(r.steps).yNew
    ensures r.finalX == Reached(x0, h, xFinal, |r.steps| - 1)
    ensures xFinal <= x0 ==> |r.steps| == 1 && r.finalX == x0
    ensures x0 < xFinal ==>
              && 2 <= |r.steps|
              && r.finalX == xFinal
              && Grid(x0, h, |r.steps| - 2) < xFinal <= Grid(x0, h, |r.steps| - 1)
  {
    var x, y := x0, y0;
    var steps := [EulerStep(0, x, y, f(x, y), y)];
    var step := h;
    var iteration := 1;
    ghost var budget := StepsNeeded(x0, h, xFinal);
    while x < xFinal
      invariant iteration == |steps|
      invariant EulerRun(f, x0, y0, h, xFinal, steps, x, y, step)
      invariant |steps| <= budget + 1
      decreases budget + 1 - |steps|
    {
      ghost var full := step;
      if x + step > xFinal {
        step := xFinal - x;
      }
      var row := EulerOn(f, iteration, x, y, step);
      var xNew, yNew := x + step, row.yNew;
      EulerAdvance(f, x0, y0, h, xFinal, steps, x, y, full, step, row, budget);
      steps := steps + [row];
      x, y := xNew, yNew;
      iteration := iteration + 1;
    }
    EulerFinish(f, x0, y0, h, xFinal, steps, x, y, step);
    return OdeResult(true, x, y, steps);
  }

  /** One pass of the Euler loop keeps its state and uses up one step of the budget. */
  lemma EulerAdvance(f: (real, real) -> real, x0: real, y0: real, h: real, xFinal: real,
                     steps: seq<EulerStep>, x: real, y: real, full: real, step: real, row: EulerStep, budget: nat)
    requires EulerRun(f, x0, y0, h, xFinal, steps, x, y, full) && x < xFinal
    requires step == (if x + full > xFinal then xFinal - x else full)
    requires row == EulerOn(f, |steps|, x, y, step)
    requires xFinal <= Grid(x0, h, budget)
    ensures EulerRun(f, x0, y0, h, xFinal, steps + [row], x + step, row.yNew, step)
    ensures |steps| <= budget
  {
    GridRises(x0, h, budget, |steps| - 1);
    ExtendEuler(f, x0, y0, h, xFinal, steps, row);
  }

  /** When the Euler loop ends it has landed on xFinal, or never moved. */
  lemma EulerFinish(f: (real, real) -> real, x0: real, y0: real, h: real, xFinal: real,
                    steps: seq<EulerStep>, x: real, y: real, step: real)
    requires EulerRun(f, x0, y0, h, xFinal, steps, x, y, step) && xFinal <= x
    ensures x == Reached(x0, h, xFinal, |steps| - 1)
    ensures xFinal <= x0 ==> |steps| == 1 && x == x0
    ensures x0 < xFinal ==>
              && 2 <= |steps|
              && x == xFinal
              && Grid(x0, h, |steps| - 2) < xFinal <= Grid(x0, h, |steps| - 1)
  {
    if x0 < xFinal {
      assert EulerLink(f, x0, y0, h, xFinal, steps, |steps| - 1);
    }
  }

  lemma ExtendEuler(f: (real, real) -> real, x0: real, y0: real, h: real, xFinal: real,
                    steps: seq<EulerStep>, row: EulerStep)
    requires IsEulerTrace(f, x0, y0, h, xFinal, steps)
    requires 1 <= |steps| && 0.0 < h
    requires Grid(x0, h, |steps| - 1) < xFinal
    requires row == EulerOn(f, |steps|, Grid(x0, h, |steps| - 1), Last(steps).yNew,
                            StepSize(Grid(x0, h, |steps| - 1), h, xFinal))
    ensures IsEulerTrace(f, x0, y0, h, xFinal, steps + [row])
  {
    var steps' := steps + [row];
    forall k | 0 <= k < |steps'|
      ensures EulerLink(f, x0, y0, h, xFinal, steps', k)
    {
      if k < |steps| {
        assert EulerLink(f, x0, y0, h, xFinal, steps, k);
      }
    }
  }

  /**
   * With a constant slope m Euler is exact: every row ends on the line
   * y0 + m·(x - x0), so the value returned is y0 + m·(xFinal - x0).
   */
  lemma {:induction false} EulerExactForConstantSlope(f: (real, real) -> real, m: real, x0: real, y0: real,
                                                      h: real, xFinal: real, steps: seq<EulerStep>, k: nat)
    requires forall x, y :: f(x, y) == m
    requires IsEulerTrace(f, x0, y0, h, xFinal, steps)
    requires k < |steps|
    ensures steps[k].yNew == y0 + m * (Reached(x0, h, xFinal, k) - x0)
  {
    assert EulerLink(f, x0, y0, h, xFinal, steps, k);
    if k > 0 {
      EulerExactForConstantSlope(f, m, x0, y0, h, xFinal, steps, k - 1);
      var g := Grid(x0, h, k - 1);
      StepReaches(x0, h, xFinal, k);
      var s := StepSize(g, h, xFinal);
      assert steps[k].yNew == steps[k - 1].yNew + s * m;
      assert m * (g - x0) + s * m == m * (g + s - x0);
    }
  }

  // ------------------------------------------------------------------ RK4

  /** One recorded RK4 row: the point, the four increments and the value they lead to. */
  datatype Rk4Step = Rk4Step(iteration: nat, x: real, y: real, k1: real, k2: real, k3: real, k4: real, yNew: real)

  /** The row an RK4 iteration writes from (x, y) with step s. */
  function Rk4On(f: (real, real) -> real, iteration: nat, x: real, y: real, s: real): Rk4Step
  {
    var k1 := s * f(x, y);
    var k2 := s * f(x + s / 2.0, y + k1 / 2.0);
    var k3 := s * f(x + s / 2.0, y + k2 / 2.0);
    var k4 := s * f(x + s, y + k3);
    Rk4Step(iteration, x, y, k1, k2, k3, k4, y + (k1 + 2.0 * k2 + 2.0 * k3 + k4) / 6.0)
  }

  /**
   * Row 0 is the initial condition with zero increments; row k >= 1 is the
   * iteration numbered k, taken from x0 + (k - 1)·h, left of xFinal, with
   * the value row k - 1 produced.
   */
  predicate Rk4Link(f: (real, real) -> real, x0: real, y0: real, h: real, xFinal: real,
                    steps: seq<Rk4Step>, k: nat)
    requires k < |steps|
  {
    if k == 0 then steps[0] == Rk4Step(0, x0, y0, 0.0, 0.0, 0.0, 0.0, y0)
    else
      var x := Grid(x0, h, k - 1);
      && 0.0 < h && x < xFinal
      && steps[k] == Rk4On(f, k, x, steps[k - 1].yNew, StepSize(x, h, xFinal))
  }

  predicate IsRk4Trace(f: (real, real) -> real, x0: real, y0: real, h: real, xFinal: real,
                       steps: seq<Rk4Step>)
  {
    forall k :: 0 <= k < |steps| ==> Rk4Link(f, x0, y0, h, xFinal, steps, k)
  }

  /** The state the RK4 loop keeps between iterations. */
  predicate Rk4Run(f: (real, real) -> real, x0: real, y0: real, h: real, xFinal: real,
                   steps: seq<Rk4Step>, x: real, y: real, step: real)
  {
    && 1 <= |steps| && 0.0 < h
    && IsRk4Trace(f, x0, y0, h, xFinal, steps)
    && y == Last(steps).yNew
    && (x == Grid(x0, h, |steps| - 1) || x == xFinal)
    && x <= Grid(x0, h, |steps| - 1)
    && (2 <= |steps| ==> x <= xFinal)
    && (x < xFinal ==> step == h)
    && (xFinal <= x0 ==> |steps| == 1 && x == x0)
  }

  /**
   * runge_kutta_method, for the positive step size its callers guarantee:
   * the same stepping as Euler, each row combining four slope samples.
   */
  method RungeKutta(f: (real, real) -> real, x0: real, y0: real, h: real, xFinal: real)
    returns (r: OdeResult<Rk4Step>)
    requires 0.0 < h
    ensures r.success
    ensures IsRk4Trace(f, x0, y0, h, xFinal, r.steps)
    ensures 1 <= |r.steps| && r.finalY == Last(r.steps).yNew
    ensures r.finalX == Reached(x0, h, xFinal, |r.steps| - 1)
    ensures xFinal <= x0 ==> |r.steps| == 1 && r.finalX == x0
    ensures x0 < xFinal ==>
              && 2 <= |r.steps|
              && r.finalX == xFinal
              && Grid(x0, h, |r.steps| - 2) < xFinal <= Grid(x0, h, |r.steps| - 1)
  {
    var x, y := x0, y0;
    var steps := [Rk4Step(0, x, y, 0.0, 0.0, 0.0, 0.0, y)];
    var step := h;
    var iteration := 1;
    ghost var budget := StepsNeeded(x0, h, xFinal);
    while x < xFinal
      invariant iteration == |steps|
      invariant Rk4Run(f, x0, y0, h, xFinal, steps, x, y, step)
      invariant |steps| <= budget + 1
      decreases budget + 1 - |steps|
    {
      ghost var full := step;
      if x + step > xFinal {
        step := xFinal - x;
      }
      var row := Rk4On(f, iteration, x, y, step);
      var xNew, yNew := x + step, row.yNew;
      Rk4Advance(f, x0, y0, h, xFinal, steps, x, y, full, step, row, budget);
      steps := steps + [row];
      x, y := xNew, yNew;
      iteration := iteration + 1;
    }
    Rk4Finish(f, x0, y0, h, xFinal, steps, x, y, step);
    return OdeResult(true, x, y, steps);
  }

  /** One pass of the RK4 loop keeps its state and uses up one step of the budget. */
  lemma Rk4Advance(f: (real, real) -> real, x0: real, y0: real, h: real, xFinal: real,
                   steps: seq<Rk4Step>, x: real, y: real, full: real, step: real, row: Rk4Step, budget: nat)
    requires Rk4Run(f, x0, y0, h, xFinal, steps, x, y, full) && x < xFinal
    requires step == (if x + full > xFinal then xFinal - x else full)
    requires row == Rk4On(f, |steps|, x, y, step)
    requires xFinal <= Grid(x0, h, budget)
    ensures Rk4Run(f, x0, y0, h, xFinal, steps + [row], x + step, row.yNew, step)
    ensures |steps| <= budget
  {
    GridRises(x0, h, budget, |steps| - 1);
    assert x == Grid(x0, h, |steps| - 1);
    assert step == StepSize(x, h, xFinal);
    ExtendRk4(f, x0, y0, h, xFinal, steps, row);
  }

  lemma ExtendRk4(f: (real, real) -> real, x0: real, y0: real, h: real, xFinal: real,
                  steps: seq<Rk4Step>, row: Rk4Step)
    requires IsRk4Trace(f, x0, y0, h, xFinal, steps)
    requires 1 <= |steps| && 0.0 < h
    requires Grid(x0, h, |steps| - 1) < xFinal
    requires row == Rk4On(f, |steps|, Grid(x0, h, |steps| - 1), Last(steps).yNew,
                          StepSize(Grid(x0, h, |steps| - 1), h, xFinal))
    ensures IsRk4Trace(f, x0, y0, h, xFinal, steps + [row])
  {
    var steps' := steps + [row];
    forall k | 0 <= k < |steps'|
      ensures Rk4Link(f, x0, y0, h, xFinal, steps', k)
    {
      if k < |steps| {
        assert Rk4Link(f, x0, y0, h, xFinal, steps, k);
      }
    }
  }

  /** When the RK4 loop ends it has landed on xFinal, or never moved. */
  lemma Rk4Finish(f: (real, real) -> real, x0: real, y0: real, h: real, xFinal: real,
                  steps: seq<Rk4Step>, x: real, y: real, step: real)
    requires Rk4Run(f, x0, y0, h, xFinal, steps, x, y, step) && xFinal <= x
    ensures x == Reached(x0, h, xFinal, |steps| - 1)
    ensures xFinal <= x0 ==> |steps| == 1 && x == x0
    ensures x0 < xFinal ==>
              && 2 <= |steps|
              && x == xFinal
              && Grid(x0, h, |steps| - 2) < xFinal <= Grid(x0, h, |steps| - 1)
  {
    if x0 < xFinal {
      assert Rk4Link(f, x0, y0, h, xFinal, steps, |steps| - 1);
    }
  }

  /** The exact solution of y' = p·x + q through (x0, y0). */
  function Parabola(p: real, q: real, x0: real, y0: real, x: real): real
  {
    y0 + p * (x * x - x0 * x0) / 2.0 + q * (x - x0)
  }

  /** One RK4 step on y' = p·x + q moves exactly along the parabola. */
  lemma Rk4StepOnParabola(f: (real, real) -> real, p: real, q: real, x0: real, y0: real,
                          iteration: nat, x: real, s: real)
    requires forall x, y :: f(x, y) == p * x + q
    ensures Rk4On(f, iteration, x, Parabola(p, q, x0, y0, x), s).yNew == Parabola(p, q, x0, y0, x + s)
  {
    var y := Parabola(p, q, x0, y0, x);
    var row := Rk4On(f, iteration, x, y, s);
    assert row.k1 == s * (p * x + q);
    assert row.k2 == s * (p * (x + s / 2.0) + q);
    assert row.k3 == s * (p * (x + s / 2.0) + q);
    assert row.k4 == s * (p * (x + s) + q);
    assert row.yNew == y + s * (p * x + q) + p * s * s / 2.0;
    assert (x + s) * (x + s) == x * x + 2.0 * x * s + s * s;
  }

  /**
   * RK4 is exact when the slope is affine in x (the solution a parabola):
   * every row ends on the exact solution, so the value returned is the
   * exact y(xFinal).
   */
  lemma {:induction false} Rk4ExactForAffineSlope(f: (real, real) -> real, p: real, q: real, x0: real, y0: real,
                                                  h: real, xFinal: real, steps: seq<Rk4Step>, k: nat)
    requires forall x, y :: f(x, y) == p * x + q
    requires IsRk4Trace(f, x0, y0, h, xFinal, steps)
    requires k < |steps|
    ensures steps[k].yNew == Parabola(p, q, x0, y0, Reached(x0, h, xFinal, k))
  {
    assert Rk4Link(f, x0, y0, h, xFinal, steps, k);
    if k > 0 {
      Rk4ExactForAffineSlope(f, p, q, x0, y0, h, xFinal, steps, k - 1);
      var g := Grid(x0, h, k - 1);
      StepReaches(x0, h, xFinal, k);
      Rk4StepOnParabola(f, p, q, x0, y0, k, g, StepSize(g, h, xFinal));
    }
  }
}
