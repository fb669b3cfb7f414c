/**
 * Records shared by the four numerical drivers: the optional value, the
 * failure reasons of the root finders, and the result records.
 */
module Results {

  datatype Option<T> = None | Some(value: T)

  function Abs(x: real): (r: real)
    ensures 0.0 <= r
    ensures r == x || r == -x
  {
    if x < 0.0 then -x else x
  }

  function Last<T>(s: seq<T>): T
    requires |s| > 0
  {
    s[|s| - 1]
  }

  /** Why a root finder gave up, with the message the program shows. */
  datatype Failure = NoSignChange | MaxIterationsReached | DerivativeTooSmall
  {
    function Message(): string
    {
      match this
      case NoSignChange => "No hay cambio de signo en el intervalo dado"
      case MaxIterationsReached => "Máximo número de iteraciones alcanzado"
      case DerivativeTooSmall => "Derivada muy pequeña, posible división por cero"
    }
  }

  /**
   * Outcome of bisection or Newton-Raphson. A converged run carries the
   * root, the iteration count and the last error; a failed run carries
   * the reason and, where the program reports one, the last estimate.
   * Both carry the step trace.
   */
  datatype RootResult<S> =
    | Converged(root: real, iterations: nat, finalError: real, steps: seq<S>)
    | Failed(failure: Failure, steps: seq<S>, result: Option<real>)
  {
    predicate Success()
    {
      Converged?
    }
  }

  /** Outcome of Euler or RK4: the point reached and the step trace. */
  datatype OdeResult<S> = OdeResult(success: bool, finalX: real, finalY: real, steps: seq<S>)
}
