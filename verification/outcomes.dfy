/**
 * Values shared by every solver: optional values, the Python exceptions the
 * solvers raise on degenerate input, and costs extended with infinity.
 */
module Outcomes {

  datatype Option<+T> = None | Some(value: T)

  /** The exception the source raises; each is an ordinary, inspectable outcome here. */
  datatype Failure =
    | IndexError          // indexing or `random.choice` on an empty list
    | ValueError          // `min` over an empty sequence
    | ZeroDivisionError   // a division by a temperature of zero

  datatype Result<+T> = Ok(value: T) | Err(error: Failure)

  /**
   * An integer cost or positive infinity, compared and added the way Python
   * compares and adds `math.inf` / `np.inf` against integers.
   */
  datatype Ext = Fin(v: int) | Inf {

    /** Python's `<`: nothing is below itself, and infinity is below nothing. */
    predicate Less(other: Ext) {
      match (this, other)
      case (Fin(a), Fin(b)) => a < b
      case (Fin(_), Inf) => true
      case (Inf, _) => false
    }

    predicate AtMost(other: Ext) {
      !other.Less(this)
    }

    function Plus(other: Ext): Ext {
      match (this, other)
      case (Fin(a), Fin(b)) => Fin(a + b)
      case _ => Inf
    }

    /** `this - k`; infinity minus a number stays infinite. */
    function Minus(k: int): Ext {
      match this
      case Fin(a) => Fin(a - k)
      case Inf => Inf
    }

    function Twice(): Ext {
      match this
      case Fin(a) => Fin(2 * a)
      case Inf => Inf
    }
  }

  /** The tuple a heuristic solver hands back: the route and what it costs. */
  datatype Tour = Tour(route: seq<int>, cost: int)
}
