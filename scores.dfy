/**
 * Search scores. The engine mixes integer evaluations with the float sentinels
 * `float('-inf')` and `float('inf')`; every finite score is an integer, so a
 * score is an integer extended with the two infinities.
 */
module Scores {

  datatype Score = NegInf | Fin(n: int) | PosInf {

    /** Strict order: NegInf < every Fin < PosInf. */
    predicate Lt(other: Score) {
      match this
      case NegInf => !other.NegInf?
      case Fin(a) => other.PosInf? || (other.Fin? && a < other.n)
      case PosInf => false
    }

    predicate Le(other: Score) {
      this == other || Lt(other)
    }
  }

  /** Python's `max(a, b)`: the first argument unless the second is strictly larger. */
  function Max(a: Score, b: Score): (r: Score)
    ensures r == a || r == b
    ensures a.Le(r) && b.Le(r)
  {
    if a.Lt(b) then b else a
  }

  /** Python's `min(a, b)`: the first argument unless the second is strictly smaller. */
  function Min(a: Score, b: Score): (r: Score)
    ensures r == a || r == b
    ensures r.Le(a) && r.Le(b)
  {
    if b.Lt(a) then b else a
  }
}
