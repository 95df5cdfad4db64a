/**
 * Search values of the alpha-beta engine. The engine seeds its bounds with
 * minus and plus infinity and otherwise handles integer heuristic scores;
 * the infinities are only ever compared and taken the minimum or maximum of,
 * so an integer extended by two sentinels models them exactly.
 */
module Scores {

  datatype Score = NegInf | Fin(n: int) | PosInf

  /** The order `a <= b` on extended integers. */
  predicate Le(a: Score, b: Score) {
    a.NegInf? || b.PosInf? || (a.Fin? && b.Fin? && a.n <= b.n)
  }

  /** The strict order `a < b`. */
  predicate Lt(a: Score, b: Score) {
    !Le(b, a)
  }

  /** `min(a, b)` as the engine calls it: `b` only when it is strictly smaller. */
  function Min(a: Score, b: Score): (m: Score)
    ensures Le(m, a) && Le(m, b)
    ensures m == a || m == b
  {
    if Lt(b, a) then b else a
  }

  /** `max(a, b)` as the engine calls it: `b` only when it is strictly larger. */
  function Max(a: Score, b: Score): (m: Score)
    ensures Le(a, m) && Le(b, m)
    ensures m == a || m == b
  {
    if Lt(a, b) then b else a
  }
}
