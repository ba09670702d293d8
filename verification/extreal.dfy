/**
 * Reals extended with the two infinities that the search uses as the initial
 * alpha-beta window and as the initial best score.
 */
module ExtendedReal {

  datatype ExtReal = NegInf | Fin(val: real) | PosInf

  /** `a <= b` in the extended order. */
  predicate Le(a: ExtReal, b: ExtReal) {
    a.NegInf? || b.PosInf? || (a.Fin? && b.Fin? && a.val <= b.val)
  }

  /** `a < b` in the extended order. */
  predicate Lt(a: ExtReal, b: ExtReal) {
    !Le(b, a)
  }

  /** Java's `Math.max` on the window bounds. */
  function Max(a: ExtReal, b: ExtReal): (r: ExtReal)
    ensures Le(a, r) && Le(b, r)
    ensures r == a || r == b
  {
    if Le(a, b) then b else a
  }

  /** Java's `Math.min` on the window bounds. */
  function Min(a: ExtReal, b: ExtReal): (r: ExtReal)
    ensures Le(r, a) && Le(r, b)
    ensures r == a || r == b
  {
    if Le(a, b) then a else b
  }

  /** A finite score in [-1, 1], the range of every utility the search produces. */
  predicate InUnit(x: ExtReal) {
    x.Fin? && -1.0 <= x.val <= 1.0
  }
}
