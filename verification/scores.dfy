/** Search scores: the integers extended with the two infinities that the
    minimax search uses as the initial best value and as the initial
    alpha-beta window. */
module Scores {

  /** `NegInf` and `PosInf` stand for `float.NegativeInfinity` and
      `float.PositiveInfinity`; `Fin(n)` is a finite (scaled) score. */
  datatype Score = NegInf | Fin(n: int) | PosInf

  /** The order of the extended integers: -inf below every integer, +inf above. */
  predicate Le(a: Score, b: Score) {
    a.NegInf? || b.PosInf? || (a.Fin? && b.Fin? && a.n <= b.n)
  }

  predicate Lt(a: Score, b: Score) {
    !Le(b, a)
  }

  /** `Mathf.Max`: the larger argument (the second one on a tie). */
  function Max(a: Score, b: Score): (r: Score)
    ensures Le(a, r) && Le(b, r)
    ensures r == a || r == b
  {
    if Lt(b, a) then a else b
  }

  /** `Mathf.Min`: the smaller argument (the second one on a tie). */
  function Min(a: Score, b: Score): (r: Score)
    ensures Le(r, a) && Le(r, b)
    ensures r == a || r == b
  {
    if Lt(a, b) then a else b
  }

  /** `Le` is a total order. */
  lemma LeTotalOrder(a: Score, b: Score, c: Score)
    ensures Le(a, a)
    ensures Le(a, b) || Le(b, a)
    ensures Le(a, b) && Le(b, a) ==> a == b
    ensures Le(a, b) && Le(b, c) ==> Le(a, c)
  {
  }

  /** Fail-soft alpha-beta: a value strictly inside the window is returned
      exactly; a value at or below alpha is returned as something between
      it and alpha; a value at or above beta as something between beta and
      it. */
  ghost predicate Bounds(r: Score, v: Score, alpha: Score, beta: Score) {
    && (Lt(alpha, v) && Lt(v, beta) ==> r == v)
    && (Le(v, alpha) ==> Le(v, r) && Le(r, alpha))
    && (Le(beta, v) ==> Le(beta, r) && Le(r, v))
  }

  /** One step of the maximiser's loop that ends in a cutoff: the child's
      value reached beta, and so did the running best. */
  lemma MaxStepCutoff(best: Score, eval: Score, value: Score, rest: Score, alpha: Score, beta: Score)
    requires Lt(alpha, beta) && Le(best, alpha)
    requires Le(beta, Max(alpha, eval))
    ensures Bounds(eval, value, alpha, beta) ==> Bounds(Max(best, eval), Max(best, Max(value, rest)), alpha, beta)
  {
  }

  /** One step of the maximiser's loop that goes on with the raised alpha. */
  lemma MaxStepContinue(best: Score, eval: Score, value: Score, rest: Score, alpha: Score, beta: Score, r: Score)
    requires Lt(alpha, beta) && Le(best, alpha)
    requires !Le(beta, Max(alpha, eval))
    ensures Bounds(eval, value, alpha, beta) && Bounds(r, Max(Max(best, eval), rest), Max(alpha, eval), beta) ==>
      Bounds(r, Max(best, Max(value, rest)), alpha, beta)
  {
  }

  /** One step of the minimiser's loop that ends in a cutoff. */
  lemma MinStepCutoff(best: Score, eval: Score, value: Score, rest: Score, alpha: Score, beta: Score)
    requires Lt(alpha, beta) && Le(beta, best)
    requires Le(Min(beta, eval), alpha)
    ensures Bounds(eval, value, alpha, beta) ==> Bounds(Min(best, eval), Min(best, Min(value, rest)), alpha, beta)
  {
  }

  /** One step of the minimiser's loop that goes on with the lowered beta. */
  lemma MinStepContinue(best: Score, eval: Score, value: Score, rest: Score, alpha: Score, beta: Score, r: Score)
    requires Lt(alpha, beta) && Le(beta, best)
    requires !Le(Min(beta, eval), alpha)
    ensures Bounds(eval, value, alpha, beta) && Bounds(r, Min(Min(best, eval), rest), alpha, Min(beta, eval)) ==>
      Bounds(r, Min(best, Min(value, rest)), alpha, beta)
  {
  }
}
