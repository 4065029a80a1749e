/** Distances of the Bellman-Ford search and the strict relaxation test.
    Weights are integers in thousandths of a log-unit, so the rounding to
    three decimals that the dictionary variants apply is the identity here. */
module Weights {

  /** A tentative distance: unreached (infinity) or a finite weight sum. */
  datatype Dist = Inf | Fin(v: int)

  /** `d + w`; infinity absorbs any finite weight. */
  function Add(d: Dist, w: int): (r: Dist)
    ensures r.Inf? <==> d.Inf?
    ensures d.Fin? ==> r.v - d.v == w
  {
    match d
    case Inf => Inf
    case Fin(x) => Fin(x + w)
  }

  /** `a <= b` with infinity as the top element. */
  predicate Le(a: Dist, b: Dist) {
    b.Inf? || (a.Fin? && a.v <= b.v)
  }

  /** `a < b` with infinity as the top element (so `Inf < Inf` is false). */
  predicate Lt(a: Dist, b: Dist) {
    a.Fin? && (b.Inf? || a.v < b.v)
  }

  /** The edge test shared by every variant: `d[u] + w < d[v]`, strict,
      and never true when `d[u]` is infinite. */
  predicate Relaxable(du: Dist, w: int, dv: Dist) {
    Lt(Add(du, w), dv)
  }
}
