/** IEEE doubles as ordered values plus NaN; rounding is not modelled. */
module Doubles {

  datatype Double = NaN | NegInf | Finite(v: real) | PosInf

  /** kZeroThreshold: the float nearest 1e-35, that is 13937966 / 2^140. */
  const K_ZERO_THRESHOLD: real := 13937966.0 / 1393796574908163946345982392040522594123776.0

  /** Of the floats near 1e-35, the multiples of 2^-140, none is nearer to it than the threshold. */
  lemma ThresholdIsNearest(n: int)
    ensures var ulp := 1.0 / 1393796574908163946345982392040522594123776.0;
            var goal := 1.0 / 100000000000000000000000000000000000.0;
            K_ZERO_THRESHOLD > goal
            && (goal - n as real * ulp >= K_ZERO_THRESHOLD - goal || n as real * ulp - goal >= K_ZERO_THRESHOLD - goal)
  {
    assert n <= 13937965 || n >= 13937966;
  }

  /** IEEE `a <= b`: false as soon as one side is NaN. */
  predicate Le(a: Double, b: Double) {
    !a.NaN? && !b.NaN? && (a.NegInf? || b.PosInf? || (a.Finite? && b.Finite? && a.v <= b.v))
  }

  /** IEEE `a < b`. */
  predicate Lt(a: Double, b: Double) {
    Le(a, b) && a != b
  }

  /** IEEE `a == b`: NaN equals nothing, itself included. */
  predicate Eq(a: Double, b: Double) {
    !a.NaN? && a == b
  }

  /** The filter `fabs(x) > kZeroThreshold || isnan(x)`. */
  predicate Passes(x: Double) {
    x.Finite? ==> x.v > K_ZERO_THRESHOLD || -x.v > K_ZERO_THRESHOLD
  }

  /** The order of the numbers is that of the reals, between the infinities; NaN stands in no relation. */
  lemma OrderIsReal(a: Double, b: Double)
    ensures a.NaN? || b.NaN? ==> !Le(a, b) && !Lt(a, b) && !Eq(a, b)
    ensures !a.NaN? && !b.NaN? ==> (Le(a, b) <==> Lt(a, b) || Eq(a, b)) && (Lt(a, b) || Eq(a, b) || Lt(b, a))
    ensures a.Finite? && b.Finite? ==> (Lt(a, b) <==> a.v < b.v) && (Eq(a, b) <==> a.v == b.v)
    ensures a.Finite? ==> Lt(NegInf, a) && Lt(a, PosInf)
    ensures !Lt(a, a) && Lt(NegInf, PosInf)
  {
  }

  /** The filter keeps NaN, the infinities, and the numbers farther from zero than the threshold. */
  lemma PassesIff(x: Double)
    ensures x.NaN? || x == PosInf || x == NegInf ==> Passes(x)
    ensures x.Finite? ==> (Passes(x) <==> (if x.v >= 0.0 then x.v else -x.v) > K_ZERO_THRESHOLD)
  {
  }
}
