/** The ECMAScript Number values the age calculator passes around: what `Number(text)`
    returns, and the product `age * 365`. Finite values are exact reals; IEEE-754 rounding is
    not modelled. */
module JsNumber {

  datatype Number = NaN | Finite(value: real) | Infinity(negative: bool)

  /** The flat approximation the calculator uses: every year has this many days. */
  const DaysPerYear: int := 365

  /** `n * k` for a positive integer factor `k`: NaN stays NaN, an infinity keeps its sign,
      a finite value is scaled. */
  function Times(n: Number, k: int): (r: Number)
    requires k > 0
    ensures r.NaN? <==> n.NaN?
    ensures r.Infinity? <==> n.Infinity?
    ensures n.Infinity? ==> r.negative == n.negative
    ensures n.Finite? ==> r.value == n.value * k as real
  {
    match n
    case NaN => NaN
    case Infinity(neg) => Infinity(neg)
    case Finite(x) => Finite(x * k as real)
  }

  /** Scaling by a positive factor loses nothing: the day count determines the age it came
      from, so two different ages never show the same number of days. */
  lemma TimesInjective(n: Number, m: Number, k: int)
    requires k > 0
    ensures Times(n, k) == Times(m, k) ==> n == m
  {
  }

  /** A finite day count has the sign of the age it came from, and is zero exactly when the
      age is. */
  lemma TimesKeepsSign(n: Number, k: int)
    requires k > 0 && n.Finite?
    ensures Times(n, k).value > 0.0 <==> n.value > 0.0
    ensures Times(n, k).value < 0.0 <==> n.value < 0.0
    ensures Times(n, k).value == 0.0 <==> n.value == 0.0
  {
  }
}
