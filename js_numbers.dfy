/** JavaScript Number values, as far as the Random node looks at them.
    A finite Number is abstracted to the exact real it denotes (no IEEE-754
    rounding); the three non-finite values are kept apart because the
    relational operators treat them differently. */
module JsNumbers {

  datatype JsNumber = Finite(value: real) | PositiveInfinity | NegativeInfinity | NaN

  /** The Number denoting the integer k. */
  function FromInt(k: int): JsNumber
  {
    Finite(k as real)
  }

  /** `a >= b` on two Numbers: the negation of ECMA-262's IsLessThan(a, b),
      except that it is false whenever either operand is NaN. +Infinity is at
      least every other Number but NaN, and -Infinity is at least only itself. */
  function AtLeast(a: JsNumber, b: JsNumber): (r: bool)
    ensures r ==> !a.NaN? && !b.NaN?
    ensures a.Finite? && b.Finite? ==> (r <==> a.value >= b.value)
    ensures !a.NaN? && !b.NaN? && (a.PositiveInfinity? || b.NegativeInfinity?) ==> r
    ensures (a.NegativeInfinity? && !b.NegativeInfinity?) || (b.PositiveInfinity? && !a.PositiveInfinity?) ==> !r
  {
    !a.NaN? && !b.NaN? &&
    (a.PositiveInfinity? || b.NegativeInfinity? || (a.Finite? && b.Finite? && a.value >= b.value))
  }

  /** Apart from NaN, `>=` is a total order on Numbers: any two are comparable,
      and two that are each at least the other are the same Number. */
  lemma AtLeastTotalOrder(a: JsNumber, b: JsNumber, c: JsNumber)
    ensures !a.NaN? && !b.NaN? ==> AtLeast(a, b) || AtLeast(b, a)
    ensures AtLeast(a, b) && AtLeast(b, a) ==> a == b
    ensures AtLeast(a, b) && AtLeast(b, c) ==> AtLeast(a, c)
  {
  }
}
