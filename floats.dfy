/** Single-precision values as the branch prior sees them.

    A value is a finite number, one of the two infinities, or not-a-number.
    Rounding, overflow and the sign of zero are not modelled: finite values
    are exact reals.  The operations follow IEEE 754 on the special values,
    which is what the prior relies on when a species branch has length zero
    (the species root usually does) and a rate or a midpoint becomes
    infinite or undefined. */
module Floats {

  datatype Float = Fin(val: real) | PosInf | NegInf | NaN

  /** The test `isinf(x) || isnan(x)` of the C library. */
  predicate IsInfOrNaN(x: Float) {
    !x.Fin?
  }

  function Neg(x: Float): Float {
    match x
    case Fin(v) => Fin(-v)
    case PosInf => NegInf
    case NegInf => PosInf
    case NaN => NaN
  }

  function Add(x: Float, y: Float): Float {
    if x.NaN? || y.NaN? then NaN
    else if x.Fin? && y.Fin? then Fin(x.val + y.val)
    else if (x.PosInf? && y.NegInf?) || (x.NegInf? && y.PosInf?) then NaN
    else if x.PosInf? || y.PosInf? then PosInf
    else NegInf
  }

  function Sub(x: Float, y: Float): Float {
    Add(x, Neg(y))
  }

  /** The sign of a non-NaN value: -1, 0 or 1. */
  function Sign(x: Float): int
    requires !x.NaN?
  {
    match x
    case Fin(v) => if v < 0.0 then -1 else if v == 0.0 then 0 else 1
    case PosInf => 1
    case NegInf => -1
  }

  function Infinity(sign: int): Float {
    if sign < 0 then NegInf else PosInf
  }

  function Mul(x: Float, y: Float): Float {
    if x.NaN? || y.NaN? then NaN
    else if x.Fin? && y.Fin? then Fin(x.val * y.val)
    else if Sign(x) == 0 || Sign(y) == 0 then NaN
    else Infinity(Sign(x) * Sign(y))
  }

  function Div(x: Float, y: Float): Float {
    if x.NaN? || y.NaN? then NaN
    else if x.Fin? && y.Fin? then
      if y.val != 0.0 then Fin(x.val / y.val)
      else if x.val == 0.0 then NaN
      else Infinity(Sign(x))
    else if x.Fin? then Fin(0.0)
    else if !y.Fin? then NaN
    else if y.val < 0.0 then Neg(x)
    else x
  }

  /** `x < y`; every comparison with NaN is false. */
  predicate Lt(x: Float, y: Float) {
    if x.NaN? || y.NaN? then false
    else if x.Fin? && y.Fin? then x.val < y.val
    else (x.NegInf? && !y.NegInf?) || (y.PosInf? && !x.PosInf?)
  }

  /** Left-to-right sum, the order in which an accumulating loop adds. */
  function Sum(s: seq<Float>): Float {
    if s == [] then Fin(0.0) else Add(Sum(s[..|s| - 1]), s[|s| - 1])
  }

  /** Adding one more value to the end of the list adds it to the sum. */
  lemma SumAppend(s: seq<Float>, x: Float)
    ensures Sum(s + [x]) == Add(Sum(s), x)
  {
    assert (s + [x])[..|s|] == s;
  }

  /** A sum of values none of which is NaN or positive infinity is never NaN:
      it is either finite or negative infinity. */
  lemma {:induction false} SumWithoutNaNOrPosInf(s: seq<Float>)
    requires forall k :: 0 <= k < |s| ==> !s[k].NaN? && !s[k].PosInf?
    ensures !Sum(s).NaN? && !Sum(s).PosInf?
    ensures Sum(s).NegInf? <==> exists k :: 0 <= k < |s| && s[k].NegInf?
  {
    if s != [] {
      SumWithoutNaNOrPosInf(s[..|s| - 1]);
      assert forall k :: 0 <= k < |s| - 1 ==> s[..|s| - 1][k] == s[k];
      if Sum(s[..|s| - 1]).NegInf? {
        var k :| 0 <= k < |s| - 1 && s[..|s| - 1][k].NegInf?;
        assert s[k].NegInf?;
      }
    }
  }
}
