/**
 * The evaluation loop of `interpolate_polynomial` in workshop07/interpolate.py.
 *
 * The docstring promises y = p[0] + p[1]*x + p[2]*x^2 + ... at every sample
 * point. The loop writes `y =+ p_i * x**power`, which Python reads as
 * `y = +(p_i * x**power)`: each step replaces y instead of adding to it, so
 * only the last term survives. Both the loop as written and the running sum
 * the docstring describes are modelled here, over exact real numbers.
 */
module Interpolate {

  /** t^k, with t^0 == 1 also for t == 0, as for `x**0`. */
  function Pow(t: real, k: nat): real
  {
    if k == 0 then 1.0 else t * Pow(t, k - 1)
  }

  /** p[0] + p[1]*t + ... + p[k-1]*t^(k-1): the first k terms. */
  function PartialSum(p: seq<real>, t: real, k: nat): real
    requires k <= |p|
  {
    if k == 0 then 0.0 else PartialSum(p, t, k - 1) + p[k - 1] * Pow(t, k - 1)
  }

  /** The value the docstring promises at t: the sum of every term. */
  function PolyValue(p: seq<real>, t: real): real
  {
    PartialSum(p, t, |p|)
  }

  /** The value the loop as written leaves at t: zero, or the last term alone. */
  function AsWrittenAt(p: seq<real>, t: real): real
  {
    if |p| == 0 then 0.0 else p[|p| - 1] * Pow(t, |p| - 1)
  }

  /**
   * Lines 20-24 as written: `y` starts as zeros shaped like `x`, then every
   * coefficient overwrites it with its own term.
   */
  method EvaluateAsWritten(x: seq<real>, p: seq<real>) returns (y: seq<real>)
    ensures |y| == |x|
    ensures |p| == 0 ==> forall j :: 0 <= j < |x| ==> y[j] == 0.0
    ensures |p| > 0 ==> forall j :: 0 <= j < |x| ==> y[j] == p[|p| - 1] * Pow(x[j], |p| - 1)
    ensures forall j :: 0 <= j < |x| ==> y[j] == AsWrittenAt(p, x[j])
  {
    y := seq(|x|, _ => 0.0);
    for power := 0 to |p|
      invariant |y| == |x|
      invariant power == 0 ==> forall j :: 0 <= j < |x| ==> y[j] == 0.0
      invariant power > 0 ==> forall j :: 0 <= j < |x| ==> y[j] == p[power - 1] * Pow(x[j], power - 1)
    {
      var pi := p[power];
      // `y =+ e` is `y = +e`: the new array replaces y
      y := seq(|x|, j requires 0 <= j < |x| => pi * Pow(x[j], power));
    }
  }

  /** Lines 20-24 with the accumulation the docstring intends: `y += p_i * x**power`. */
  method EvaluateIntended(x: seq<real>, p: seq<real>) returns (y: seq<real>)
    ensures |y| == |x|
    ensures forall j :: 0 <= j < |x| ==> y[j] == PolyValue(p, x[j])
  {
    y := seq(|x|, _ => 0.0);
    for power := 0 to |p|
      invariant |y| == |x|
      invariant forall j :: 0 <= j < |x| ==> y[j] == PartialSum(p, x[j], power)
    {
      var pi := p[power];
      y := seq(|x|, j requires 0 <= j < |x| && |y| == |x| => y[j] + pi * Pow(x[j], power));
    }
  }

  /** With a single coefficient c both give the constant c. */
  lemma SingleCoefficientAgrees(c: real, t: real)
    ensures AsWrittenAt([c], t) == PolyValue([c], t) == c
  {
    assert PartialSum([c], t, 0) == 0.0;
  }

  /**
   * The loop as written and the docstring agree at t exactly when the terms
   * before the last one sum to zero there; the loop drops exactly that sum.
   */
  lemma AsWrittenAgreesIff(p: seq<real>, t: real)
    requires |p| > 0
    ensures PolyValue(p, t) == PartialSum(p, t, |p| - 1) + AsWrittenAt(p, t)
    ensures AsWrittenAt(p, t) == PolyValue(p, t) <==> PartialSum(p, t, |p| - 1) == 0.0
  {
  }

  /** `n` zero coefficients. */
  function Zeros(n: nat): (z: seq<real>)
    ensures |z| == n && forall k :: 0 <= k < n ==> z[k] == 0.0
  {
    seq(n, _ => 0.0)
  }

  /** Any prefix of an all-zero coefficient list sums to zero. */
  lemma {:induction false} ZeroTermsSumToZero(p: seq<real>, t: real, k: nat)
    requires k <= |p|
    requires forall i :: 0 <= i < k ==> p[i] == 0.0
    ensures PartialSum(p, t, k) == 0.0
  {
    if k > 0 {
      ZeroTermsSumToZero(p, t, k - 1);
    }
  }

  /**
   * The loop as written evaluates, in the docstring's sense, the polynomial
   * whose only non-zero coefficient is the last one of p.
   */
  lemma AsWrittenIsLeadingTermOnly(p: seq<real>, t: real)
    requires |p| > 0
    ensures AsWrittenAt(p, t) == PolyValue(Zeros(|p| - 1) + [p[|p| - 1]], t)
  {
    var q := Zeros(|p| - 1) + [p[|p| - 1]];
    ZeroTermsSumToZero(q, t, |p| - 1);
  }

  /**
   * The script's own polynomial 20 + 2x^2, p = [20, 0, 2], at the three x
   * values it scatter-plots, 0, 5 and 10: the loop gives 0, 50 and 200 there,
   * where the title of the plot promises 20, 70 and 220.
   */
  lemma ScriptPolynomialDisagrees()
    ensures AsWrittenAt([20.0, 0.0, 2.0], 0.0) == 0.0 && PolyValue([20.0, 0.0, 2.0], 0.0) == 20.0
    ensures AsWrittenAt([20.0, 0.0, 2.0], 5.0) == 50.0 && PolyValue([20.0, 0.0, 2.0], 5.0) == 70.0
    ensures AsWrittenAt([20.0, 0.0, 2.0], 10.0) == 200.0 && PolyValue([20.0, 0.0, 2.0], 10.0) == 220.0
  {
    var p := [20.0, 0.0, 2.0];
    forall t: real ensures PolyValue(p, t) == 20.0 + 2.0 * t * t {
      assert PartialSum(p, t, 1) == 20.0;
      assert PartialSum(p, t, 2) == 20.0;
    }
  }
}
