/**
 * `_smallest_positive_real_root` and the way the Allan deviation analysis
 * chains it: the roots of a fitted polynomial come in as complex numbers,
 * and a result of NaN is `None`.
 */
module RootSelection {
  import opened Wrappers
  import opened Sorting

  /** A root as numpy returns it. */
  datatype Complex = Complex(re: real, im: real)

  /** The upper bound every Allan stage uses (`max_val=5`). */
  const ALLAN_MAX: real := 5.0

  /**
   * `np.isreal(z) and np.real(z) > min_val`: the imaginary part is exactly
   * zero and the real part exceeds the bound (every comparison with a NaN
   * bound is false).
   */
  predicate Qualifies(z: Complex, minVal: Option<real>)
  {
    z.im == 0.0 && minVal.Some? && z.re > minVal.value
  }

  /** `np.real(roots[cond])`: the real parts of the qualifying roots, in order. */
  function RealPartsAbove(roots: seq<Complex>, minVal: Option<real>): (r: seq<real>)
    ensures forall x :: x in r <==> exists z :: z in roots && Qualifies(z, minVal) && z.re == x
    ensures r == [] <==> forall z :: z in roots ==> !Qualifies(z, minVal)
  {
    if roots == [] then []
    else
      var rest := RealPartsAbove(roots[1..], minVal);
      assert forall z :: z in roots <==> z == roots[0] || z in roots[1..];
      if Qualifies(roots[0], minVal) then [roots[0].re] + rest else rest
  }

  /** `_smallest_positive_real_root(roots, min_val, max_val)`. */
  function SmallestPositiveRealRoot(roots: seq<Complex>, minVal: Option<real>, maxVal: real): Option<real>
  {
    var res :=
      if |roots| > 0 then
        var posreal := Sort(RealPartsAbove(roots, minVal), RealLe);
        if |posreal| > 0 then posreal[0] else 0.0
      else 0.0;
    if (minVal.Some? && res < minVal.value) || res > maxVal then None else Some(res)
  }

  /** Some root qualifies. */
  ghost predicate AnyQualifies(roots: seq<Complex>, minVal: Option<real>)
  {
    exists z :: z in roots && Qualifies(z, minVal)
  }

  /** `x` is the least real part among the qualifying roots. */
  ghost predicate IsLeastQualifying(roots: seq<Complex>, minVal: Option<real>, x: real)
  {
    && (exists z :: z in roots && Qualifies(z, minVal) && z.re == x)
    && (forall z :: z in roots && Qualifies(z, minVal) ==> x <= z.re)
  }

  /**
   * When some root is real and above the lower bound, the result is the
   * least such real part if it is at most the upper bound, and NaN if it
   * lies above it.
   */
  lemma SmallestRootFound(roots: seq<Complex>, minVal: Option<real>, maxVal: real)
    requires AnyQualifies(roots, minVal)
    ensures exists x :: IsLeastQualifying(roots, minVal, x)
    ensures forall x :: IsLeastQualifying(roots, minVal, x) ==>
      SmallestPositiveRealRoot(roots, minVal, maxVal) == if x <= maxVal then Some(x) else None
  {
    RealLeIsTotalPreorder();
    var parts := RealPartsAbove(roots, minVal);
    var z :| z in roots && Qualifies(z, minVal);
    assert z.re in parts;
    SortedHeadIsLeast(parts, RealLe);
    var head := Sort(parts, RealLe)[0];
    assert IsLeastQualifying(roots, minVal, head) by {
      forall w | w in roots && Qualifies(w, minVal)
        ensures head <= w.re
      {
        assert w.re in parts;
      }
    }
    forall x | IsLeastQualifying(roots, minVal, x)
      ensures SmallestPositiveRealRoot(roots, minVal, maxVal) == if x <= maxVal then Some(x) else None
    {
      var w :| w in roots && Qualifies(w, minVal) && w.re == x;
      var v :| v in roots && Qualifies(v, minVal) && v.re == head;
      assert x == head;
    }
  }

  /**
   * When no root qualifies, the result is `0` if `0` lies between the
   * bounds (a NaN lower bound counts as no bound, since `0 < nan` is
   * false), and NaN otherwise.
   */
  lemma SmallestRootDefault(roots: seq<Complex>, minVal: Option<real>, maxVal: real)
    requires !AnyQualifies(roots, minVal)
    ensures SmallestPositiveRealRoot(roots, minVal, maxVal) ==
      if (minVal.None? || minVal.value <= 0.0) && 0.0 <= maxVal then Some(0.0) else None
  {
    RealLeIsTotalPreorder();
    var parts := RealPartsAbove(roots, minVal);
    assert |Sort(parts, RealLe)| == |multiset(parts)| == 0;
  }

  /**
   * A defined result lies within the bounds; it is either `0` or the real
   * part of a qualifying root, and in the latter case it lies strictly
   * above a lower bound that is itself defined.
   */
  lemma SmallestRootBounds(roots: seq<Complex>, minVal: Option<real>, maxVal: real)
    ensures SmallestPositiveRealRoot(roots, minVal, maxVal).Some? ==>
      && SmallestPositiveRealRoot(roots, minVal, maxVal).value <= maxVal
      && (minVal.Some? ==> minVal.value <= SmallestPositiveRealRoot(roots, minVal, maxVal).value)
    ensures SmallestPositiveRealRoot(roots, minVal, maxVal).Some? &&
            SmallestPositiveRealRoot(roots, minVal, maxVal).value != 0.0 ==>
      && minVal.Some?
      && minVal.value < SmallestPositiveRealRoot(roots, minVal, maxVal).value
      && exists z :: z in roots && Qualifies(z, minVal) && z.re == SmallestPositiveRealRoot(roots, minVal, maxVal).value
  {
    if AnyQualifies(roots, minVal) {
      SmallestRootFound(roots, minVal, maxVal);
    } else {
      SmallestRootDefault(roots, minVal, maxVal);
    }
  }

  /**
   * `log_tau_0`, `log_tau_1` and `log_tau_2` of the Allan analysis from the
   * roots of `p' + 1/2`, `p'` and `p' - 1/2`: each stage searches above the
   * previous stage's result, and all of them below `5`.
   */
  function AllanLogTaus(rootsRw: seq<Complex>, rootsBi: seq<Complex>, rootsRrw: seq<Complex>)
    : (Option<real>, Option<real>, Option<real>)
  {
    var tau0 := SmallestPositiveRealRoot(rootsRw, Some(0.0), ALLAN_MAX);
    var tau1 := SmallestPositiveRealRoot(rootsBi, tau0, ALLAN_MAX);
    var tau2 := SmallestPositiveRealRoot(rootsRrw, tau1, ALLAN_MAX);
    (tau0, tau1, tau2)
  }

  /** One link of the chain: what a stage returns given the previous stage's result. */
  lemma ChainLink(prev: Option<real>, roots: seq<Complex>)
    requires prev.Some? ==> 0.0 <= prev.value
    ensures prev.None? ==> SmallestPositiveRealRoot(roots, prev, ALLAN_MAX) == Some(0.0)
    ensures SmallestPositiveRealRoot(roots, prev, ALLAN_MAX).Some? ==>
      0.0 <= SmallestPositiveRealRoot(roots, prev, ALLAN_MAX).value <= ALLAN_MAX
    ensures prev.Some? && SmallestPositiveRealRoot(roots, prev, ALLAN_MAX).Some? ==>
      prev.value <= SmallestPositiveRealRoot(roots, prev, ALLAN_MAX).value
    ensures SmallestPositiveRealRoot(roots, prev, ALLAN_MAX).Some? &&
            SmallestPositiveRealRoot(roots, prev, ALLAN_MAX).value != 0.0 ==>
      prev.Some? && prev.value < SmallestPositiveRealRoot(roots, prev, ALLAN_MAX).value
  {
    SmallestRootBounds(roots, prev, ALLAN_MAX);
    if prev.None? {
      SmallestRootDefault(roots, prev, ALLAN_MAX);
    }
  }

  /**
   * Every defined `log_tau` lies in `[0, 5]` and none is below a defined
   * predecessor; a nonzero one was taken from its roots and lies strictly
   * above a defined predecessor; and a stage after a NaN stage returns `0`.
   */
  lemma AllanChain(rootsRw: seq<Complex>, rootsBi: seq<Complex>, rootsRrw: seq<Complex>)
    ensures var (t0, t1, t2) := AllanLogTaus(rootsRw, rootsBi, rootsRrw);
      && (t0.Some? ==> 0.0 <= t0.value <= ALLAN_MAX)
      && (t1.Some? ==> 0.0 <= t1.value <= ALLAN_MAX)
      && (t2.Some? ==> 0.0 <= t2.value <= ALLAN_MAX)
      && (t0.Some? && t1.Some? ==> t0.value <= t1.value)
      && (t1.Some? && t2.Some? ==> t1.value <= t2.value)
      && (t1.Some? && t1.value != 0.0 ==> t0.Some? && t0.value < t1.value)
      && (t2.Some? && t2.value != 0.0 ==> t1.Some? && t1.value < t2.value)
      && (t0.None? ==> t1 == Some(0.0))
      && (t1.None? ==> t2 == Some(0.0))
  {
    var (t0, t1, t2) := AllanLogTaus(rootsRw, rootsBi, rootsRrw);
    ChainLink(Some(0.0), rootsRw);
    ChainLink(t0, rootsBi);
    ChainLink(t1, rootsRrw);
  }
}
