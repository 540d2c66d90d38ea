/** Vertical interpolation between elevation classes (slib/icebin/IceRegridder_L0.cpp). */
module VerticalInterp {
  import opened Wrappers
  import opened Vectors

  ghost predicate StrictlyAscending(xs: seq<real>)
  {
    forall j, k :: 0 <= j < k < |xs| ==> xs[j] < xs[k]
  }

  /** std::lower_bound on an ascending sequence. */
  function LowerBound(xs: seq<real>, x: real): (r: nat)
    ensures r <= |xs| && (forall k :: 0 <= k < r ==> xs[k] < x) && (r < |xs| ==> xs[r] >= x)
  {
    if |xs| == 0 || xs[0] >= x then 0 else 1 + LowerBound(xs[1..], x)
  }

  /** Weights w0 and w1 of the classes i1 - 1 and i1. */
  datatype Bracket = Bracket(i1: nat, w0: real, w1: real)

  function Distance(x: real, y: real): real
  {
    if x < y then y - x else x - y
  }

  lemma RatioScales(u: real, d: real)
    requires u > 0.0
    ensures Prod(u, d / u) == d
  {
  }

  function Ratio(a: real, b: real, x: real): real
    requires a < b
  {
    (x - a) / (b - a)
  }

  lemma LinearWeights(a: real, b: real, x: real)
    requires a < b
    ensures Prod(1.0 - Ratio(a, b, x), a) + Prod(Ratio(a, b, x), b) == x
    ensures Ratio(a, b, x) >= 0.0 <==> a <= x
    ensures 1.0 - Ratio(a, b, x) >= 0.0 <==> x <= b
  {
    hide Prod;
    var u, r := b - a, Ratio(a, b, x);
    RatioScales(u, x - a);
    ScaledSign(u, r);
    ScaledSign(u, 1.0 - r);
    ProdPlus(u, 1.0 - r, r);
    ProdPlus(a, 1.0 - r, r);
    ProdPlus(r, a, u);
    ProdComm(u, r);
    ProdConst(u);
    ProdConst(a);
  }

  /**
   Linear interpolation at x; None where the source reports an elevation out of bounds.  Below the first class
   it extrapolates, and only then is a weight negative.
   */
  function Linterp(xs: seq<real>, x: real): (r: Option<Bracket>)
    requires StrictlyAscending(xs)
    ensures r.Some? <==> |xs| >= 2 && x <= xs[|xs| - 1]
    ensures r.Some? ==> 1 <= r.value.i1 < |xs|
    ensures r.Some? ==> r.value.w0 + r.value.w1 == 1.0
    ensures r.Some? ==> Prod(r.value.w0, xs[r.value.i1 - 1]) + Prod(r.value.w1, xs[r.value.i1]) == x
    ensures r.Some? ==> (xs[0] <= x <==> r.value.w0 >= 0.0 && r.value.w1 >= 0.0)
    ensures r.Some? && xs[0] < x ==> xs[r.value.i1 - 1] < x <= xs[r.value.i1]
    ensures r.Some? && x <= xs[0] ==> r.value.i1 == 1
  {
    var n := |xs|;
    var lb := LowerBound(xs, x);
    var i1 := if lb <= 0 then 1 else lb;
    if i1 >= n then None
    else
      var i0 := i1 - 1;
      LinearWeights(xs[i0], xs[i1], x);
      var ratio := Ratio(xs[i0], xs[i1], x);
      Some(Bracket(i1, 1.0 - ratio, ratio))
  }

  /** The class nearest to x; the lower one of two that are equally near. */
  function Nearest(xs: seq<real>, x: real): (r: nat)
    requires StrictlyAscending(xs) && |xs| > 0
    ensures r < |xs|
    ensures forall k :: 0 <= k < |xs| ==> Distance(x, xs[r]) <= Distance(x, xs[k])
    ensures forall k :: 0 <= k < r ==> Distance(x, xs[r]) < Distance(x, xs[k])
  {
    var n := |xs|;
    var i1 := LowerBound(xs, x);
    if i1 <= 0 then 0
    else if i1 >= n then n - 1
    else if Distance(x, xs[i1 - 1]) <= Distance(x, xs[i1]) then i1 - 1
    else i1
  }
}
