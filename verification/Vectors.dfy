/**
 Finite vectors of exact reals, the values of the program's blitz arrays.

 Products are written Prod so that a proof can hide its body and leave non-linear arithmetic to the
 few lemmas about Prod.
 */
module Vectors {

  function Prod(a: real, b: real): real { a * b }

  lemma ProdComm(a: real, b: real)
    ensures Prod(a, b) == Prod(b, a)
  {
  }

  lemma ProdAssoc(a: real, b: real, c: real)
    ensures Prod(a, Prod(b, c)) == Prod(Prod(a, b), c)
  {
  }

  lemma ProdPlus(a: real, b: real, c: real)
    ensures Prod(a, b + c) == Prod(a, b) + Prod(a, c)
    ensures Prod(b + c, a) == Prod(b, a) + Prod(c, a)
  {
  }

  lemma ProdConst(a: real)
    ensures Prod(a, 0.0) == Prod(0.0, a) == 0.0
    ensures Prod(a, 1.0) == Prod(1.0, a) == a
  {
  }

  lemma ProdInverse(a: real)
    requires a != 0.0
    ensures Prod(a, 1.0 / a) == 1.0
  {
  }

  lemma ProdNonNegative(a: real, b: real)
    requires a >= 0.0 && b >= 0.0
    ensures Prod(a, b) >= 0.0 && (Prod(a, b) == 0.0 <==> a == 0.0 || b == 0.0)
  {
  }

  lemma ProdZero(a: real, b: real)
    ensures Prod(a, b) == 0.0 <==> a == 0.0 || b == 0.0
  {
  }

  lemma ScaledSign(u: real, x: real)
    requires u > 0.0
    ensures x >= 0.0 <==> Prod(u, x) >= 0.0
    ensures x > 0.0 <==> Prod(u, x) > 0.0
  {
  }

  /** Sum of all elements. */
  ghost function Sum(s: seq<real>): real
  {
    if |s| == 0 then 0.0 else Sum(s[..|s| - 1]) + s[|s| - 1]
  }

  ghost function Dot(a: seq<real>, b: seq<real>): real
    requires |a| == |b|
  {
    if |a| == 0 then 0.0 else Dot(a[..|a| - 1], b[..|b| - 1]) + Prod(a[|a| - 1], b[|b| - 1])
  }

  function Const(n: nat, c: real): (r: seq<real>)
    ensures |r| == n && forall k :: 0 <= k < n ==> r[k] == c
  {
    seq(n, _ => c)
  }

  function Ones(n: nat): (r: seq<real>)
    ensures |r| == n && forall k :: 0 <= k < n ==> r[k] == 1.0
  {
    Const(n, 1.0)
  }

  /** Elementwise product. */
  function Hadamard(a: seq<real>, b: seq<real>): (r: seq<real>)
    requires |a| == |b|
    ensures |r| == |a| && forall k :: 0 <= k < |a| ==> r[k] == Prod(a[k], b[k])
  {
    seq(|a|, k requires 0 <= k < |a| => Prod(a[k], b[k]))
  }

  function Plus(a: seq<real>, b: seq<real>): (r: seq<real>)
    requires |a| == |b|
    ensures |r| == |a| && forall k :: 0 <= k < |a| ==> r[k] == a[k] + b[k]
  {
    seq(|a|, k requires 0 <= k < |a| => a[k] + b[k])
  }

  ghost function Minus(a: seq<real>, b: seq<real>): (r: seq<real>)
    requires |a| == |b|
    ensures |r| == |a| && forall k :: 0 <= k < |a| ==> r[k] == a[k] - b[k]
  {
    seq(|a|, k requires 0 <= k < |a| => a[k] - b[k])
  }

  function Recip(a: real): real
  {
    if a == 0.0 then 0.0 else 1.0 / a
  }

  /** Reciprocals, with 0 where the program would hold an infinity that no stored entry meets. */
  function Inverse(a: seq<real>): (r: seq<real>)
    ensures |r| == |a| && forall k :: 0 <= k < |a| ==> r[k] == Recip(a[k])
  {
    seq(|a|, k requires 0 <= k < |a| => Recip(a[k]))
  }

  ghost function Unit(n: nat, i: nat): (r: seq<real>)
    ensures |r| == n && forall k :: 0 <= k < n ==> r[k] == if k == i then 1.0 else 0.0
  {
    seq(n, k => if k == i then 1.0 else 0.0)
  }

  lemma {:induction false} SumDot(a: seq<real>)
    ensures Sum(a) == Dot(Ones(|a|), a)
  {
    hide Prod;
    if |a| > 0 {
      SumDot(a[..|a| - 1]);
      assert Ones(|a|)[..|a| - 1] == Ones(|a| - 1);
      ProdConst(a[|a| - 1]);
    }
  }

  /** Changing one element of a vector changes its dot product by that element's share. */
  lemma {:induction false} DotUpdate(y: seq<real>, s: seq<real>, i: nat, d: real)
    requires |y| == |s| && i < |s|
    ensures Dot(y, s[i := s[i] + d]) == Dot(y, s) + Prod(y[i], d)
  {
    hide Prod;
    var n := |s| - 1;
    var t := s[i := s[i] + d];
    if i < n {
      DotUpdate(y[..n], s[..n], i, d);
      assert t[..n] == s[..n][i := s[i] + d];
    } else {
      assert t[..n] == s[..n];
      ProdPlus(y[n], s[n], d);
    }
  }

  lemma {:induction false} DotZero(y: seq<real>, z: seq<real>)
    requires |y| == |z| && forall k :: 0 <= k < |z| ==> Prod(y[k], z[k]) == 0.0
    ensures Dot(y, z) == 0.0
  {
    hide Prod;
    if |z| > 0 {
      DotZero(y[..|y| - 1], z[..|z| - 1]);
    }
  }

  lemma DotZeroRight(y: seq<real>, z: seq<real>)
    requires |y| == |z| && forall k :: 0 <= k < |z| ==> z[k] == 0.0
    ensures Dot(y, z) == 0.0
  {
    hide Prod;
    forall k | 0 <= k < |z| ensures Prod(y[k], z[k]) == 0.0 { ProdConst(y[k]); }
    DotZero(y, z);
  }

  lemma {:induction false} DotComm(a: seq<real>, b: seq<real>)
    requires |a| == |b|
    ensures Dot(a, b) == Dot(b, a)
  {
    hide Prod;
    if |a| > 0 {
      DotComm(a[..|a| - 1], b[..|b| - 1]);
      ProdComm(a[|a| - 1], b[|b| - 1]);
    }
  }

  /** Dot products agree when the elementwise products do. */
  lemma {:induction false} DotSame(a: seq<real>, b: seq<real>, c: seq<real>, d: seq<real>)
    requires |a| == |b| == |c| == |d|
    requires forall k :: 0 <= k < |a| ==> Prod(a[k], b[k]) == Prod(c[k], d[k])
    ensures Dot(a, b) == Dot(c, d)
  {
    hide Prod;
    if |a| > 0 {
      var n := |a| - 1;
      DotSame(a[..n], b[..n], c[..n], d[..n]);
    }
  }

  lemma DotHadamard(a: seq<real>, b: seq<real>, c: seq<real>)
    requires |a| == |b| == |c|
    ensures Dot(Hadamard(a, b), c) == Dot(a, Hadamard(b, c))
  {
    hide Prod;
    forall k | 0 <= k < |a| ensures Prod(Hadamard(a, b)[k], c[k]) == Prod(a[k], Hadamard(b, c)[k]) {
      ProdAssoc(a[k], b[k], c[k]);
    }
    DotSame(Hadamard(a, b), c, a, Hadamard(b, c));
  }

  lemma {:induction false} DotPlus(a: seq<real>, b: seq<real>, c: seq<real>)
    requires |a| == |b| == |c|
    ensures Dot(a, Plus(b, c)) == Dot(a, b) + Dot(a, c)
  {
    hide Prod;
    if |a| > 0 {
      var n := |a| - 1;
      DotPlus(a[..n], b[..n], c[..n]);
      assert Plus(b, c)[..n] == Plus(b[..n], c[..n]);
      ProdPlus(a[n], b[n], c[n]);
    }
  }

  lemma DotMinus(a: seq<real>, b: seq<real>, c: seq<real>)
    requires |a| == |b| == |c|
    ensures Dot(a, Minus(b, c)) == Dot(a, b) - Dot(a, c)
  {
    DotPlus(a, Minus(b, c), c);
    assert Plus(Minus(b, c), c) == b;
  }

  lemma {:induction false} DotUnit(n: nat, i: nat, s: seq<real>)
    requires |s| == n && i < n
    ensures Dot(Unit(n, i), s) == s[i]
  {
    hide Prod;
    var z := Const(n, 0.0);
    assert Unit(n, i) == z[i := z[i] + 1.0];
    DotUpdate(s, z, i, 1.0);
    DotZeroRight(s, z);
    ProdConst(s[i]);
    DotComm(Unit(n, i), s);
  }

  /** Adds a vector to an array, element by element. */
  method AddInto(s: array<real>, v: seq<real>)
    requires |v| == s.Length
    modifies s
    ensures s[..] == Plus(old(s[..]), v)
  {
    for i := 0 to |v|
      invariant forall l :: 0 <= l < s.Length ==> s[l] == if l < i then old(s[l]) + v[l] else old(s[l])
    {
      s[i] := s[i] + v[i];
    }
  }
}
