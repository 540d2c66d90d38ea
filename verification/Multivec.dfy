/**
 Sparse vectors that share their grid cells (slib/icebin/multivec.cpp), and how the output of the coupler is divided
 and written back with them (split_by_domain and apply_gcm_ivals in slib/icebin/modele/GCMCoupler_ModelE.cpp).
 */
module Multivec {
  import opened Wrappers
  import opened Ints
  import opened Vectors
  import opened Domains
  import opened Sparse
  import opened Sums
  import opened E1vE0

  /** The elements that parallel lists of indices, weights and values stand for; every element has nvar values. */
  ghost function Elements(index: seq<int>, weights: seq<real>, vals: seq<real>, nvar: nat): (es: seq<Element>)
    requires |weights| == |index| && |vals| == Times(|index|, nvar)
    ensures |es| == |index|
  {
    var n := |index| - 1;
    if n < 0 then []
    else
      Steps(n, nvar);
      Elements(index[..n], weights[..n], vals[..Times(n, nvar)], nvar)
      + [Element(index[n], vals[Times(n, nvar)..], weights[n])]
  }

  lemma {:induction false} ElementsAt(index: seq<int>, weights: seq<real>, vals: seq<real>, nvar: nat, k: nat)
    requires |weights| == |index| && |vals| == Times(|index|, nvar) && k < |index|
    ensures 0 <= Times(k, nvar) <= Times(k, nvar) + nvar <= |vals|
    ensures Elements(index, weights, vals, nvar)[k]
         == Element(index[k], vals[Times(k, nvar)..Times(k, nvar) + nvar], weights[k])
  {
    hide Times;
    var n := |index| - 1;
    Steps(n, nvar);
    Steps(k, nvar);
    if k < n {
      ElementsAt(index[..n], weights[..n], vals[..Times(n, nvar)], nvar, k);
    }
  }

  lemma ElementsAppend(index: seq<int>, weights: seq<real>, vals: seq<real>, nvar: nat, e: Element)
    requires |weights| == |index| && |vals| == Times(|index|, nvar) && |e.vals| == nvar
    ensures |vals + e.vals| == Times(|index| + 1, nvar)
    ensures Elements(index + [e.ix], weights + [e.weight], vals + e.vals, nvar)
         == Elements(index, weights, vals, nvar) + [e]
  {
    hide Times;
    var n := |index|;
    Steps(n, nvar);
    assert (index + [e.ix])[..n] == index && (weights + [e.weight])[..n] == weights;
    assert (vals + e.vals)[..Times(n, nvar)] == vals && (vals + e.vals)[Times(n, nvar)..] == e.vals;
  }

  lemma NoElements(weights: seq<real>, vals: seq<real>, nvar: nat)
    requires |weights| == 0 && |vals| == Times(0, nvar)
    ensures Elements([], weights, vals, nvar) == []
  {
  }

  lemma ElementsLast(index: seq<int>, weights: seq<real>, vals: seq<real>, nvar: nat)
    requires |weights| == |index| && |vals| == Times(|index|, nvar) && |index| > 0
    ensures var n := |index| - 1;
      && 0 <= Times(n, nvar) && |vals| == Times(n, nvar) + nvar
      && Elements(index, weights, vals, nvar)
         == Elements(index[..n], weights[..n], vals[..Times(n, nvar)], nvar)
            + [Element(index[n], vals[Times(n, nvar)..], weights[n])]
  {
    hide Times;
    Steps(|index| - 1, nvar);
  }

  lemma {:induction false} ElementsConcat(i1: seq<int>, w1: seq<real>, v1: seq<real>, i2: seq<int>, w2: seq<real>,
                                          v2: seq<real>, nvar: nat)
    requires |w1| == |i1| && |v1| == Times(|i1|, nvar) && |w2| == |i2| && |v2| == Times(|i2|, nvar)
    ensures |v1 + v2| == Times(|i1 + i2|, nvar)
    ensures Elements(i1 + i2, w1 + w2, v1 + v2, nvar) == Elements(i1, w1, v1, nvar) + Elements(i2, w2, v2, nvar)
  {
    hide Times, Elements;
    TimesPlus(|i1|, |i2|, nvar);
    if |i2| == 0 {
      TimesFacts(0, nvar, 0);
      NoElements(w2, v2, nvar);
      assert i1 + i2 == i1 && w1 + w2 == w1 && v1 + v2 == v1;
    } else {
      var n := |i2| - 1;
      Steps(n, nvar);
      ElementsLast(i2, w2, v2, nvar);
      var t := Times(n, nvar);
      ElementsConcat(i1, w1, v1, i2[..n], w2[..n], v2[..t], nvar);
      ElementsAppend(i1 + i2[..n], w1 + w2[..n], v1 + v2[..t], nvar, Element(i2[n], v2[t..], w2[n]));
      assert i1 + i2 == i1 + i2[..n] + [i2[n]] && w1 + w2 == w1 + w2[..n] + [w2[n]];
      assert v1 + v2 == v1 + v2[..t] + v2[t..];
    }
  }

  /** Every element has a value for each of nvar variables. */
  ghost predicate Wide(es: seq<Element>, nvar: nat)
  {
    forall k :: 0 <= k < |es| ==> |es[k].vals| == nvar
  }

  class VectorMultivec {
    const nvar: nat
    var index: seq<int>
    var weights: seq<real>
    var vals: seq<real>     // nvar values for every element, one element after the other

    constructor (nvar: nat)
      ensures Valid() && Contents() == [] && this.nvar == nvar
    {
      this.nvar := nvar;
      index, weights, vals := [], [], [];
    }

    ghost predicate Valid()
      reads this
    {
      |weights| == |index| && |vals| == Times(|index|, nvar)
    }

    ghost function Contents(): (es: seq<Element>)
      requires Valid()
      reads this
      ensures |es| == |index|
    {
      Elements(index, weights, vals, nvar)
    }

    lemma ContentsAt(k: nat)
      requires Valid() && k < |index|
      ensures Contents()[k].ix == index[k] && Contents()[k].weight == weights[k] && |Contents()[k].vals| == nvar
    {
      hide Times, Elements;
      ElementsAt(index, weights, vals, nvar, k);
    }

    method Add(ix: int, val: seq<real>, weight: real)
      requires Valid() && |val| >= nvar
      modifies this
      ensures Valid() && Contents() == old(Contents()) + [Element(ix, val[..nvar], weight)]
      ensures index == old(index) + [ix]
    {
      hide Times, Elements;
      ghost var before := vals;
      ElementsAppend(index, weights, vals, nvar, Element(ix, val[..nvar], weight));
      index := index + [ix];
      weights := weights + [weight];
      for i := 0 to nvar
        invariant index == old(index) + [ix] && weights == old(weights) + [weight]
        invariant vals == before + val[..i]
      {
        vals := vals + [val[i]];
      }
    }

    /** Index, values and weight of element k. */
    method ElementAt(k: nat) returns (ix: int, values: seq<real>, weight: real)
      requires Valid() && k < |index|
      ensures Contents()[k] == Element(ix, values, weight) && ix == index[k] && |values| == nvar
    {
      hide Times, Elements;
      ElementsAt(index, weights, vals, nvar, k);
      ix, values, weight := index[k], vals[Times(k, nvar)..Times(k, nvar) + nvar], weights[k];
    }

    /** val: value of variable v of element k. */
    method Val(v: nat, k: nat) returns (x: real)
      requires Valid() && v < nvar && k < |index|
      ensures |Contents()[k].vals| == nvar && x == Contents()[k].vals[v]
    {
      hide Times, Elements;
      ElementsAt(index, weights, vals, nvar, k);
      x := vals[Times(k, nvar) + v];
    }

    /** Inverse of the summed weight of every cell; ok is false where the source reports an index out of range. */
    method ToDenseScale(scaleE: array<real>) returns (ok: bool)
      requires Valid() && forall k :: 0 <= k < |index| ==> index[k] >= 0
      modifies scaleE
      ensures Valid() && Contents() == old(Contents())
      ensures ok <==> forall k :: 0 <= k < |index| ==> index[k] < scaleE.Length
      ensures ok ==> forall c :: 0 <= c < scaleE.Length ==> scaleE[c] == Scale(Contents(), c)
    {
      hide Times, Recip, Elements;
      ghost var es := Contents();
      forall iE | 0 <= iE < scaleE.Length { scaleE[iE] := 0.0; }
      for i := 0 to |index|
        invariant Valid() && Contents() == es
        invariant forall k :: 0 <= k < i ==> index[k] < scaleE.Length
        invariant forall c :: 0 <= c < scaleE.Length ==> scaleE[c] == WeightSum(es[..i], c)
      {
        var iE := index[i];
        ContentsAt(i);
        if iE >= scaleE.Length {
          return false;
        }
        assert es[..i + 1][..i] == es[..i] && es[..i + 1][i] == es[i];
        scaleE[iE] := scaleE[iE] + weights[i];
      }
      assert es[..|index|] == es;
      ghost var sums := scaleE[..];
      for iE := 0 to scaleE.Length
        invariant Valid() && Contents() == es
        invariant forall c :: 0 <= c < scaleE.Length ==> scaleE[c] == if c < iE then Recip(sums[c]) else sums[c]
      {
        scaleE[iE] := Recip(scaleE[iE]);
      }
      ok := true;
    }
  }

  ghost function AllContents(vecs: seq<VectorMultivec>, n: nat): seq<Element>
    requires n <= |vecs| && forall k :: 0 <= k < |vecs| ==> vecs[k].Valid()
    reads set k | 0 <= k < |vecs| :: vecs[k]
  {
    if n == 0 then [] else AllContents(vecs, n - 1) + vecs[n - 1].Contents()
  }

  /**
   concatenate; ok is false where the source reports different numbers of variables.  The source reads the first
   vector before it checks that there is one.
   */
  method Concatenate(vecs: seq<VectorMultivec>) returns (ok: bool, ret: VectorMultivec)
    requires |vecs| > 0 && forall k :: 0 <= k < |vecs| ==> vecs[k].Valid()
    ensures ok <==> forall k :: 0 <= k < |vecs| ==> vecs[k].nvar == vecs[0].nvar
    ensures fresh(ret) && forall k :: 0 <= k < |vecs| ==> vecs[k].Valid()
    ensures ok ==> ret.Valid() && ret.nvar == vecs[0].nvar && ret.Contents() == AllContents(vecs, |vecs|)
  {
    hide Times, Elements;
    ret := new VectorMultivec(vecs[0].nvar);
    for k := 0 to |vecs|
      invariant fresh(ret) && ret.Valid() && ret.nvar == vecs[0].nvar
      invariant forall l :: 0 <= l < |vecs| ==> vecs[l].Valid() && vecs[l] != ret
      invariant forall l :: 0 <= l < k ==> vecs[l].nvar == vecs[0].nvar
      invariant ret.Contents() == AllContents(vecs, k)
    {
      var v := vecs[k];
      if ret.nvar != v.nvar {
        return false, ret;
      }
      ElementsConcat(ret.index, ret.weights, ret.vals, v.index, v.weights, v.vals, ret.nvar);
      ret.index := ret.index + v.index;
      ret.weights := ret.weights + v.weights;
      ret.vals := ret.vals + v.vals;
    }
    ok := true;
  }

  lemma Steps(k: int, n: nat)
    requires k >= 0
    ensures Times(k + 1, n) == Times(k, n) + n && 0 <= Times(k, n)
  {
  }

  // ---------------------------------------------------------------- splitting

  /** The vectors of all ranks together hold what the first elements of the output give them. */
  ghost predicate Holds(outs: seq<VectorMultivec>, d: Decomposition, es: seq<Element>)
    requires d.Valid()
    reads set r | 0 <= r < |outs| :: outs[r]
  {
    forall r :: 0 <= r < |outs| ==> outs[r].Valid() && outs[r].Contents() == Kept(d, es, r)
  }

  lemma RankInRange(d: Decomposition, ix: int, n: nat)
    requires d.Valid() && forall j :: 0 <= j < |d.rank| ==> d.rank[j] < n
    ensures d.DomainOf(ix) < n
  {
    hide Quot, Rem;
    DivMod(Quot(ix, d.im), d.jm);
  }

  /** split_by_domain, for one of its vectors. */
  method SplitVector(out: VectorMultivec, domains: DomainDecomposer,
                     d: Decomposition) returns (outs: seq<VectorMultivec>)
    requires out.Valid() && domains.Valid() && domains.Value() == d
    requires forall k :: 0 <= k < |out.index| ==> out.index[k] >= 0
    requires forall j :: 0 <= j < |d.rank| ==> d.rank[j] < domains.ndomain
    ensures |outs| == domains.ndomain && forall r :: 0 <= r < |outs| ==> fresh(outs[r])
    ensures d.Valid() && out.Valid() && out.Contents() == old(out.Contents()) && Holds(outs, d, out.Contents())
  {
    hide Times, Quot, Rem, Decomposition.DomainOf, VectorMultivec.Valid, VectorMultivec.Contents;
    outs := [];
    ghost var es := out.Contents();
    for i := 0 to domains.ndomain
      invariant |outs| == i && forall r :: 0 <= r < i ==> fresh(outs[r]) && outs[r].Valid() && outs[r].Contents() == []
      invariant forall r :: 0 <= r < i ==> outs[r].nvar == out.nvar
      invariant forall q, r :: 0 <= q < r < i ==> outs[q] != outs[r]
      invariant out.Valid() && out.Contents() == es && domains.Valid() && domains.Value() == d
    {
      var v := new VectorMultivec(out.nvar);
      outs := outs + [v];
    }
    for i := 0 to |out.index|
      invariant forall r :: 0 <= r < |outs| ==> fresh(outs[r]) && outs[r].nvar == out.nvar
      invariant forall q, r :: 0 <= q < r < |outs| ==> outs[q] != outs[r]
      invariant out.Valid() && out.Contents() == es && domains.Valid() && domains.Value() == d
      invariant Holds(outs, d, es[..i])
    {
      var ix, values, weight := out.ElementAt(i);
      var idomain := domains.GetDomain(ix);
      RankInRange(d, ix, domains.ndomain);
      outs[idomain].Add(ix, values, weight);
      assert values[..out.nvar] == values;
      assert es[..i + 1][..i] == es[..i] && es[..i + 1][i] == es[i] == Element(ix, values, weight);
      forall r | 0 <= r < |outs| ensures outs[r].Valid() && outs[r].Contents() == Kept(d, es[..i + 1], r) {
        assert r != idomain ==> outs[r] != outs[idomain];
      }
    }
    assert es[..|out.index|] == es;
  }

  /** split_by_domain, for the correction matrix: a tuple goes to the rank of its row. */
  method SplitCorrection(E1vE0c: Triplets, domains: DomainDecomposer, d: Decomposition) returns (outs: seq<TupleList>)
    requires domains.Valid() && domains.Value() == d && forall j :: 0 <= j < |d.rank| ==> d.rank[j] < domains.ndomain
    ensures |outs| == domains.ndomain && d.Valid()
    ensures forall r :: 0 <= r < |outs| ==> fresh(outs[r]) && outs[r].tuples == KeptTuples(d, E1vE0c, r)
  {
    hide Times, Quot, Rem, Decomposition.DomainOf;
    outs := [];
    for i := 0 to domains.ndomain
      invariant |outs| == i && forall r :: 0 <= r < i ==> fresh(outs[r]) && outs[r].tuples == []
      invariant forall q, r :: 0 <= q < r < i ==> outs[q] != outs[r]
      invariant domains.Valid() && domains.Value() == d
    {
      var t := new TupleList();
      outs := outs + [t];
    }
    for i := 0 to |E1vE0c|
      invariant forall r :: 0 <= r < |outs| ==> fresh(outs[r]) && outs[r].tuples == KeptTuples(d, E1vE0c[..i], r)
      invariant forall q, r :: 0 <= q < r < |outs| ==> outs[q] != outs[r]
      invariant domains.Valid() && domains.Value() == d
    {
      var tp := E1vE0c[i];
      var domain := domains.GetDomain(tp.i);
      RankInRange(d, tp.i, domains.ndomain);
      assert E1vE0c[..i + 1][..i] == E1vE0c[..i];
      outs[domain].tuples := outs[domain].tuples + [tp];
      forall r | 0 <= r < |outs| ensures outs[r].tuples == KeptTuples(d, E1vE0c[..i + 1], r) {
        assert r != domain ==> outs[r] != outs[domain];
      }
    }
    assert E1vE0c[..|E1vE0c|] == E1vE0c;
  }

  ghost function KeptTuples(d: Decomposition, T: Triplets, r: nat): Triplets
    requires d.Valid()
  {
    if |T| == 0 then []
    else
      KeptTuples(d, T[..|T| - 1], r) + if d.DomainOf(T[|T| - 1].i) == r then [T[|T| - 1]] else []
  }

  /** A rank's tuples hold all coefficients of its own rows, and none of the others. */
  lemma {:induction false} KeptCoefficients(d: Decomposition, T: Triplets, r: nat, i: nat, j: nat)
    requires d.Valid()
    ensures Sparse.At(KeptTuples(d, T, r), i, j) == if d.DomainOf(i) == r then Sparse.At(T, i, j) else 0.0
  {
    hide Decomposition.DomainOf;
    if |T| > 0 {
      KeptCoefficients(d, T[..|T| - 1], r, i, j);
      var kept := KeptTuples(d, T, r);
      if d.DomainOf(T[|T| - 1].i) == r {
        assert kept[..|kept| - 1] == KeptTuples(d, T[..|T| - 1], r);
      } else {
        assert kept == KeptTuples(d, T[..|T| - 1], r);
      }
    }
  }

  // ---------------------------------------------------------------- applying

  ghost predicate InRange(es: seq<Element>, n: int)
  {
    forall k :: 0 <= k < |es| ==> 0 <= es[k].ix < n
  }

  /** Variable v of atmosphere cell c after the output has been applied; was is the value before. */
  ghost function AppliedA(es: seq<Element>, v: nat, c: int, was: real): real
    requires forall k :: 0 <= k < |es| ==> v < |es[k].vals|
  {
    if Touched(es, c) then MeanOf(es, v, c) else was
  }

  /** The same for elevation cell c: all classes of an atmosphere cell are cleared once one of them occurs. */
  ghost function AppliedE(d: Decomposition, es: seq<Element>, v: nat, c: int, was: real): real
    requires d.Valid() && forall k :: 0 <= k < |es| ==> v < |es[k].vals|
  {
    if ColumnTouched(d, es, c) then MeanOf(es, v, c) else was
  }

  method ClearCell(dest: array2<real>, c: int)
    requires 0 <= c < dest.Length1
    modifies dest
    ensures forall v, b :: 0 <= v < dest.Length0 && 0 <= b < dest.Length1 ==>
              dest[v, b] == if b == c then 0.0 else old(dest[v, b])
  {
    for ivar := 0 to dest.Length0
      invariant forall v, b :: 0 <= v < dest.Length0 && 0 <= b < dest.Length1 ==>
                  dest[v, b] == if b == c && v < ivar then 0.0 else old(dest[v, b])
    {
      dest[ivar, c] := 0.0;
    }
  }

  method AddCell(dest: array2<real>, c: int, values: seq<real>, s: real)
    requires 0 <= c < dest.Length1 && |values| == dest.Length0
    modifies dest
    ensures forall v, b :: 0 <= v < dest.Length0 && 0 <= b < dest.Length1 ==>
              dest[v, b] == if b == c then old(dest[v, b]) + Prod(values[v], s) else old(dest[v, b])
  {
    hide Prod;
    for ivar := 0 to dest.Length0
      invariant forall v, b :: 0 <= v < dest.Length0 && 0 <= b < dest.Length1 ==>
                  dest[v, b] == if b == c && v < ivar then old(dest[v, b]) + Prod(values[v], s) else old(dest[v, b])
    {
      dest[ivar, c] := dest[ivar, c] + Prod(values[ivar], s);
    }
  }

  lemma ElementsWide(out: VectorMultivec)
    requires out.Valid()
    ensures Wide(out.Contents(), out.nvar)
  {
    hide VectorMultivec.Contents;
    forall k | 0 <= k < |out.index| ensures |out.Contents()[k].vals| == out.nvar { out.ContentsAt(k); }
  }

  lemma ValueSumNext(es: seq<Element>, k: nat, v: nat, c: int, s: real)
    requires k < |es| && forall l :: 0 <= l < |es| ==> v < |es[l].vals|
    ensures Prod(ValueSum(es[..k + 1], v, c), s)
         == Prod(ValueSum(es[..k], v, c), s) + if es[k].ix == c then Prod(es[k].vals[v], s) else 0.0
  {
    hide Prod;
    assert es[..k + 1][..k] == es[..k];
    ProdPlus(s, ValueSum(es[..k], v, c), es[k].vals[v]);
  }

  /** The loops of apply_gcm_ivals that add the scaled values of all elements, for both kinds of grids. */
  method AddValues(out: VectorMultivec, dest: array2<real>, scale: array<real>)
    requires out.Valid() && InRange(out.Contents(), dest.Length1) && dest.Length0 == out.nvar
    requires scale.Length == dest.Length1
    modifies dest
    ensures out.Valid() && out.Contents() == old(out.Contents()) && Wide(out.Contents(), out.nvar)
    ensures forall v, c :: 0 <= v < dest.Length0 && 0 <= c < dest.Length1 ==>
              dest[v, c] == old(dest[v, c]) + Prod(ValueSum(out.Contents(), v, c), old(scale[c]))
  {
    hide Prod, VectorMultivec.Contents, ValueSum;
    ElementsWide(out);
    ghost var es := out.Contents();
    forall v, c | 0 <= v < dest.Length0 && 0 <= c < dest.Length1
      ensures Prod(ValueSum(es[..0], v, c), scale[c]) == 0.0
    {
      NoValues(v, c);
      assert es[..0] == [];
      ProdConst(scale[c]);
    }
    for ix := 0 to |out.index|
      invariant out.Valid() && out.Contents() == es && scale[..] == old(scale[..])
      invariant forall v, c :: 0 <= v < dest.Length0 && 0 <= c < dest.Length1 ==>
                  dest[v, c] == old(dest[v, c]) + Prod(ValueSum(es[..ix], v, c), scale[c])
    {
      var i, values, weight := out.ElementAt(ix);
      AddCell(dest, i, values, scale[i]);
      forall v, c | 0 <= v < dest.Length0 && 0 <= c < dest.Length1
        ensures Prod(ValueSum(es[..ix + 1], v, c), scale[c])
             == Prod(ValueSum(es[..ix], v, c), scale[c]) + if i == c then Prod(values[v], scale[c]) else 0.0
      {
        ValueSumNext(es, ix, v, c, scale[c]);
      }
    }
    assert es[..|out.index|] == es;
  }

  lemma NoValues(v: nat, c: int)
    ensures ValueSum([], v, c) == 0.0
  {
  }

  lemma TouchedNext(es: seq<Element>, k: nat, c: int)
    requires k < |es|
    ensures Touched(es[..k + 1], c) <==> Touched(es[..k], c) || es[k].ix == c
  {
    assert es[..k + 1][k] == es[k];
    if Touched(es[..k], c) {
      var l :| 0 <= l < k && es[..k][l].ix == c;
      assert es[..k + 1][l].ix == c;
    }
    if Touched(es[..k + 1], c) && es[k].ix != c {
      var l :| 0 <= l < k + 1 && es[..k + 1][l].ix == c;
      assert es[..k][l].ix == c;
    }
  }

  lemma ColumnTouchedNext(d: Decomposition, es: seq<Element>, k: nat, c: int)
    requires d.Valid() && k < |es|
    ensures ColumnTouched(d, es[..k + 1], c) <==> ColumnTouched(d, es[..k], c) || d.Column(es[k].ix) == d.Column(c)
  {
    hide Decomposition.Column;
    assert es[..k + 1][k] == es[k];
    if ColumnTouched(d, es[..k], c) {
      var l :| 0 <= l < k && d.Column(es[..k][l].ix) == d.Column(c);
      assert d.Column(es[..k + 1][l].ix) == d.Column(c);
    }
    if ColumnTouched(d, es[..k + 1], c) && d.Column(es[k].ix) != d.Column(c) {
      var l :| 0 <= l < k + 1 && d.Column(es[..k + 1][l].ix) == d.Column(c);
      assert d.Column(es[..k][l].ix) == d.Column(c);
    }
  }

  lemma {:induction false} UntouchedSum(es: seq<Element>, v: nat, c: int)
    requires !Touched(es, c) && forall k :: 0 <= k < |es| ==> v < |es[k].vals|
    ensures ValueSum(es, v, c) == 0.0
  {
    if |es| > 0 {
      var n := |es| - 1;
      assert es[n].ix != c;
      UntouchedSum(es[..n], v, c);
    }
  }

  lemma IndexInRange(out: VectorMultivec, n: int)
    requires out.Valid() && InRange(out.Contents(), n)
    ensures forall k :: 0 <= k < |out.index| ==> 0 <= out.index[k] < n && out.index[k] == out.Contents()[k].ix
  {
    hide VectorMultivec.Contents;
    forall k | 0 <= k < |out.index| ensures out.index[k] == out.Contents()[k].ix { out.ContentsAt(k); }
  }

  /**
   The A part of apply_gcm_ivals: cells that occur in the output are cleared and get their weighted means; ok is
   false where the source reports that the output has the wrong number of variables.
   */
  method ApplyToA(out: VectorMultivec, dest: array2<real>) returns (ok: bool)
    requires out.Valid() && InRange(out.Contents(), dest.Length1)
    modifies dest
    ensures out.Valid() && out.Contents() == old(out.Contents()) && (ok <==> dest.Length0 == out.nvar)
    ensures ok ==> Wide(out.Contents(), dest.Length0)
    ensures ok ==> forall v, c :: 0 <= v < dest.Length0 && 0 <= c < dest.Length1 ==>
              dest[v, c] == AppliedA(out.Contents(), v, c, old(dest[v, c]))
  {
    hide Prod, VectorMultivec.Contents, Scale, Touched, ValueSum;
    if dest.Length0 != out.nvar {
      return false;
    }
    ghost var es := out.Contents();
    IndexInRange(out, dest.Length1);
    ElementsWide(out);
    assert forall c :: !Touched(es[..0], c) by { NothingTouched(); assert es[..0] == []; }
    for ix := 0 to |out.index|
      invariant out.Valid() && out.Contents() == es
      invariant forall v, c :: 0 <= v < dest.Length0 && 0 <= c < dest.Length1 ==>
                  dest[v, c] == if Touched(es[..ix], c) then 0.0 else old(dest[v, c])
    {
      ClearCell(dest, out.index[ix]);
      forall c ensures Touched(es[..ix + 1], c) <==> Touched(es[..ix], c) || out.index[ix] == c {
        TouchedNext(es, ix, c);
      }
    }
    assert es[..|out.index|] == es;
    var sA := new real[dest.Length1](_ => 0.0);
    ok := out.ToDenseScale(sA);
    AddValues(out, dest, sA);
    forall v, c | 0 <= v < dest.Length0 && 0 <= c < dest.Length1
      ensures !Touched(es, c) ==> Prod(ValueSum(es, v, c), sA[c]) == 0.0
    {
      if !Touched(es, c) { UntouchedSum(es, v, c); }
      ProdConst(sA[c]);
    }
  }

  lemma NothingTouched()
    ensures forall c :: !Touched([], c)
  {
  }

  lemma NoColumnTouched(d: Decomposition)
    requires d.Valid()
    ensures forall c :: !ColumnTouched(d, [], c)
  {
  }

  /** Index of class ihc of the atmosphere cell below ix. */
  lemma ClassIndex(d: Decomposition, nhc: int, ix: int, ihc: int)
    requires d.Valid() && 0 <= ihc < nhc
    ensures Times(d.jm, d.im) > 0 && 0 <= d.Column(ix) < Times(d.jm, d.im)
    ensures var n := Times(d.jm, d.im); 0 <= Times(ihc, n) + d.Column(ix) < Times(nhc, n)
    ensures forall c :: Quot(c, Times(d.jm, d.im)) == ihc && d.Column(c) == d.Column(ix)
                   <==> c == Times(ihc, Times(d.jm, d.im)) + d.Column(ix)
  {
    hide Times, Quot, Rem;
    var n := Times(d.jm, d.im);
    TimesPositive(d.jm, d.im);
    DivMod(ix, n);
    TimesBound(ihc, nhc, n, d.Column(ix));
    TimesFacts(n, nhc, 0);
    forall c ensures Quot(c, n) == ihc && d.Column(c) == d.Column(ix) <==> c == Times(ihc, n) + d.Column(ix) {
      DivMod(c, n);
      QuotRemUnique(ihc, n, d.Column(ix));
    }
  }

  lemma ClassOfIndex(d: Decomposition, nhc: int, c: int)
    requires d.Valid() && 0 <= c < Times(nhc, Times(d.jm, d.im))
    ensures Times(d.jm, d.im) > 0 && 0 <= Quot(c, Times(d.jm, d.im)) < nhc
  {
    hide Times, Quot, Rem;
    TimesPositive(d.jm, d.im);
    QuotBoundSwapped(c, Times(d.jm, d.im), nhc);
  }

  /** Clears all classes of the atmosphere cell below ix. */
  method ClearColumn(dest: array2<real>, d: Decomposition, nhc: nat, ix: int)
    requires d.Valid() && dest.Length1 == Times(nhc, Times(d.jm, d.im))
    modifies dest
    ensures forall v, b :: 0 <= v < dest.Length0 && 0 <= b < dest.Length1 ==>
              dest[v, b] == if d.Column(b) == d.Column(ix) then 0.0 else old(dest[v, b])
  {
    hide Times, Quot, Rem, Decomposition.Column;
    TimesPositive(d.jm, d.im);
    var n := Times(d.jm, d.im);
    forall b | 0 <= b < dest.Length1 ensures 0 <= Quot(b, n) < nhc { ClassOfIndex(d, nhc, b); }
    for ihc := 0 to nhc
      invariant forall v, b :: 0 <= v < dest.Length0 && 0 <= b < dest.Length1 ==>
                  dest[v, b] == if d.Column(b) == d.Column(ix) && Quot(b, n) < ihc then 0.0 else old(dest[v, b])
    {
      ClassIndex(d, nhc, ix, ihc);
      ClearCell(dest, Times(ihc, n) + d.Column(ix));
    }
  }

  /** The E part of apply_gcm_ivals. */
  method ApplyToE(out: VectorMultivec, dest: array2<real>, d: Decomposition, nhc: nat) returns (ok: bool)
    requires out.Valid() && d.Valid() && dest.Length1 == Times(nhc, Times(d.jm, d.im))
    requires InRange(out.Contents(), dest.Length1)
    modifies dest
    ensures out.Valid() && out.Contents() == old(out.Contents()) && (ok <==> dest.Length0 == out.nvar)
    ensures ok ==> Wide(out.Contents(), dest.Length0)
    ensures ok ==> forall v, c :: 0 <= v < dest.Length0 && 0 <= c < dest.Length1 ==>
              dest[v, c] == AppliedE(d, out.Contents(), v, c, old(dest[v, c]))
  {
    hide Prod, VectorMultivec.Contents, Scale, ColumnTouched, Touched, ValueSum, Times, Decomposition.Column;
    if dest.Length0 != out.nvar {
      return false;
    }
    ghost var es := out.Contents();
    IndexInRange(out, dest.Length1);
    ElementsWide(out);
    assert forall c :: !ColumnTouched(d, es[..0], c) by { NoColumnTouched(d); assert es[..0] == []; }
    for ix := 0 to |out.index|
      invariant out.Valid() && out.Contents() == es
      invariant forall v, c :: 0 <= v < dest.Length0 && 0 <= c < dest.Length1 ==>
                  dest[v, c] == if ColumnTouched(d, es[..ix], c) then 0.0 else old(dest[v, c])
    {
      ClearColumn(dest, d, nhc, out.index[ix]);
      forall c
        ensures ColumnTouched(d, es[..ix + 1], c)
            <==> ColumnTouched(d, es[..ix], c) || d.Column(c) == d.Column(out.index[ix])
      {
        ColumnTouchedNext(d, es, ix, c);
      }
    }
    assert es[..|out.index|] == es;
    var sE := new real[dest.Length1](_ => 0.0);
    ok := out.ToDenseScale(sE);
    AddValues(out, dest, sE);
    forall v, c | 0 <= v < dest.Length0 && 0 <= c < dest.Length1
      ensures !ColumnTouched(d, es, c) ==> Prod(ValueSum(es, v, c), sE[c]) == 0.0
    {
      if !ColumnTouched(d, es, c) {
        if Touched(es, c) { CellInColumn(d, es, c); }
        UntouchedSum(es, v, c);
      }
      ProdConst(sE[c]);
    }
  }

  lemma CellInColumn(d: Decomposition, es: seq<Element>, c: int)
    requires d.Valid() && Touched(es, c)
    ensures ColumnTouched(d, es, c)
  {
    hide Decomposition.Column;
  }

  /** to_dense, for one variable: cells that do not occur get the fill value; None is the source's NaN. */
  method ToDense(out: VectorMultivec, ivar: nat, scaleE: array<real>, fill: real)
    returns (ok: bool, denseE: array<Option<real>>)
    requires out.Valid() && ivar < out.nvar && forall k :: 0 <= k < |out.index| ==> out.index[k] >= 0
    ensures out.Valid() && out.Contents() == old(out.Contents()) && Wide(out.Contents(), out.nvar)
    ensures fresh(denseE) && denseE.Length == scaleE.Length
    ensures ok <==> forall k :: 0 <= k < |out.index| ==> out.index[k] < denseE.Length
    ensures ok ==> forall c :: 0 <= c < denseE.Length ==>
              denseE[c] == Some(if Touched(out.Contents(), c)
                                 then Prod(ValueSum(out.Contents(), ivar, c), scaleE[c]) else fill)
  {
    hide Prod, VectorMultivec.Contents, Touched, ValueSum;
    ghost var es := out.Contents();
    ElementsWide(out);
    denseE := new Option<real>[scaleE.Length](_ => None);
    assert forall c :: !Touched(es[..0], c) by { NothingTouched(); assert es[..0] == []; }
    for i := 0 to |out.index|
      invariant out.Valid() && out.Contents() == es && fresh(denseE)
      invariant forall k :: 0 <= k < i ==> out.index[k] < denseE.Length
      invariant forall c :: 0 <= c < denseE.Length ==>
                  denseE[c] == if Touched(es[..i], c) then Some(Prod(ValueSum(es[..i], ivar, c), scaleE[c])) else None
    {
      var iE := out.index[i];
      if iE >= denseE.Length {
        return false, denseE;
      }
      out.ContentsAt(i);
      var value := out.Val(ivar, i);
      forall c | 0 <= c < denseE.Length
        ensures Touched(es[..i + 1], c) <==> Touched(es[..i], c) || iE == c
        ensures Prod(ValueSum(es[..i + 1], ivar, c), scaleE[c])
             == Prod(ValueSum(es[..i], ivar, c), scaleE[c]) + if iE == c then Prod(value, scaleE[c]) else 0.0
        ensures !Touched(es[..i], c) ==> Prod(ValueSum(es[..i], ivar, c), scaleE[c]) == 0.0
      {
        TouchedNext(es, i, c);
        ValueSumNext(es, i, ivar, c, scaleE[c]);
        if !Touched(es[..i], c) { UntouchedSum(es[..i], ivar, c); }
        ProdConst(scaleE[c]);
      }
      if denseE[iE] == None {
        denseE[iE] := Some(Prod(value, scaleE[iE]));
      } else {
        denseE[iE] := Some(denseE[iE].value + Prod(value, scaleE[iE]));
      }
    }
    assert es[..|out.index|] == es;
    for iE := 0 to denseE.Length
      invariant out.Valid() && out.Contents() == es && fresh(denseE)
      invariant forall c :: 0 <= c < denseE.Length ==>
                  denseE[c] == if Touched(es, c) then Some(Prod(ValueSum(es, ivar, c), scaleE[c]))
                               else if c < iE then Some(fill) else None
    {
      if denseE[iE] == None { denseE[iE] := Some(fill); }
    }
    ok := true;
  }

  // ---------------------------------------------------------------- totals

  /** The values of variable v of all elements, added up. */
  ghost function TotalValue(es: seq<Element>, v: nat): real
    requires forall k :: 0 <= k < |es| ==> v < |es[k].vals|
  {
    if |es| == 0 then 0.0 else TotalValue(es[..|es| - 1], v) + es[|es| - 1].vals[v]
  }

  ghost function CellValues(es: seq<Element>, v: nat): int -> real
    requires forall k :: 0 <= k < |es| ==> v < |es[k].vals|
  {
    c => ValueSum(es, v, c)
  }

  /** Every value is added up in exactly one cell. */
  lemma {:induction false} ValuesInCells(es: seq<Element>, v: nat, n: nat)
    requires InRange(es, n) && forall k :: 0 <= k < |es| ==> v < |es[k].vals|
    ensures RangeSum(0, n, CellValues(es, v)) == TotalValue(es, v)
  {
    if |es| == 0 {
      ZeroRange(0, n);
      RangeSumSame(0, n, CellValues(es, v), _ => 0.0);
    } else {
      var before, e := es[..|es| - 1], es[|es| - 1];
      ValuesInCells(before, v, n);
      var d: int -> real := c => if c == e.ix then e.vals[v] else 0.0;
      RangeSumPlus(0, n, CellValues(before, v), d, CellValues(es, v));
      RangeSumPick(0, n, d, e.ix);
    }
  }

  /** The mean of a cell with weight, times its weight, is what the elements of the cell bring. */
  lemma MeanTimesWeight(es: seq<Element>, v: nat, c: int)
    requires forall k :: 0 <= k < |es| ==> v < |es[k].vals|
    ensures WeightSum(es, c) != 0.0 ==> Prod(WeightSum(es, c), Scale(es, c)) == 1.0
    ensures WeightSum(es, c) != 0.0 ==> Prod(WeightSum(es, c), MeanOf(es, v, c)) == ValueSum(es, v, c)
  {
    hide Prod, WeightSum, ValueSum;
    var w, s := WeightSum(es, c), ValueSum(es, v, c);
    if w != 0.0 {
      ProdInverse(w);
      ProdComm(s, 1.0 / w);
      ProdAssoc(w, 1.0 / w, s);
      ProdConst(s);
    }
  }

  /** field holds the weighted means of all cells that occur. */
  ghost predicate HoldsMeans(es: seq<Element>, v: nat, n: nat, field: int -> real)
    requires forall k :: 0 <= k < |es| ==> v < |es[k].vals|
  {
    forall c :: 0 <= c < n && Touched(es, c) ==> field(c) == MeanOf(es, v, c)
  }

  ghost function WeightedCells(es: seq<Element>, field: int -> real): int -> real
  {
    c => Prod(WeightSum(es, c), field(c))
  }

  /** Applying conserves: cell weights times the means written add up to everything that the elements bring. */
  lemma AppliedTotal(es: seq<Element>, v: nat, n: nat, field: int -> real)
    requires InRange(es, n) && (forall k :: 0 <= k < |es| ==> v < |es[k].vals|) && HoldsMeans(es, v, n, field)
    requires forall c :: 0 <= c < n && Touched(es, c) ==> WeightSum(es, c) != 0.0
    ensures RangeSum(0, n, WeightedCells(es, field)) == TotalValue(es, v)
  {
    hide Prod, ValueSum, Scale, Touched, TotalValue, WeightSum;
    ValuesInCells(es, v, n);
    forall c | 0 <= c < n ensures WeightedCells(es, field)(c) == CellValues(es, v)(c) {
      if Touched(es, c) {
        MeanTimesWeight(es, v, c);
      } else {
        UntouchedSum(es, v, c);
        UntouchedWeight(es, c);
        ProdConst(field(c));
      }
    }
    RangeSumSame(0, n, WeightedCells(es, field), CellValues(es, v));
  }

  lemma {:induction false} UntouchedWeight(es: seq<Element>, c: int)
    requires !Touched(es, c)
    ensures WeightSum(es, c) == 0.0
  {
    if |es| > 0 {
      assert es[|es| - 1].ix != c;
      UntouchedWeight(es[..|es| - 1], c);
    }
  }

  /** What ApplyToA and ApplyToE write holds the means. */
  lemma AppliedHoldsMeans(d: Decomposition, es: seq<Element>, v: nat, n: nat, was: int -> real, field: int -> real)
    requires d.Valid() && forall k :: 0 <= k < |es| ==> v < |es[k].vals|
    requires || (forall c :: 0 <= c < n ==> field(c) == AppliedA(es, v, c, was(c)))
             || (forall c :: 0 <= c < n ==> field(c) == AppliedE(d, es, v, c, was(c)))
    ensures HoldsMeans(es, v, n, field)
  {
    hide MeanOf, Decomposition.Column;
  }

  // ---------------------------------------------------------------- splitting, then applying

  /** On its own cells, a rank gets what the undivided output would give; on all others it changes nothing. */
  lemma RankAppliesA(d: Decomposition, es: seq<Element>, r: nat, v: nat, c: int, was: real)
    requires d.Valid() && forall k :: 0 <= k < |es| ==> v < |es[k].vals|
    ensures forall k :: 0 <= k < |Kept(d, es, r)| ==> v < |Kept(d, es, r)[k].vals|
    ensures AppliedA(Kept(d, es, r), v, c, was) == if d.DomainOf(c) == r then AppliedA(es, v, c, was) else was
  {
    hide Prod, Decomposition.DomainOf, Decomposition.Column, Kept, ValueSum, WeightSum;
    KeptMembers(d, es, r);
    assert forall k :: 0 <= k < |Kept(d, es, r)| ==> Kept(d, es, r)[k] in es;
    if d.DomainOf(c) == r {
      KeptSums(d, es, r, v, c);
      KeptTouches(d, es, r, c);
    }
  }

  lemma RankAppliesE(d: Decomposition, es: seq<Element>, r: nat, v: nat, c: int, was: real)
    requires d.Valid() && forall k :: 0 <= k < |es| ==> v < |es[k].vals|
    ensures forall k :: 0 <= k < |Kept(d, es, r)| ==> v < |Kept(d, es, r)[k].vals|
    ensures AppliedE(d, Kept(d, es, r), v, c, was) == if d.DomainOf(c) == r then AppliedE(d, es, v, c, was) else was
  {
    hide Prod, Decomposition.DomainOf, Decomposition.Column, Kept, ValueSum, WeightSum;
    KeptMembers(d, es, r);
    var kept := Kept(d, es, r);
    assert forall k :: 0 <= k < |kept| ==> kept[k] in es;
    if d.DomainOf(c) == r {
      KeptSums(d, es, r, v, c);
      KeptTouches(d, es, r, c);
    } else {
      SameRank(d, c);
      forall k | 0 <= k < |kept| ensures d.Column(kept[k].ix) != d.Column(c) {
        assert kept[k] in kept;
        SameRank(d, kept[k].ix);
      }
    }
  }
}
