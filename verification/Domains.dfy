/**
 The output of the coupler is split over the MPI ranks of the climate model and applied by each of them
 (slib/icebin/modele/GCMCoupler_ModelE.cpp, slib/icebin/multivec.cpp).
 */
module Domains {
  import opened Ints
  import opened Vectors

  /** One element of a VectorMultivec: a grid cell with a value for every variable, and a weight. */
  datatype Element = Element(ix: int, vals: seq<real>, weight: real)

  // ---------------------------------------------------------------- domains

  /** rank holds the MPI rank of every latitude row, counted from 0. */
  datatype Decomposition = Decomposition(im: nat, jm: nat, rank: seq<nat>) {

    ghost predicate Valid() { im > 0 && jm > 0 && |rank| == jm }

    /** get_domain, for an index of an atmosphere cell or of an elevation cell. */
    function DomainOf(ix: int): (r: nat)
      requires Valid()
    {
      DivMod(Quot(ix, im), jm);
      rank[Rem(Quot(ix, im), jm)]
    }

    /** Index of the atmosphere cell below an elevation cell, where the class has the largest stride. */
    function Column(ix: int): int
      requires Valid()
    {
      TimesPositive(jm, im);
      Rem(ix, Times(jm, im))
    }
  }

  /** Index of class ihc of atmosphere cell (i, j), where i has the smallest stride and the class the largest. */
  function IndexOf(im: nat, jm: nat, i: nat, j: nat, ihc: nat): int
  {
    Times(Times(ihc, jm) + j, im) + i
  }

  /** get_domain looks up the row of the cell, whatever its column and class; Column takes the class off. */
  lemma DomainOfCell(d: Decomposition, i: nat, j: nat, ihc: nat)
    requires d.Valid() && i < d.im && j < d.jm
    ensures d.DomainOf(IndexOf(d.im, d.jm, i, j, ihc)) == d.rank[j]
    ensures d.Column(IndexOf(d.im, d.jm, i, j, ihc)) == IndexOf(d.im, d.jm, i, j, 0)
  {
    hide Times, Quot, Rem;
    QuotRemUnique(Times(ihc, d.jm) + j, d.im, i);
    QuotRemUnique(ihc, d.jm, j);
    TimesPositive(d.jm, d.im);
    TimesPlus(Times(ihc, d.jm), j, d.im);
    TimesAssoc(ihc, d.jm, d.im);
    TimesBound(j, d.jm, d.im, i);
    TimesFacts(d.jm, d.im, 0);
    TimesFacts(d.im, d.jm, 0);
    TimesFacts(0, d.jm, 0);
    QuotRemUnique(ihc, Times(d.jm, d.im), Times(j, d.im) + i);
  }

  /** Row j goes to the rank whose range of rows it lies in. */
  ghost predicate RanksOf(rank: seq<nat>, endj: seq<int>)
  {
    forall j :: 0 <= j < |rank| ==>
      rank[j] < |endj| && j < endj[rank[j]] && (rank[j] > 0 ==> endj[rank[j] - 1] <= j)
  }

  class DomainDecomposer {
    const im: nat
    const jm: nat
    const ndomain: nat
    var rankOfJ: array<nat>

    /** endj holds the row after the last one of every domain. */
    constructor (endj: seq<int>, im: nat, jm: nat)
      requires |endj| > 0 && endj[|endj| - 1] == jm && im > 0 && jm > 0
      requires endj[0] >= 0 && forall r, s :: 0 <= r < s < |endj| ==> endj[r] <= endj[s]
      ensures Valid() && fresh(rankOfJ) && this.im == im && this.jm == jm && ndomain == |endj|
      ensures RanksOf(rankOfJ[..], endj)
    {
      this.im, this.jm, ndomain := im, jm, |endj|;
      rankOfJ := new nat[jm](_ => 0);
      new;
      var j := 0;
      for irank := 0 to |endj|
        invariant fresh(rankOfJ) && rankOfJ.Length == jm
        invariant 0 <= j <= jm && (irank > 0 ==> j == endj[irank - 1]) && (irank == 0 ==> j == 0)
        invariant forall l :: 0 <= l < j ==>
                    rankOfJ[l] < irank && l < endj[rankOfJ[l]] && (rankOfJ[l] > 0 ==> endj[rankOfJ[l] - 1] <= l)
      {
        while j < endj[irank]
          invariant fresh(rankOfJ) && rankOfJ.Length == jm
          invariant 0 <= j <= endj[irank] <= jm && (irank > 0 ==> endj[irank - 1] <= j)
          invariant forall l :: 0 <= l < j ==>
                      rankOfJ[l] <= irank && l < endj[rankOfJ[l]] && (rankOfJ[l] > 0 ==> endj[rankOfJ[l] - 1] <= l)
        {
          rankOfJ[j] := irank;
          j := j + 1;
        }
      }
    }

    ghost predicate Valid()
      reads this, rankOfJ
    {
      im > 0 && jm > 0 && rankOfJ.Length == jm
    }

    ghost function Value(): Decomposition
      reads this, rankOfJ
    {
      Decomposition(im, jm, rankOfJ[..])
    }

    method GetDomain(ix: int) returns (r: nat)
      requires Valid() && ix >= 0
      ensures Value().Valid() && r == Value().DomainOf(ix)
      ensures forall i: nat, j: nat, ihc: nat ::
                i < im && j < jm && ix == IndexOf(im, jm, i, j, ihc) ==> r == rankOfJ[j]
      ensures forall endj, i: nat, j: nat, ihc: nat ::
                RanksOf(rankOfJ[..], endj) && i < im && j < jm && ix == IndexOf(im, jm, i, j, ihc) ==>
                  r < |endj| && j < endj[r] && (r > 0 ==> endj[r - 1] <= j)
    {
      var j := Rem(Quot(ix, im), jm);
      DivMod(Quot(ix, im), jm);
      r := rankOfJ[j];
      forall i: nat, l: nat, ihc: nat | i < im && l < jm && ix == IndexOf(im, jm, i, l, ihc) ensures r == rankOfJ[l] {
        DomainOfCell(Value(), i, l, ihc);
      }
    }
  }

  /** An elevation cell goes to the rank of its atmosphere cell, and so do all classes of that cell. */
  lemma SameRank(d: Decomposition, ix: int)
    requires d.Valid()
    ensures d.DomainOf(ix) == d.DomainOf(d.Column(ix))
  {
    hide Times, Quot, Rem;
    var n := Times(d.jm, d.im);
    TimesPositive(d.jm, d.im);
    DivMod(ix, n);
    var q, r := Quot(ix, n), Rem(ix, n);
    DivMod(r, d.im);
    var a, b := Quot(r, d.im), Rem(r, d.im);
    QuotBoundSwapped(r, d.im, d.jm);
    TimesAssoc(q, d.jm, d.im);
    TimesPlus(Times(q, d.jm), a, d.im);
    QuotRemUnique(Times(q, d.jm) + a, d.im, b);
    QuotRemUnique(q, d.jm, a);
    RemSmall(a, d.jm);
  }

  lemma QuotBoundSwapped(x: int, b: int, e: int)
    requires b > 0 && 0 <= x < Times(e, b)
    ensures 0 <= Quot(x, b) < e
  {
    hide Quot, Times;
    TimesFacts(e, b, 0);
    QuotBound(x, b, e);
  }

  // ---------------------------------------------------------------- weighted sums

  /** Summed weight of the elements of cell c. */
  ghost function WeightSum(es: seq<Element>, c: int): real
  {
    if |es| == 0 then 0.0 else WeightSum(es[..|es| - 1], c) + if es[|es| - 1].ix == c then es[|es| - 1].weight else 0.0
  }

  /** Summed value of variable v over the elements of cell c. */
  ghost function ValueSum(es: seq<Element>, v: nat, c: int): real
    requires forall k :: 0 <= k < |es| ==> v < |es[k].vals|
  {
    if |es| == 0 then 0.0
    else ValueSum(es[..|es| - 1], v, c) + if es[|es| - 1].ix == c then es[|es| - 1].vals[v] else 0.0
  }

  /** What to_dense_scale leaves for a cell: the inverse weight. */
  ghost function Scale(es: seq<Element>, c: int): real { Recip(WeightSum(es, c)) }

  /** Summed value times inverse weight: the weighted mean of a cell. */
  ghost function MeanOf(es: seq<Element>, v: nat, c: int): real
    requires forall k :: 0 <= k < |es| ==> v < |es[k].vals|
  {
    Prod(ValueSum(es, v, c), Scale(es, c))
  }

  ghost predicate Touched(es: seq<Element>, c: int)
  {
    exists k :: 0 <= k < |es| && es[k].ix == c
  }

  ghost predicate ColumnTouched(d: Decomposition, es: seq<Element>, c: int)
    requires d.Valid()
  {
    exists k :: 0 <= k < |es| && d.Column(es[k].ix) == d.Column(c)
  }

  // ---------------------------------------------------------------- splitting

  /** The elements that go to a rank, in their order. */
  ghost function Kept(d: Decomposition, es: seq<Element>, r: nat): seq<Element>
    requires d.Valid()
  {
    if |es| == 0 then []
    else
      var e := es[|es| - 1];
      Kept(d, es[..|es| - 1], r) + if d.DomainOf(e.ix) == r then [e] else []
  }

  lemma {:induction false} KeptMembers(d: Decomposition, es: seq<Element>, r: nat)
    requires d.Valid()
    ensures forall e :: e in Kept(d, es, r) <==> e in es && d.DomainOf(e.ix) == r
  {
    hide Decomposition.DomainOf;
    if |es| > 0 {
      KeptMembers(d, es[..|es| - 1], r);
      assert es == es[..|es| - 1] + [es[|es| - 1]];
    }
  }

  /** A rank gets all elements of its own cells: their sums are the sums over the undivided output. */
  lemma {:induction false} KeptSums(d: Decomposition, es: seq<Element>, r: nat, v: nat, c: int)
    requires d.Valid() && d.DomainOf(c) == r && forall k :: 0 <= k < |es| ==> v < |es[k].vals|
    ensures forall k :: 0 <= k < |Kept(d, es, r)| ==> v < |Kept(d, es, r)[k].vals|
    ensures WeightSum(Kept(d, es, r), c) == WeightSum(es, c)
    ensures ValueSum(Kept(d, es, r), v, c) == ValueSum(es, v, c)
  {
    hide Decomposition.DomainOf;
    if |es| > 0 {
      KeptSums(d, es[..|es| - 1], r, v, c);
      var kept := Kept(d, es, r);
      if d.DomainOf(es[|es| - 1].ix) == r {
        assert kept[..|kept| - 1] == Kept(d, es[..|es| - 1], r);
      } else {
        assert kept == Kept(d, es[..|es| - 1], r);
      }
    }
  }

  lemma KeptTouches(d: Decomposition, es: seq<Element>, r: nat, c: int)
    requires d.Valid() && d.DomainOf(c) == r
    ensures Touched(Kept(d, es, r), c) <==> Touched(es, c)
    ensures ColumnTouched(d, Kept(d, es, r), c) <==> ColumnTouched(d, es, c)
  {
    hide Decomposition.DomainOf, Decomposition.Column, Kept;
    KeptMembers(d, es, r);
    var kept := Kept(d, es, r);
    forall e | e in kept ensures e in es {}
    forall k | 0 <= k < |es| && (es[k].ix == c || d.Column(es[k].ix) == d.Column(c))
      ensures exists l :: 0 <= l < |kept| && kept[l] == es[k]
    {
      SameRank(d, es[k].ix);
      SameRank(d, c);
      assert es[k] in kept;
    }
  }

  /** Every element goes to exactly one rank. */
  lemma OneRank(d: Decomposition, es: seq<Element>, e: Element, r: nat)
    requires d.Valid() && e in es
    ensures e in Kept(d, es, r) <==> r == d.DomainOf(e.ix)
  {
    KeptMembers(d, es, r);
  }
}
