/**
 The polar rows of a regridded field (mean_polar in slib/icebin/modele/hntr.hpp): each is replaced by its longitudinal
 mean, or is missing altogether if one of its cells is.
 */
module HntrPolar {
  import opened Vectors
  import opened Ints

  ghost function RowMean(row: seq<real>, datmis: real): real
  {
    if |row| == 0 || datmis in row then datmis else Sum(row) / (|row| as real)
  }

  /** b with the im values from lo on replaced by v. */
  ghost function WithRow(b: seq<real>, lo: nat, im: nat, v: real): (r: seq<real>)
    requires lo + im <= |b|
    ensures |r| == |b| && forall n :: 0 <= n < |b| ==> r[n] == if lo <= n < lo + im then v else b[n]
  {
    b[..lo] + Const(im, v) + b[lo + im..]
  }

  lemma RowInGrid(im: nat, jm: nat, jb: nat)
    requires 1 <= jb <= jm
    ensures 0 <= Times(im, jb - 1) && Times(im, jb - 1) + im <= Times(im, jm)
    ensures 1 < jb ==> im <= Times(im, jb - 1)
    ensures Times(im, 0) == 0
  {
    MulMonotone(jb, jm, im);
    assert im * jb == im * (jb - 1) + im;
    if 1 < jb { MulMonotone(1, jb - 1, im); }
  }

  ghost function MeanedRow(b: seq<real>, im: nat, jm: nat, jb: nat, datmis: real): (r: seq<real>)
    requires 1 <= jb <= jm && |b| == Times(im, jm)
    ensures |r| == |b|
  {
    RowInGrid(im, jm, jb);
    var lo := Times(im, jb - 1);
    WithRow(b, lo, im, RowMean(b[lo..lo + im], datmis))
  }

  /** The first and the last row meaned. */
  ghost function PolarMeans(b: seq<real>, im: nat, jm: nat, datmis: real): (r: seq<real>)
    requires jm >= 2 && |b| == Times(im, jm)
    ensures |r| == |b|
  {
    MeanedRow(MeanedRow(b, im, jm, 1, datmis), im, jm, jm, datmis)
  }

  /** The mean of the im values from lo on, or datmis as soon as one of them is missing. */
  method MeanOfRow(b: array<real>, lo: nat, im: nat, datmis: real) returns (bmean: real)
    requires lo + im <= b.Length
    ensures bmean == RowMean(b[lo..lo + im], datmis)
  {
    ghost var row := b[lo..lo + im];
    bmean := datmis;
    var weight, value := 0.0, 0.0;
    var ib := 1;
    while ib <= im
      invariant 1 <= ib <= im + 1 && weight == (ib - 1) as real && value == Sum(row[..ib - 1])
      invariant datmis !in row[..ib - 1]
    {
      if b[ib + lo - 1] == datmis {
        assert row[ib - 1] == datmis;
        return;
      }
      NextValue(row, ib);
      weight := weight + 1.0;
      value := value + b[ib + lo - 1];
      ib := ib + 1;
    }
    assert row[..im] == row;
    if weight != 0.0 { bmean := value / weight; }
  }

  lemma NextValue(row: seq<real>, ib: nat)
    requires 1 <= ib <= |row|
    ensures Sum(row[..ib]) == Sum(row[..ib - 1]) + row[ib - 1] && row[..ib] == row[..ib - 1] + [row[ib - 1]]
  {
    assert row[..ib][..ib - 1] == row[..ib - 1];
  }

  /** The body of the loop over the two polar rows. */
  method MeanRow(b: array<real>, im: nat, jm: nat, jb: nat, datmis: real)
    requires 1 <= jb <= jm && b.Length == Times(im, jm)
    modifies b
    ensures b[..] == MeanedRow(old(b[..]), im, jm, jb, datmis)
  {
    hide Times, WithRow, RowMean;
    RowInGrid(im, jm, jb);
    ghost var was := b[..];
    var lo := Times(im, jb - 1);
    var bmean := MeanOfRow(b, lo, im, datmis);
    assert was[lo..lo + im] == b[lo..lo + im];
    for ib := 1 to im + 1
      invariant forall n :: 0 <= n < b.Length ==> b[n] == if lo <= n < lo + ib - 1 then bmean else was[n]
    {
      b[ib + lo - 1] := bmean;
    }
  }

  /** The mean_polar part of regrid; with a single row the program never leaves this loop. */
  method MeanPolar(b: array<real>, im: nat, jm: nat, datmis: real)
    requires jm >= 2 && b.Length == Times(im, jm)
    modifies b
    ensures b[..] == PolarMeans(old(b[..]), im, jm, datmis)
  {
    hide Times, MeanedRow;
    ghost var was := b[..];
    var jb := 1;
    while jb <= jm
      invariant jb in {1, jm, jm + jm - 1}
      invariant b[..] == if jb == 1 then was
                         else if jb == jm then MeanedRow(was, im, jm, 1, datmis)
                         else PolarMeans(was, im, jm, datmis)
      decreases jm + jm - jb
    {
      MeanRow(b, im, jm, jb, datmis);
      jb := jb + jm - 1;
    }
  }

  // ---------------------------------------------------------------- what it does and keeps

  lemma RowMeanIs(row: seq<real>, datmis: real)
    ensures datmis in row ==> RowMean(row, datmis) == datmis
    ensures datmis !in row && |row| > 0 ==> Prod(|row| as real, RowMean(row, datmis)) == Sum(row)
  {
    hide Prod, Sum;
    if |row| > 0 { TimesMean(|row| as real, Sum(row)); }
  }

  /** One missing value makes its whole polar row missing; the other polar rows hold their mean; the rest stays. */
  lemma PolarRows(b: seq<real>, im: nat, jm: nat, datmis: real, n: nat)
    requires jm >= 2 && |b| == Times(im, jm) && n < |b|
    ensures im > 0 && Times(im, jm - 1) >= 0 && Times(im, jm) == Times(im, jm - 1) + im
    ensures var row := if n < im then b[..im] else b[Times(im, jm - 1)..];
            var v := PolarMeans(b, im, jm, datmis)[n];
      if im <= n < Times(im, jm - 1) then v == b[n]
      else if datmis in row then v == datmis
      else Prod(im as real, v) == Sum(row)
  {
    hide Times, Prod, Sum, RowMean;
    RowInGrid(im, jm, 1);
    RowInGrid(im, jm, jm);
    LastRow(im, jm);
    NoColumns(im, jm);
    var lo := Times(im, jm - 1);
    RowMeanIs(b[..im], datmis);
    RowMeanIs(b[lo..], datmis);
    assert b[0..0 + im] == b[..im];
    assert MeanedRow(b, im, jm, 1, datmis)[lo..lo + im] == b[lo..];
  }

  lemma NoColumns(im: nat, jm: nat)
    ensures im == 0 ==> Times(im, jm) == 0
  {
  }

  lemma {:induction false} SumConcat(s: seq<real>, t: seq<real>)
    ensures Sum(s + t) == Sum(s) + Sum(t)
  {
    if |t| == 0 {
      assert s + t == s;
    } else {
      SumConcat(s, t[..|t| - 1]);
      assert (s + t)[..|s + t| - 1] == s + t[..|t| - 1];
    }
  }

  lemma {:induction false} SumConst(n: nat, c: real)
    ensures Sum(Const(n, c)) == Prod(n as real, c)
  {
    hide Prod;
    if n == 0 {
      ProdConst(c);
    } else {
      SumConst(n - 1, c);
      assert Const(n, c)[..n - 1] == Const(n - 1, c);
      ProdPlus(c, (n - 1) as real, 1.0);
      ProdConst(c);
    }
  }

  lemma TimesMean(n: real, s: real)
    requires n > 0.0
    ensures Prod(n, s / n) == s
  {
  }

  /** Without missing values, a row keeps its total. */
  lemma MeanedRowTotal(b: seq<real>, im: nat, jm: nat, jb: nat, datmis: real)
    requires 1 <= jb <= jm && |b| == Times(im, jm)
    requires forall n :: Times(im, jb - 1) <= n < Times(im, jb - 1) + im && 0 <= n < |b| ==> b[n] != datmis
    ensures Sum(MeanedRow(b, im, jm, jb, datmis)) == Sum(b)
  {
    hide Times, Sum, Prod;
    RowInGrid(im, jm, jb);
    var lo := Times(im, jb - 1);
    var row, rest := b[lo..lo + im], b[lo + im..];
    assert b == b[..lo] + row + rest;
    SumConcat(b[..lo] + row, rest);
    SumConcat(b[..lo], row);
    var v := RowMean(row, datmis);
    SumConcat(b[..lo] + Const(im, v), rest);
    SumConcat(b[..lo], Const(im, v));
    SumConst(im, v);
    if im == 0 {
      assert row == Const(im, v);
    } else {
      TimesMean(im as real, Sum(row));
    }
  }

  /** No value of the two polar rows is missing. */
  ghost predicate PolesKnown(b: seq<real>, im: nat, datmis: real)
    requires im <= |b|
  {
    forall n :: 0 <= n < im || |b| - im <= n < |b| ==> b[n] != datmis
  }

  /** The means keep the total of the field, and so its area-weighted total, cells of one row being of one area. */
  lemma PolarMeansKeepTotal(b: seq<real>, im: nat, jm: nat, datmis: real)
    requires jm >= 2 && |b| == Times(im, jm) && im <= |b| && PolesKnown(b, im, datmis)
    ensures Sum(PolarMeans(b, im, jm, datmis)) == Sum(b)
  {
    hide Times, Sum, RowMean;
    RowInGrid(im, jm, 1);
    RowInGrid(im, jm, jm);
    LastRow(im, jm);
    MeanedRowTotal(b, im, jm, 1, datmis);
    MeanedRowTotal(MeanedRow(b, im, jm, 1, datmis), im, jm, jm, datmis);
  }

  lemma LastRow(im: nat, jm: nat)
    requires jm >= 1
    ensures Times(im, jm) == Times(im, jm - 1) + im
  {
  }

  lemma MeanOfConst(n: nat, v: real, datmis: real)
    requires n > 0
    ensures RowMean(Const(n, v), datmis) == v
  {
    hide Sum, Prod;
    SumConst(n, v);
    if v == datmis {
      assert Const(n, v)[0] == datmis;
    } else {
      ProdOver(n as real, v);
    }
  }

  lemma ProdOver(n: real, v: real)
    requires n > 0.0
    ensures Prod(n, v) / n == v
  {
  }

  /** A second pass changes nothing. */
  lemma PolarMeansTwice(b: seq<real>, im: nat, jm: nat, datmis: real)
    requires jm >= 2 && |b| == Times(im, jm)
    ensures PolarMeans(PolarMeans(b, im, jm, datmis), im, jm, datmis) == PolarMeans(b, im, jm, datmis)
  {
    hide Times, RowMean;
    RowInGrid(im, jm, 1);
    RowInGrid(im, jm, jm);
    var p := PolarMeans(b, im, jm, datmis);
    if im > 0 {
      var lo := Times(im, jm - 1);
      assert p[..im] == Const(im, p[0]) && p[lo..lo + im] == Const(im, p[lo]);
      MeanOfConst(im, p[0], datmis);
      MeanOfConst(im, p[lo], datmis);
      assert MeanedRow(p, im, jm, 1, datmis) == p;
    } else {
      assert MeanedRow(p, im, jm, 1, datmis) == p;
    }
  }
}
