/**
 Mixed-radix indexing of multi-dimensional grids (pylib/icebin/ibgrid.py), and the elevation-grid
 indexing derived from the atmosphere and (A, HC) indexings (slib/icebin/GCMRegridder.cpp).
 */
module Indexing {
  import opened Ints

  ghost predicate IsPermutation(s: seq<nat>, r: nat)
  {
    && |s| == r
    && (forall d :: 0 <= d < r ==> s[d] < r)
    && (forall c, d :: 0 <= c < d < r ==> s[c] != s[d])
    && forall k :: 0 <= k < r ==> k in s
  }

  /** indices lists the dimensions by descending stride. */
  datatype Shape = Shape(base: seq<int>, extent: seq<nat>, indices: seq<nat>) {
    ghost predicate Valid()
    {
      && |extent| > 0 && |base| == |extent|
      && (forall k :: 0 <= k < |extent| ==> extent[k] > 0)
      && |indices| == |extent| && (forall d :: 0 <= d < |extent| ==> indices[d] < |extent|)
      && IsPermutation(indices, |extent|)
    }

    function Rank(): nat { |extent| }

    /** The dimension whose stride is 1. */
    function Last(): nat
      requires Valid()
    {
      indices[Rank() - 1]
    }

    /** Number of index values below position d of the stride order: the stride of dimension indices[d - 1]. */
    ghost function Block(d: nat): (w: nat)
      requires Valid() && d <= Rank()
      ensures w > 0
      decreases Rank() - d
    {
      if d == Rank() then 1
      else
        TimesPositive(Block(d + 1), extent[indices[d]]);
        Times(Block(d + 1), extent[indices[d]])
    }

    ghost function Size(): nat
      requires Valid()
    {
      Block(0)
    }

    ghost predicate InBox(t: seq<int>)
      requires Valid()
    {
      |t| == Rank() && forall k :: 0 <= k < Rank() ==> base[k] <= t[k] < base[k] + extent[k]
    }

    /** Mixed-radix value of the digits of t from position d on. */
    ghost function Value(t: seq<int>, d: nat): int
      requires Valid() && |t| == Rank() && d <= Rank()
      decreases Rank() - d
    {
      if d == Rank() then 0
      else Times(t[indices[d]] - base[indices[d]], Block(d + 1)) + Value(t, d + 1)
    }

    /** What is left of ix after its first d digits are taken off. */
    ghost function Remainder(ix: int, d: nat): int
      requires Valid() && d < Rank()
    {
      if d == 0 then ix else Rem(Remainder(ix, d - 1), Block(d))
    }

    ghost function Digit(ix: int, d: nat): int
      requires Valid() && d < Rank()
    {
      Quot(Remainder(ix, d), Block(d + 1))
    }

    /** What the program stores for position d: the digit plus its base, except in the fastest dimension. */
    ghost function Stored(ix: int, d: nat): int
      requires Valid() && d < Rank()
    {
      Digit(ix, d) + if d == Rank() - 1 then 0 else base[indices[d]]
    }

    ghost predicate HoldsDigits(t: seq<int>, ix: int)
      requires Valid()
    {
      |t| == Rank() && forall d :: 0 <= d < Rank() ==> t[indices[d]] == Stored(ix, d)
    }
  }

  // ---------------------------------------------------------------- sums in permuted order

  ghost function SumInts(f: seq<int>): int
  {
    if |f| == 0 then 0 else SumInts(f[..|f| - 1]) + f[|f| - 1]
  }

  lemma {:induction false} SumIntsUpdate(f: seq<int>, k: nat, v: int)
    requires k < |f|
    ensures SumInts(f[k := v]) == SumInts(f) - f[k] + v
  {
    var n := |f| - 1;
    if k < n {
      SumIntsUpdate(f[..n], k, v);
      assert f[k := v][..n] == f[..n][k := v];
    } else {
      assert f[k := v][..n] == f[..n];
    }
  }

  lemma {:induction false} SumIntsZero(n: nat)
    ensures SumInts(seq(n, _ => 0)) == 0
  {
    if n > 0 {
      SumIntsZero(n - 1);
      assert seq(n, _ => 0)[..n - 1] == seq(n - 1, _ => 0);
    }
  }

  /** f with the elements whose index is not listed in s set to 0. */
  ghost function Masked(f: seq<int>, s: seq<nat>): (m: seq<int>)
    ensures |m| == |f|
  {
    seq(|f|, k requires 0 <= k < |f| => if k in s then f[k] else 0)
  }

  ghost function Gather(f: seq<int>, s: seq<nat>): (g: seq<int>)
    requires forall d :: 0 <= d < |s| ==> s[d] < |f|
    ensures |g| == |s| && forall d :: 0 <= d < |s| ==> g[d] == f[s[d]]
  {
    seq(|s|, d requires 0 <= d < |s| => f[s[d]])
  }

  lemma {:induction false} SumMasked(f: seq<int>, s: seq<nat>)
    requires forall d :: 0 <= d < |s| ==> s[d] < |f|
    requires forall c, d :: 0 <= c < d < |s| ==> s[c] != s[d]
    ensures SumInts(Masked(f, s)) == SumInts(Gather(f, s))
  {
    if |s| == 0 {
      SumIntsZero(|f|);
      assert Masked(f, s) == seq(|f|, _ => 0);
    } else {
      var n := |s| - 1;
      SumMasked(f, s[..n]);
      assert s[n] !in s[..n];
      assert Masked(f, s) == Masked(f, s[..n])[s[n] := f[s[n]]];
      SumIntsUpdate(Masked(f, s[..n]), s[n], f[s[n]]);
      assert Gather(f, s)[..n] == Gather(f, s[..n]);
    }
  }

  /** A sum does not depend on the order in which a permutation visits its terms. */
  lemma SumPermuted(f: seq<int>, s: seq<nat>)
    requires IsPermutation(s, |f|)
    ensures SumInts(f) == SumInts(Gather(f, s))
  {
    SumMasked(f, s);
    MaskedAll(f, s);
  }

  lemma MaskedAll(f: seq<int>, s: seq<nat>)
    requires forall k :: 0 <= k < |f| ==> k in s
    ensures Masked(f, s) == f
  {
  }

  // ---------------------------------------------------------------- the class

  class Indexer {
    const shape: Shape
    const strides: array<int>

    ghost predicate Valid()
      reads this, strides
    {
      && shape.Valid() && strides.Length == shape.Rank()
      && forall d :: 0 <= d < shape.Rank() ==> strides[shape.indices[d]] == shape.Block(d + 1)
    }

    constructor (base: seq<int>, extent: seq<nat>, indices: seq<nat>)
      requires Shape(base, extent, indices).Valid()
      ensures Valid() && shape == Shape(base, extent, indices) && fresh(strides)
    {
      shape := Shape(base, extent, indices);
      strides := new int[|extent|];
      new;
      MakeStrides();
    }

    method MakeStrides()
      requires shape.Valid() && strides.Length == shape.Rank()
      modifies strides
      ensures Valid()
    {
      hide Times, Quot, Rem;
      var rank := shape.Rank();
      var ind := shape.indices;
      strides[ind[rank - 1]] := 1;
      assert shape.Block(rank) == 1;
      var d := rank as int - 2;
      while d >= 0
        invariant -1 <= d <= rank - 2
        invariant forall c :: d < c < rank ==> strides[ind[c]] == shape.Block(c + 1)
      {
        assert shape.Block(d + 1) == Times(shape.Block(d + 2), shape.extent[ind[d + 1]]);
        strides[ind[d]] := Times(strides[ind[d + 1]], shape.extent[ind[d + 1]]);
        d := d - 1;
      }
    }

    method TupleToIndex(t: seq<int>) returns (ix: int)
      requires Valid() && |t| == shape.Rank()
      ensures ix == shape.Value(t, 0)
    {
      hide Times, Quot, Rem, IsPermutation;
      ghost var terms := DimensionTerms(shape, t, strides[..]);
      ix := 0;
      for k := 0 to shape.Rank()
        invariant ix == SumInts(terms[..k])
      {
        assert terms[..k + 1][..k] == terms[..k];
        ix := ix + Times(t[k] - shape.base[k], strides[k]);
      }
      assert terms[..shape.Rank()] == terms;
      SumPermuted(terms, shape.indices);
      ValueIsSum(shape, t, 0);
      GatherTerms(shape, t, strides[..]);
      SumTailIsSum(Terms(shape, t));
    }

    method IndexToTuple(ix0: int) returns (t: seq<int>)
      requires Valid()
      ensures shape.HoldsDigits(t, ix0)
    {
      hide Times, Quot, Rem, IsPermutation;
      var rank := shape.Rank();
      var ind := shape.indices;
      var ix := ix0;
      t := seq(rank, _ => 0);
      for d := 0 to rank - 1
        invariant |t| == rank && ix == shape.Remainder(ix0, d)
        invariant forall c :: 0 <= c < d ==> t[ind[c]] == shape.Stored(ix0, c)
      {
        var k := ind[d];
        DistinctIndices(shape, d);
        var q := Quot(ix, strides[k]);
        DivMod(ix, strides[k]);
        ix := ix - Times(q, strides[k]);
        t := t[k := q + shape.base[k]];
      }
      DistinctIndices(shape, rank - 1);
      t := t[ind[rank - 1] := ix];
      assert shape.Block(rank) == 1;
      assert shape.Stored(ix0, rank - 1) == ix by { QuotOne(ix); }
    }
  }

  lemma DistinctIndices(s: Shape, d: nat)
    requires s.Valid() && d < s.Rank()
    ensures forall c :: 0 <= c < d ==> s.indices[c] != s.indices[d]
  {
  }

  /** The summands of tuple_to_index, in the order of the dimensions. */
  ghost function DimensionTerms(s: Shape, t: seq<int>, strides: seq<int>): (g: seq<int>)
    requires s.Valid() && |t| == s.Rank() == |strides|
    ensures |g| == s.Rank()
  {
    seq(s.Rank(), k requires 0 <= k < s.Rank() => Times(t[k] - s.base[k], strides[k]))
  }

  ghost function SumTail(f: seq<int>, d: nat): int
    requires d <= |f|
    decreases |f| - d
  {
    if d == |f| then 0 else f[d] + SumTail(f, d + 1)
  }

  lemma {:induction false} SumTailSplit(f: seq<int>, d: nat)
    requires d <= |f|
    ensures SumInts(f[..d]) + SumTail(f, d) == SumInts(f)
    decreases |f| - d
  {
    if d == |f| {
      assert f[..d] == f;
    } else {
      SumTailSplit(f, d + 1);
      assert f[..d + 1][..d] == f[..d];
    }
  }

  lemma SumTailIsSum(f: seq<int>)
    ensures SumTail(f, 0) == SumInts(f)
  {
    SumTailSplit(f, 0);
  }

  /** The summands of Value, in the order of the stride positions. */
  ghost function Terms(s: Shape, t: seq<int>): (g: seq<int>)
    requires s.Valid() && |t| == s.Rank()
    ensures |g| == s.Rank()
  {
    seq(s.Rank(), c requires 0 <= c < s.Rank() => Times(t[s.indices[c]] - s.base[s.indices[c]], s.Block(c + 1)))
  }

  lemma GatherTerms(s: Shape, t: seq<int>, strides: seq<int>)
    requires s.Valid() && |t| == s.Rank() == |strides|
    requires forall d :: 0 <= d < s.Rank() ==> strides[s.indices[d]] == s.Block(d + 1)
    ensures Gather(DimensionTerms(s, t, strides), s.indices) == Terms(s, t)
  {
    hide Times, Quot, Rem, IsPermutation;
    var f, g := DimensionTerms(s, t, strides), Terms(s, t);
    forall d | 0 <= d < s.Rank() ensures f[s.indices[d]] == g[d] {
      var k := s.indices[d];
      assert f[k] == Times(t[k] - s.base[k], strides[k]);
    }
    assert Gather(f, s.indices) == g;
  }

  lemma {:induction false} ValueIsSum(s: Shape, t: seq<int>, d: nat)
    requires s.Valid() && |t| == s.Rank() && d <= s.Rank()
    ensures s.Value(t, d) == SumTail(Terms(s, t), d)
    decreases s.Rank() - d
  {
    hide Times, Quot, Rem, IsPermutation;
    if d < s.Rank() {
      ValueIsSum(s, t, d + 1);
    }
  }

  // ---------------------------------------------------------------- round trips

  lemma BlockStep(s: Shape, d: nat)
    requires s.Valid() && d < s.Rank()
    ensures s.Block(d) == Times(s.Block(d + 1), s.extent[s.indices[d]])
  {
  }

  lemma {:induction false} ValueBound(s: Shape, t: seq<int>, d: nat)
    requires s.Valid() && s.InBox(t) && d <= s.Rank()
    ensures 0 <= s.Value(t, d) < s.Block(d)
    decreases s.Rank() - d
  {
    hide Times, Quot, Rem, IsPermutation;
    if d < s.Rank() {
      ValueBound(s, t, d + 1);
      BlockStep(s, d);
      var k := s.indices[d];
      TimesBound(t[k] - s.base[k], s.extent[k], s.Block(d + 1), s.Value(t, d + 1));
    }
  }

  lemma {:induction false} RemainderOfValue(s: Shape, t: seq<int>, d: nat)
    requires s.Valid() && s.InBox(t) && d < s.Rank()
    ensures s.Remainder(s.Value(t, 0), d) == s.Value(t, d)
    ensures s.Digit(s.Value(t, 0), d) == t[s.indices[d]] - s.base[s.indices[d]]
  {
    hide Times, Quot, Rem, IsPermutation;
    if d > 0 {
      RemainderOfValue(s, t, d - 1);
      ValueBound(s, t, d);
      QuotRemUnique(t[s.indices[d - 1]] - s.base[s.indices[d - 1]], s.Block(d), s.Value(t, d));
    }
    ValueBound(s, t, d + 1);
    QuotRemUnique(t[s.indices[d]] - s.base[s.indices[d]], s.Block(d + 1), s.Value(t, d + 1));
  }

  /** index_to_tuple undoes tuple_to_index exactly when the fastest dimension has base 0. */
  lemma TupleRoundTrip(s: Shape, t: seq<int>, u: seq<int>)
    requires s.Valid() && s.InBox(t)
    requires s.HoldsDigits(u, s.Value(t, 0))
    ensures 0 <= s.Value(t, 0) < s.Size()
    ensures u == t <==> s.base[s.Last()] == 0
  {
    ValueBound(s, t, 0);
    forall d | 0 <= d < s.Rank()
      ensures u[s.indices[d]] == t[s.indices[d]] - if d == s.Rank() - 1 then s.base[s.Last()] else 0
    {
      RemainderOfValue(s, t, d);
    }
    if s.base[s.Last()] == 0 {
      forall k | 0 <= k < s.Rank() ensures u[k] == t[k] {
        assert k in s.indices;
      }
    }
  }

  lemma {:induction false} RemainderBound(s: Shape, ix: int, d: nat)
    requires s.Valid() && 0 <= ix < s.Size() && d < s.Rank()
    ensures 0 <= s.Remainder(ix, d) < s.Block(d)
    ensures 0 <= s.Digit(ix, d) < s.extent[s.indices[d]]
  {
    hide Times, Quot, Rem, IsPermutation;
    if d > 0 {
      RemainderBound(s, ix, d - 1);
      DivMod(s.Remainder(ix, d - 1), s.Block(d));
    }
    BlockStep(s, d);
    QuotBound(s.Remainder(ix, d), s.Block(d + 1), s.extent[s.indices[d]]);
  }

  lemma {:induction false} ValueOfRemainder(s: Shape, u: seq<int>, ix: int, d: nat)
    requires s.Valid() && 0 <= ix < s.Size() && d < s.Rank()
    requires s.HoldsDigits(u, ix)
    ensures s.Value(u, d) == s.Remainder(ix, d) - s.base[s.Last()]
    decreases s.Rank() - d
  {
    hide Times, Quot, Rem, IsPermutation;
    DivMod(s.Remainder(ix, d), s.Block(d + 1));
    assert s.Block(s.Rank()) == 1;
    if d < s.Rank() - 1 {
      ValueOfRemainder(s, u, ix, d + 1);
    } else {
      QuotOne(s.Remainder(ix, d));
      TimesOne(u[s.Last()] - s.base[s.Last()]);
    }
  }

  /** tuple_to_index undoes index_to_tuple, and stays in the index box, exactly when the fastest base is 0. */
  lemma IndexRoundTrip(s: Shape, ix: int, u: seq<int>)
    requires s.Valid() && 0 <= ix < s.Size()
    requires s.HoldsDigits(u, ix)
    ensures s.Value(u, 0) == ix <==> s.base[s.Last()] == 0
    ensures s.base[s.Last()] == 0 ==> s.InBox(u)
  {
    ValueOfRemainder(s, u, ix, 0);
    if s.base[s.Last()] == 0 {
      forall k | 0 <= k < s.Rank() ensures s.base[k] <= u[k] < s.base[k] + s.extent[k] {
        assert k in s.indices;
        var d :| 0 <= d < s.Rank() && s.indices[d] == k;
        RemainderBound(s, ix, d);
      }
    }
  }

  // ---------------------------------------------------------------- derive_indexingE

  ghost predicate ColumnMajor(s: seq<nat>)
  {
    forall d :: 0 <= d < |s| ==> s[d] == |s| - 1 - d
  }

  /** hc is an (A, HC) indexing over the cells of a. */
  ghost predicate Stacks(a: Shape, hc: Shape)
  {
    a.Valid() && hc.Valid() && hc.Rank() == 2 && hc.base[0] == 0 && hc.extent[0] == a.Size()
  }

  /** The elevation grid has the dimensions of A followed by HC. */
  method DeriveIndexingE(a: Shape, hc: Shape) returns (e: Shape)
    requires Stacks(a, hc)
    ensures e.Valid() && Derived(a, hc, e)
  {
    var base := a.base + [hc.base[1]];
    var extent := a.extent + [hc.extent[1]];
    var indices := a.indices;
    if hc.indices[0] == 0 {
      indices := indices + [a.Rank()];
      forall k | 0 <= k < a.Rank() + 1 ensures k in indices {
        if k < a.Rank() { assert k in a.indices; }
      }
    } else {
      for d := 0 to |indices|
        invariant |indices| == a.Rank()
        invariant forall c :: 0 <= c < d ==> indices[c] == a.indices[c] + 1
        invariant forall c :: d <= c < a.Rank() ==> indices[c] == a.indices[c]
      {
        indices := indices[d := indices[d] + 1];
      }
      indices := indices + [0];
      forall k | 0 <= k < a.Rank() + 1 ensures k in indices {
        if k > 0 {
          assert k - 1 in a.indices;
          var d :| 0 <= d < a.Rank() && a.indices[d] == k - 1;
          assert indices[d] == k;
        } else {
          assert indices[a.Rank()] == 0;
        }
      }
    }
    e := Shape(base, extent, indices);
  }

  ghost predicate Derived(a: Shape, hc: Shape, e: Shape)
    requires a.Valid() && hc.Valid() && hc.Rank() == 2
  {
    && e.base == a.base + [hc.base[1]]
    && e.extent == a.extent + [hc.extent[1]]
    && |e.indices| == a.Rank() + 1
    && (hc.indices[0] == 0 ==> e.indices == a.indices + [a.Rank()])
    && (hc.indices[0] != 0 ==>
          e.indices[a.Rank()] == 0 && forall d :: 0 <= d < a.Rank() ==> e.indices[d] == a.indices[d] + 1)
  }

  /** The stride order of E is that of HC followed by A's own exactly when A is column-major. */
  lemma DerivedStrideOrder(a: Shape, hc: Shape, e: Shape)
    requires Stacks(a, hc) && e.Valid() && Derived(a, hc, e) && hc.indices[0] != 0
    ensures e.indices == [a.Rank()] + a.indices <==> ColumnMajor(a.indices)
  {
    hide IsPermutation;
    var r := a.Rank();
    if e.indices == [r] + a.indices {
      DescendingIsColumnMajor(a.indices, e.indices, 0);
    } else if ColumnMajor(a.indices) {
      forall d | 0 <= d < r + 1 ensures e.indices[d] == ([r] + a.indices)[d] {
      }
    }
  }

  lemma {:induction false} DescendingIsColumnMajor(s: seq<nat>, e: seq<nat>, d: nat)
    requires |s| > 0 && e == [|s|] + s
    requires forall c :: 0 <= c < |s| ==> e[c] == s[c] + 1
    requires d <= |s| && forall c :: 0 <= c < d ==> s[c] == |s| - 1 - c
    ensures ColumnMajor(s)
    decreases |s| - d
  {
    if d < |s| {
      assert e[d] == if d == 0 then |s| else s[d - 1];
      DescendingIsColumnMajor(s, e, d + 1);
    }
  }

  lemma {:induction false} AppendDigit(a: Shape, hc: Shape, e: Shape, t: seq<int>, h: int, d: nat)
    requires Stacks(a, hc) && e.Valid() && Derived(a, hc, e) && hc.indices[0] == 0
    requires |t| == a.Rank() && d <= a.Rank()
    ensures e.Block(d) == Times(a.Block(d), hc.extent[1])
    ensures e.Value(t + [h], d) == Times(a.Value(t, d), hc.extent[1]) + (h - hc.base[1])
    decreases a.Rank() - d
  {
    hide Times, Quot, Rem, IsPermutation;
    var r := a.Rank();
    assert e.indices[r] == r && e.Block(r + 1) == 1;
    if d == r {
      BlockStep(e, r);
      TimesFacts(h - hc.base[1], hc.extent[1], 0);
      TimesFacts(hc.extent[1], 0, 0);
      assert e.Value(t + [h], r + 1) == 0;
    } else {
      AppendDigit(a, hc, e, t, h, d + 1);
      BlockStep(e, d);
      BlockStep(a, d);
      var k := a.indices[d];
      assert e.indices[d] == k && (t + [h])[k] == t[k] && e.extent[k] == a.extent[k] && e.base[k] == a.base[k];
      TimesSwap(a.Block(d + 1), hc.extent[1], a.extent[k]);
      TimesAssoc(t[k] - a.base[k], a.Block(d + 1), hc.extent[1]);
      TimesPlus(Times(t[k] - a.base[k], a.Block(d + 1)), a.Value(t, d + 1), hc.extent[1]);
    }
  }

  /** e has the dimensions of a, followed by that of hc. */
  ghost predicate Extends(a: Shape, hc: Shape, e: Shape)
    requires hc.Valid() && hc.Rank() == 2
  {
    e.base == a.base + [hc.base[1]] && e.extent == a.extent + [hc.extent[1]]
  }

  lemma SharedDimension(a: Shape, hc: Shape, e: Shape, t: seq<int>, h: int, k: nat)
    requires Stacks(a, hc) && e.Valid() && Extends(a, hc, e) && k < a.Rank() == |t|
    ensures (t + [h])[k] == t[k] && e.extent[k] == a.extent[k] && e.base[k] == a.base[k]
  {
    hide IsPermutation;
  }

  lemma PrependShape(a: Shape, hc: Shape, e: Shape)
    requires Stacks(a, hc) && e.Valid() && Extends(a, hc, e)
    ensures a.Valid() && hc.Valid() && e.Rank() == a.Rank() + 1
  {
  }

  lemma {:induction false} PrependDigit(a: Shape, hc: Shape, e: Shape, t: seq<int>, h: int, d: nat)
    requires Stacks(a, hc) && e.Valid() && Extends(a, hc, e)
    requires forall c :: 0 <= c < a.Rank() ==> e.indices[c + 1] == a.indices[c]
    requires |t| == a.Rank() && d <= a.Rank()
    ensures e.Block(d + 1) == a.Block(d)
    ensures e.Value(t + [h], d + 1) == a.Value(t, d)
    decreases a.Rank() - d
  {
    hide Times, Quot, Rem, IsPermutation, Stacks, Shape.Valid;
    PrependShape(a, hc, e);
    if d < a.Rank() {
      PrependDigit(a, hc, e, t, h, d + 1);
      BlockStep(e, d + 1);
      BlockStep(a, d);
      var k := a.indices[d];
      SharedDimension(a, hc, e, t, h, k);
    }
  }

  lemma {:induction false} TwoDimensional(hc: Shape, i: int, h: int)
    requires hc.Valid() && hc.Rank() == 2 && hc.base[0] == 0
    ensures hc.Value([i, h], 0) == if hc.indices[0] == 0
                                   then Times(i, hc.extent[1]) + (h - hc.base[1])
                                   else Times(h - hc.base[1], hc.extent[0]) + i
  {
    hide Times, Quot, Rem;
    assert 0 in hc.indices && 1 in hc.indices;
    assert hc.Block(2) == 1 && hc.Value([i, h], 2) == 0;
    BlockStep(hc, 1);
    TimesFacts(hc.extent[0], 0, 0);
    TimesFacts(hc.extent[1], 0, 0);
    TimesFacts(i, 0, 0);
    TimesFacts(h - hc.base[1], 0, 0);
    assert hc.Value([i, h], 0)
         == Times([i, h][hc.indices[0]] - hc.base[hc.indices[0]], hc.Block(1)) + hc.Value([i, h], 1);
  }

  /**
   E indexing is HC indexing after A indexing when HC has the smallest stride, or when both are column-major.
   */
  lemma DerivedComposes(a: Shape, hc: Shape, e: Shape, t: seq<int>, h: int)
    requires Stacks(a, hc) && e.Valid() && Derived(a, hc, e) && |t| == a.Rank()
    requires hc.indices[0] == 0 || ColumnMajor(a.indices)
    ensures e.Value(t + [h], 0) == hc.Value([a.Value(t, 0), h], 0)
  {
    hide Times, Quot, Rem, IsPermutation;
    TwoDimensional(hc, a.Value(t, 0), h);
    if hc.indices[0] == 0 {
      AppendDigit(a, hc, e, t, h, 0);
    } else {
      ColumnMajorComposes(a, hc, e, t, h);
    }
  }

  lemma ColumnMajorComposes(a: Shape, hc: Shape, e: Shape, t: seq<int>, h: int)
    requires Stacks(a, hc) && e.Valid() && Derived(a, hc, e) && |t| == a.Rank()
    requires hc.indices[0] != 0 && ColumnMajor(a.indices)
    ensures e.Value(t + [h], 0) == Times(h - hc.base[1], hc.extent[0]) + a.Value(t, 0)
  {
    hide Times, Quot, Rem, IsPermutation, Shape.Value, Shape.Block;
    DerivedStrideOrder(a, hc, e);
    var r := a.Rank();
    assert e.indices[0] == r;
    forall c | 0 <= c < r ensures e.indices[c + 1] == a.indices[c] {
      assert e.indices[c + 1] == ([r] + a.indices)[c + 1];
    }
    PrependDigit(a, hc, e, t, h, 0);
    assert e.base[r] == hc.base[1] && (t + [h])[r] == h;
    FirstDigit(e, t + [h]);
  }

  lemma FirstDigit(e: Shape, t: seq<int>)
    requires e.Valid() && |t| == e.Rank()
    ensures e.Value(t, 0) == Times(t[e.indices[0]] - e.base[e.indices[0]], e.Block(1)) + e.Value(t, 1)
  {
    hide Times, IsPermutation;
  }

  // ---------------------------------------------------------------- exactly when the indexings agree

  /** The tuple whose digits are 0 but for a 1 in dimension k. */
  ghost function UnitTuple(s: Shape, k: nat): (t: seq<int>)
    requires s.Valid() && k < s.Rank()
    ensures |t| == s.Rank() && forall c :: 0 <= c < s.Rank() ==> t[c] - s.base[c] == if c == k then 1 else 0
  {
    s.base[k := s.base[k] + 1]
  }

  /** Its value is the stride of that dimension. */
  lemma {:induction false} UnitValue(s: Shape, p: nat, d: nat)
    requires s.Valid() && p < s.Rank() && d <= s.Rank()
    ensures s.Value(UnitTuple(s, s.indices[p]), d) == if d <= p then s.Block(p + 1) else 0
    decreases s.Rank() - d
  {
    hide Times, UnitTuple, Shape.Block;
    if d < s.Rank() {
      UnitValue(s, p, d + 1);
      TimesFacts(s.Block(d + 1), s.Block(d + 1), 0);
      assert s.indices[d] == s.indices[p] <==> d == p;
    }
  }

  ghost predicate Spread(s: Shape)
  {
    s.Valid() && forall k :: 0 <= k < s.Rank() ==> s.extent[k] > 1
  }

  lemma {:induction false} BlocksShrink(s: Shape, c: nat, d: nat)
    requires Spread(s) && c < d <= s.Rank()
    ensures s.Block(c) > s.Block(d)
    decreases d - c
  {
    hide IsPermutation, Shape.Block, Times;
    BlockStep(s, c);
    TimesGrows(s.Block(c + 1), s.extent[s.indices[c]]);
    if c + 1 < d {
      BlocksShrink(s, c + 1, d);
    }
  }

  lemma TimesGrows(b: int, e: int)
    requires b > 0 && e > 1
    ensures Times(b, e) > b
  {
    MulMonotone(2, e, b);
  }

  lemma {:induction false} SameBlocks(s: Shape, f: Shape, d: nat)
    requires s.Valid() && f.Valid() && s.extent == f.extent && d <= s.Rank()
    requires forall c :: d <= c < s.Rank() ==> s.indices[c] == f.indices[c]
    ensures s.Block(d) == f.Block(d)
    decreases s.Rank() - d
  {
    hide IsPermutation, Times;
    if d < s.Rank() {
      SameBlocks(s, f, d + 1);
    }
  }

  ghost predicate SameValues(s: Shape, f: Shape)
    requires s.Valid() && f.Valid() && s.Rank() == f.Rank()
  {
    forall t :: s.InBox(t) ==> s.Value(t, 0) == f.Value(t, 0)
  }

  /** If the strides below position d are in the same order, the values tell which dimension comes at d. */
  lemma SameDimension(s: Shape, f: Shape, d: nat)
    requires Spread(s) && f.Valid() && s.extent == f.extent && s.base == f.base && SameValues(s, f)
    requires d < s.Rank() && forall c :: d < c < s.Rank() ==> s.indices[c] == f.indices[c]
    ensures s.indices[d] == f.indices[d]
  {
    hide Shape.Value, Shape.Block;
    var k := f.indices[d];
    assert k in s.indices;
    var p: nat :| p < s.Rank() && s.indices[p] == k;
    if p < d {
      var t := UnitTuple(s, k);
      assert s.InBox(t);
      UnitValue(s, p, 0);
      UnitValue(f, d, 0);
      BlocksShrink(s, p + 1, d + 1);
      SameBlocks(s, f, d + 1);
    }
  }

  lemma {:induction false} SameOrder(s: Shape, f: Shape, d: nat)
    requires Spread(s) && f.Valid() && s.extent == f.extent && s.base == f.base && SameValues(s, f) && d <= s.Rank()
    ensures forall c :: d <= c < s.Rank() ==> s.indices[c] == f.indices[c]
    decreases s.Rank() - d
  {
    hide SameValues, IsPermutation;
    if d < s.Rank() {
      SameOrder(s, f, d + 1);
      SameDimension(s, f, d);
    }
  }

  /** Two indexings of a box with more than one cell in every dimension agree exactly if their stride orders do. */
  lemma ValuesFixTheOrder(s: Shape, f: Shape)
    requires Spread(s) && f.Valid() && s.extent == f.extent && s.base == f.base
    ensures SameValues(s, f) <==> s.indices == f.indices
  {
    hide IsPermutation, Shape.Value;
    if SameValues(s, f) {
      SameOrder(s, f, 0);
    }
  }

  /** The indexing of E that puts the classes above the cells, in A's own order. */
  ghost function ClassesFirst(a: Shape, e: Shape): (f: Shape)
    requires a.Valid() && e.Valid() && e.Rank() == a.Rank() + 1
    ensures f.Valid()
  {
    var f := Shape(e.base, e.extent, [a.Rank()] + a.indices);
    assert IsPermutation(f.indices, f.Rank()) by { PrependPermutes(a.indices); }
    f
  }

  lemma PrependPermutes(s: seq<nat>)
    requires IsPermutation(s, |s|)
    ensures IsPermutation([|s|] + s, |s| + 1)
  {
    forall k | 0 <= k < |s| + 1 ensures k in [|s|] + s {
      if k < |s| { assert k in s; }
    }
  }

  /** With HC above A, an (A, HC) index is an index in that order. */
  lemma ClassesFirstValue(a: Shape, hc: Shape, e: Shape, t: seq<int>, h: int)
    requires Stacks(a, hc) && e.Valid() && Derived(a, hc, e) && |t| == a.Rank() && hc.indices[0] != 0
    ensures ClassesFirst(a, e).Value(t + [h], 0) == hc.Value([a.Value(t, 0), h], 0)
  {
    hide Times, IsPermutation, Shape.Value, Shape.Block;
    var f, r := ClassesFirst(a, e), a.Rank();
    PrependDigit(a, hc, f, t, h, 0);
    assert f.indices[0] == r && e.base[r] == hc.base[1] && (t + [h])[r] == h;
    FirstDigit(f, t + [h]);
    TwoDimensional(hc, a.Value(t, 0), h);
  }

  /** Looking up E in one step gives what looking up A, then (A, HC), gives. */
  ghost predicate IndexingsAgree(a: Shape, hc: Shape, e: Shape)
    requires Stacks(a, hc) && e.Valid() && e.Rank() == a.Rank() + 1
  {
    forall t: seq<int>, h: int :: e.InBox(t + [h]) && |t| == a.Rank() ==>
      e.Value(t + [h], 0) == hc.Value([a.Value(t, 0), h], 0)
  }

  lemma AgreeingIsSameValues(a: Shape, hc: Shape, e: Shape)
    requires Stacks(a, hc) && e.Valid() && Derived(a, hc, e) && hc.indices[0] != 0
    ensures a.Valid() && e.Rank() == a.Rank() + 1
    ensures IndexingsAgree(a, hc, e) <==> SameValues(e, ClassesFirst(a, e))
  {
    hide Shape.Value, Shape.Block, IsPermutation, ClassesFirst, Shape.InBox, Derived, Shape.Valid;
    DerivedRank(a, hc, e);
    var f := ClassesFirst(a, e);
    if IndexingsAgree(a, hc, e) {
      forall u | e.InBox(u) ensures |u| == e.Rank() && e.Value(u, 0) == f.Value(u, 0) {
        BoxSize(e, u);
        var t, h := u[..a.Rank()], u[a.Rank()];
        assert u == t + [h];
        ClassesFirstValue(a, hc, e, t, h);
      }
    }
    if SameValues(e, f) {
      forall t: seq<int>, h: int | e.InBox(t + [h]) && |t| == a.Rank()
        ensures e.Value(t + [h], 0) == hc.Value([a.Value(t, 0), h], 0)
      {
        ClassesFirstValue(a, hc, e, t, h);
      }
    }
  }

  lemma DerivedRank(a: Shape, hc: Shape, e: Shape)
    requires Stacks(a, hc) && e.Valid() && Derived(a, hc, e)
    ensures a.Valid() && e.Rank() == a.Rank() + 1
    ensures var f := ClassesFirst(a, e); f.Rank() == e.Rank() && forall u :: f.InBox(u) <==> e.InBox(u)
  {
    hide IsPermutation;
  }

  lemma BoxSize(e: Shape, u: seq<int>)
    requires e.Valid() && e.InBox(u)
    ensures |u| == e.Rank()
  {
  }

  /**
   With more than one cell in every dimension, the derived indexing agrees with (A, HC) on every tuple exactly if HC
   has the smallest stride or A is column-major.
   */
  lemma AgreesExactly(a: Shape, hc: Shape, e: Shape)
    requires Stacks(a, hc) && Spread(e) && Derived(a, hc, e)
    ensures IndexingsAgree(a, hc, e) <==> hc.indices[0] == 0 || ColumnMajor(a.indices)
  {
    hide SameValues, Shape.Value, IsPermutation;
    if hc.indices[0] == 0 {
      forall t: seq<int>, h: int | e.InBox(t + [h]) && |t| == a.Rank()
        ensures e.Value(t + [h], 0) == hc.Value([a.Value(t, 0), h], 0)
      {
        DerivedComposes(a, hc, e, t, h);
      }
    } else {
      AgreeingIsSameValues(a, hc, e);
      ValuesFixTheOrder(e, ClassesFirst(a, e));
      DerivedStrideOrder(a, hc, e);
    }
  }

  /** A row-major A under a column-major (A, HC) is indexed differently. */
  lemma RowMajorDisagrees(a: Shape, hc: Shape, e: Shape)
    requires a == Shape([0, 0], [2, 3], [0, 1]) && hc == Shape([0, 0], [6, 2], [1, 0])
    requires Stacks(a, hc) && e.Valid() && Derived(a, hc, e)
    ensures e.Value([1, 0, 0], 0) == 1 && hc.Value([a.Value([1, 0], 0), 0], 0) == 3
  {
    hide IsPermutation;
    assert e.indices == [1, 2, 0] && e.extent == [2, 3, 2] && e.base == [0, 0, 0];
    assert e.Block(2) == 2;
    assert e.Value([1, 0, 0], 2) == 1;
    assert e.Value([1, 0, 0], 1) == 1;
    assert a.Block(1) == 3;
    assert a.Value([1, 0], 1) == 0;
    TwoDimensional(hc, 3, 0);
  }
}
