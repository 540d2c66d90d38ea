/**
 One-dimensional sweeps that cut the cells of a grid A at the cell edges of a grid B.

 B cell b covers A cells min[b]..max[b]; of cell min[b] the part low[b] lies before b, of cell max[b] the
 part high[b] lies after b.  Both sweeps of slib/icebin/modele/hntr.cpp have this form.  Cells are numbered
 from 1; element 0 of each sequence is unused.
 */
module Sweeps {
  import opened Vectors
  import opened Sums

  // ---------------------------------------------------------------- sweeps

  datatype Sweep = Sweep(min: seq<int>, max: seq<int>, low: seq<real>, high: seq<real>) {
    ghost predicate HasCells(n: int)
    {
      |min| == |max| == |low| == |high| == n + 1
    }

    /** The part of A cell k, of width w(k), that matrix() gives to B cell b. */
    function Part(w: int -> real, b: int, k: int): real
      requires 0 <= b < |min| && HasCells(|min| - 1)
    {
      w(k) - (if k == min[b] then low[b] else 0.0) - (if k == max[b] then high[b] else 0.0)
    }

    /** Integral of h over B cell b. */
    ghost function Row(w: int -> real, h: int -> real, b: int): real
    {
      if 0 <= b < |min| && HasCells(|min| - 1)
      then RangeSum(min[b], max[b] + 1, k => Prod(Part(w, b, k), h(k)))
      else 0.0
    }

    /** Integral of h up to the first edge of B cell b. */
    ghost function Start(w: int -> real, h: int -> real, b: int): real
    {
      if 0 <= b < |min| && HasCells(|min| - 1) then UpTo(w, h, min[b], low[b]) else 0.0
    }

    /** Integral of h up to the last edge of B cell b. */
    ghost function End(w: int -> real, h: int -> real, b: int): real
    {
      if 0 <= b < |min| && HasCells(|min| - 1) then UpTo(w, h, max[b], w(max[b]) - high[b]) else 0.0
    }

    /** Integral of h over B cells 1..n. */
    ghost function Rows(w: int -> real, h: int -> real, n: int): real
    {
      RangeSum(1, n + 1, b => Row(w, h, b))
    }

    /** Consecutive B cells meet at the same point, and every B cell has at least one A cell. */
    ghost predicate Linked(w: int -> real, n: nat)
    {
      && HasCells(n)
      && (forall b :: 1 <= b <= n ==> 1 <= min[b] <= max[b])
      && forall b :: 2 <= b <= n ==> SameCut(w, max[b - 1], w(max[b - 1]) - high[b - 1], min[b], low[b])
    }
  }

  /** "Part q of cell c" and "part q' of cell c'" denote the same point. */
  ghost predicate SameCut(w: int -> real, c: int, q: real, c': int, q': real)
  {
    (c == c' && q == q') || (c' == c + 1 && q == w(c) && q' == 0.0)
  }

  /** Integral of h from the start of cell 1 up to part q of cell c. */
  ghost function UpTo(w: int -> real, h: int -> real, c: int, q: real): real
  {
    RangeSum(1, c, k => Prod(w(k), h(k))) + Prod(q, h(c))
  }

  lemma UpToIs(w: int -> real, h: int -> real, c: int, q: real, f: int -> real)
    requires forall k :: 1 <= k < c ==> f(k) == Prod(w(k), h(k))
    ensures UpTo(w, h, c, q) == RangeSum(1, c, f) + Prod(q, h(c))
  {
    hide Prod;
    RangeSumSame(1, c, f, k => Prod(w(k), h(k)));
  }

  lemma SameCutUpTo(w: int -> real, h: int -> real, c: int, q: real, c': int, q': real)
    requires SameCut(w, c, q, c', q') && c >= 1
    ensures UpTo(w, h, c, q) == UpTo(w, h, c', q')
  {
    hide Prod;
    ProdConst(h(c'));
  }

  lemma EndsSum(lo: int, hi: int, full: int -> real, part: int -> real, a: real, b: real)
    requires 1 <= lo <= hi
    requires forall k :: lo <= k <= hi ==>
               part(k) == full(k) - (if k == lo then a else 0.0) - (if k == hi then b else 0.0)
    ensures RangeSum(lo, hi + 1, part) == RangeSum(1, hi, full) + full(hi) - b - RangeSum(1, lo, full) - a
  {
    hide *;
    RangeSumLast(lo, hi, part);
    RangeSumSplit(1, lo, hi, full);
    if lo == hi {
      RangeSumEmpty(lo, hi, part);
      RangeSumEmpty(lo, hi, full);
    } else {
      RangeSumSplit(lo, lo + 1, hi, part);
      RangeSumSplit(lo, lo + 1, hi, full);
      RangeSumSame(lo + 1, hi, part, full);
      RangeSumOne(lo, part);
      RangeSumOne(lo, full);
    }
  }


  /** The integral over one B cell is the difference of the integrals up to its two edges. */
  lemma RowIsDifference(s: Sweep, w: int -> real, h: int -> real, b: int)
    requires 0 <= b < |s.min| && s.HasCells(|s.min| - 1) && 1 <= s.min[b] <= s.max[b]
    ensures s.Row(w, h, b) == s.End(w, h, b) - s.Start(w, h, b)
  {
    hide Prod;
    var lo, hi := s.min[b], s.max[b];
    var full := (k: int) => Prod(w(k), h(k));
    var part := (k: int) => Prod(s.Part(w, b, k), h(k));
    forall k | lo <= k <= hi
      ensures part(k) == full(k) - (if k == lo then Prod(s.low[b], h(lo)) else 0.0)
                                 - (if k == hi then Prod(s.high[b], h(hi)) else 0.0)
    {
      PartProd(w(k), s.low[b], s.high[b], h(k), k == lo, k == hi);
    }
    EndsSum(lo, hi, full, part, Prod(s.low[b], h(lo)), Prod(s.high[b], h(hi)));
    PartProd(w(hi), s.low[b], s.high[b], h(hi), false, true);
    assert s.Row(w, h, b) == RangeSum(lo, hi + 1, part) by {
      RangeSumSame(lo, hi + 1, part, k => Prod(s.Part(w, b, k), h(k)));
    }
    RangeSumSame(1, lo, full, k => Prod(w(k), h(k)));
    RangeSumSame(1, hi, full, k => Prod(w(k), h(k)));
  }

  lemma PartProd(w: real, low: real, high: real, h: real, first: bool, last: bool)
    ensures Prod(w - (if first then low else 0.0) - (if last then high else 0.0), h)
         == Prod(w, h) - (if first then Prod(low, h) else 0.0) - (if last then Prod(high, h) else 0.0)
  {
  }

  /** Telescoping: all B cells together integrate h from the first edge to the last. */
  lemma {:induction false} RowsTelescope(s: Sweep, w: int -> real, h: int -> real, n: nat, m: nat)
    requires s.Linked(w, n) && 1 <= m <= n
    ensures s.Rows(w, h, m) == s.End(w, h, m) - s.Start(w, h, 1)
  {
    hide *;
    LinkedCell(s, w, n, m);
    RowIsDifference(s, w, h, m);
    RowsStep(s, w, h, m);
    if m == 1 {
      RowsNone(s, w, h);
    } else {
      RowsTelescope(s, w, h, n, m - 1);
      EndMeetsStart(s, w, h, n, m);
    }
  }

  lemma RowsNone(s: Sweep, w: int -> real, h: int -> real)
    ensures s.Rows(w, h, 0) == 0.0
  {
  }

  lemma LinkedSize(s: Sweep, n: int)
    requires s.HasCells(n)
    ensures |s.min| == |s.max| == |s.low| == |s.high| == n + 1
  {
  }

  lemma LinkedIntro(s: Sweep, w: int -> real, n: nat)
    requires s.HasCells(n)
    requires forall b :: 1 <= b <= n ==> 1 <= s.min[b] <= s.max[b]
    requires forall b :: 2 <= b <= n ==> SameCut(w, s.max[b - 1], w(s.max[b - 1]) - s.high[b - 1], s.min[b], s.low[b])
    ensures s.Linked(w, n)
  {
    hide SameCut;
  }

  lemma LinkedCell(s: Sweep, w: int -> real, n: nat, b: int)
    requires s.Linked(w, n) && 1 <= b <= n
    ensures 0 <= b < |s.min| && s.HasCells(|s.min| - 1) && 1 <= s.min[b] <= s.max[b]
  {
  }

  lemma EndMeetsStart(s: Sweep, w: int -> real, h: int -> real, n: nat, b: int)
    requires s.Linked(w, n) && 2 <= b <= n
    ensures s.End(w, h, b - 1) == s.Start(w, h, b)
  {
    hide Prod;
    SameCutUpTo(w, h, s.max[b - 1], w(s.max[b - 1]) - s.high[b - 1], s.min[b], s.low[b]);
  }

  lemma RowsStep(s: Sweep, w: int -> real, h: int -> real, n: int)
    requires n >= 1
    ensures s.Rows(w, h, n) == s.Rows(w, h, n - 1) + s.Row(w, h, n)
  {
    var f := b => s.Row(w, h, b);
    RangeSumSame(1, n, f, b => s.Row(w, h, b));
  }

  lemma RowSame(s: Sweep, w: int -> real, h: int -> real, g: int -> real, b: int)
    requires 0 <= b < |s.min| && s.HasCells(|s.min| - 1)
    requires forall k :: s.min[b] <= k <= s.max[b] ==> h(k) == g(k)
    ensures s.Row(w, h, b) == s.Row(w, g, b)
  {
    hide Prod;
    RangeSumSame(s.min[b], s.max[b] + 1, k => Prod(s.Part(w, b, k), h(k)), k => Prod(s.Part(w, b, k), g(k)));
  }

  lemma RowPlus(s: Sweep, w: int -> real, f: int -> real, g: int -> real, h: int -> real, b: int)
    requires 0 <= b < |s.min| && s.HasCells(|s.min| - 1)
    requires forall k :: s.min[b] <= k <= s.max[b] ==> h(k) == f(k) + g(k)
    ensures s.Row(w, h, b) == s.Row(w, f, b) + s.Row(w, g, b)
  {
    hide Prod;
    var F := k => Prod(s.Part(w, b, k), f(k));
    var G := k => Prod(s.Part(w, b, k), g(k));
    var H := k => Prod(s.Part(w, b, k), h(k));
    forall k | s.min[b] <= k < s.max[b] + 1 ensures H(k) == F(k) + G(k) {
      ProdPlus(s.Part(w, b, k), f(k), g(k));
    }
    RangeSumPlus(s.min[b], s.max[b] + 1, F, G, H);
  }

  /** Integrating along one sweep commutes with summing n fields. */
  lemma {:induction false} RowOfSums(s: Sweep, w: int -> real, n: int, fields: int -> (int -> real), h: int -> real,
                                     b: int)
    requires 0 <= b < |s.min| && s.HasCells(|s.min| - 1)
    requires forall k :: s.min[b] <= k <= s.max[b] ==> h(k) == RangeSum(1, n + 1, i => fields(i)(k))
    ensures RangeSum(1, n + 1, i => s.Row(w, fields(i), b)) == s.Row(w, h, b)
    decreases n
  {
    hide Prod;
    if n < 1 {
      RowZero(s, w, h, b);
    } else {
      var g := k => RangeSum(1, n, i => fields(i)(k));
      RowOfSums(s, w, n - 1, fields, g, b);
      forall k | s.min[b] <= k <= s.max[b] ensures h(k) == g(k) + fields(n)(k) {
        RangeSumSame(1, n, i => fields(i)(k), i => fields(i)(k));
      }
      RowPlus(s, w, g, fields(n), h, b);
      RangeSumSame(1, n, i => s.Row(w, fields(i), b), i => s.Row(w, fields(i), b));
    }
  }

  lemma RowZero(s: Sweep, w: int -> real, h: int -> real, b: int)
    requires 0 <= b < |s.min| && s.HasCells(|s.min| - 1)
    requires forall k :: s.min[b] <= k <= s.max[b] ==> h(k) == 0.0
    ensures s.Row(w, h, b) == 0.0
  {
    hide Prod;
    RowPlus(s, w, h, h, h, b);
  }

  // ---------------------------------------------------------------- geometry

  ghost function Overlap(w1: real, e1: real, w2: real, e2: real): real
  {
    var lo := if w1 < w2 then w2 else w1;
    var hi := if e1 < e2 then e1 else e2;
    if lo < hi then hi - lo else 0.0
  }

  /** Part q of cell c, in units of u, ends at x; edge(c - 1) and edge(c) are the edges of cell c. */
  ghost predicate CutAt(edge: int -> real, u: real, c: int, q: real, x: real)
  {
    edge(c - 1) <= x <= edge(c) && Prod(u, q) == x - edge(c - 1)
  }

  ghost predicate Ascending(edge: int -> real)
  {
    forall j, k :: j < k ==> edge(j) <= edge(k)
  }

  /** When its two cuts lie at x and y, a B cell gets from every A cell exactly their geometric overlap. */
  lemma PartIsOverlap(s: Sweep, w: int -> real, edge: int -> real, u: real, b: int, k: int, x: real, y: real)
    requires 0 <= b < |s.min| && s.HasCells(|s.min| - 1) && s.min[b] <= s.max[b] && x <= y
    requires Ascending(edge) && forall c :: Prod(u, w(c)) == edge(c) - edge(c - 1)
    requires CutAt(edge, u, s.min[b], s.low[b], x)
    requires CutAt(edge, u, s.max[b], w(s.max[b]) - s.high[b], y)
    ensures s.min[b] <= k <= s.max[b] ==> Prod(u, s.Part(w, b, k)) == Overlap(edge(k - 1), edge(k), x, y)
    ensures !(s.min[b] <= k <= s.max[b]) ==> Overlap(edge(k - 1), edge(k), x, y) == 0.0
  {
    hide Prod;
    var lo, hi := s.min[b], s.max[b];
    assert Prod(u, w(k)) == edge(k) - edge(k - 1);
    assert Prod(u, w(hi)) == edge(hi) - edge(hi - 1);
    ProdMinus(u, w(k), if k == lo then s.low[b] else 0.0, if k == hi then s.high[b] else 0.0);
    ProdMinus(u, w(hi), 0.0, s.high[b]);
    ProdConst(u);
  }

  lemma ProdMinus(u: real, a: real, b: real, c: real)
    ensures Prod(u, a - b - c) == Prod(u, a) - Prod(u, b) - Prod(u, c)
  {
  }
}
