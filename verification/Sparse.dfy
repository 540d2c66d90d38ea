/**
 Sparse matrices.  A matrix is the list of (row, column, value) tuples that an accumulator received;
 repeated index pairs add up.  Indices are the sparse indices of the grids; the dense numbering that
 the program uses internally is a relabelling and is not represented.
 */
module Sparse {
  import opened Vectors

  datatype Entry = Entry(i: nat, j: nat, v: real)
  type Triplets = seq<Entry>

  ghost predicate InBounds(T: Triplets, m: nat, n: nat)
  {
    forall k :: 0 <= k < |T| ==> T[k].i < m && T[k].j < n
  }

  /** The matrix coefficient at (i, j). */
  ghost function At(T: Triplets, i: nat, j: nat): real
  {
    if |T| == 0 then 0.0
    else At(T[..|T| - 1], i, j) + if T[|T| - 1].i == i && T[|T| - 1].j == j then T[|T| - 1].v else 0.0
  }

  /** T x, for a matrix with m rows. */
  function Apply(T: Triplets, x: seq<real>, m: nat): (r: seq<real>)
    requires InBounds(T, m, |x|)
    ensures |r| == m
  {
    if |T| == 0 then Const(m, 0.0)
    else
      var e := T[|T| - 1];
      var r := Apply(T[..|T| - 1], x, m);
      r[e.i := r[e.i] + Prod(e.v, x[e.j])]
  }

  /** y' T x, the bilinear form of the matrix; it determines every coefficient (SameForm). */
  ghost function Bilin(T: Triplets, y: seq<real>, x: seq<real>): real
    requires InBounds(T, |y|, |x|)
  {
    if |T| == 0 then 0.0
    else
      var e := T[|T| - 1];
      Bilin(T[..|T| - 1], y, x) + Prod(y[e.i], Prod(e.v, x[e.j]))
  }

  function Transpose(T: Triplets): (r: Triplets)
    ensures |r| == |T| && forall k :: 0 <= k < |T| ==> r[k] == Entry(T[k].j, T[k].i, T[k].v)
  {
    seq(|T|, k requires 0 <= k < |T| => Entry(T[k].j, T[k].i, T[k].v))
  }

  /** diag(d) T */
  function ScaleRows(d: seq<real>, T: Triplets): (r: Triplets)
    requires forall k :: 0 <= k < |T| ==> T[k].i < |d|
    ensures |r| == |T| && forall k :: 0 <= k < |T| ==> r[k] == Entry(T[k].i, T[k].j, Prod(d[T[k].i], T[k].v))
  {
    seq(|T|, k requires 0 <= k < |T| => Entry(T[k].i, T[k].j, Prod(d[T[k].i], T[k].v)))
  }

  /** T diag(d) */
  function ScaleCols(T: Triplets, d: seq<real>): (r: Triplets)
    requires forall k :: 0 <= k < |T| ==> T[k].j < |d|
    ensures |r| == |T| && forall k :: 0 <= k < |T| ==> r[k] == Entry(T[k].i, T[k].j, Prod(T[k].v, d[T[k].j]))
  {
    seq(|T|, k requires 0 <= k < |T| => Entry(T[k].i, T[k].j, Prod(T[k].v, d[T[k].j])))
  }

  /** The entries of (e T) for a single left entry e. */
  function MulEntry(e: Entry, T: Triplets): Triplets
  {
    if |T| == 0 then []
    else
      var t := T[|T| - 1];
      var r := MulEntry(e, T[..|T| - 1]);
      if t.i == e.j then r + [Entry(e.i, t.j, Prod(e.v, t.v))] else r
  }

  /** The matrix product S T. */
  function Mul(S: Triplets, T: Triplets): Triplets
  {
    if |S| == 0 then []
    else Mul(S[..|S| - 1], T) + MulEntry(S[|S| - 1], T)
  }

  function RowSums(T: Triplets, m: nat, n: nat): (r: seq<real>)
    requires InBounds(T, m, n)
    ensures |r| == m
  {
    Apply(T, Ones(n), m)
  }

  function ColSums(T: Triplets, m: nat, n: nat): (r: seq<real>)
    requires InBounds(T, m, n)
    ensures |r| == n
  {
    Apply(Transpose(T), Ones(m), n)
  }

  lemma {:induction false} MulEntryWitness(e: Entry, T: Triplets, a: Entry) returns (t: Entry)
    requires a in MulEntry(e, T)
    ensures t in T && t.i == e.j && t.j == a.j && a.i == e.i && a.v == Prod(e.v, t.v)
  {
    hide Prod;
    if a in MulEntry(e, T[..|T| - 1]) {
      t := MulEntryWitness(e, T[..|T| - 1], a);
    } else {
      t := T[|T| - 1];
    }
  }

  /** Every stored entry of a product comes from two stored entries that meet in the middle. */
  lemma {:induction false} MulWitness(S: Triplets, T: Triplets, a: Entry) returns (s: Entry, t: Entry)
    requires a in Mul(S, T)
    ensures s in S && t in T && s.i == a.i && s.j == t.i && t.j == a.j && a.v == Prod(s.v, t.v)
  {
    hide Prod;
    s := S[|S| - 1];
    if a in MulEntry(s, T) {
      t := MulEntryWitness(s, T, a);
    } else {
      s, t := MulWitness(S[..|S| - 1], T, a);
    }
  }

  lemma MulEntryInBounds(e: Entry, T: Triplets, m: nat, p: nat, n: nat)
    requires e.i < m && InBounds(T, p, n)
    ensures InBounds(MulEntry(e, T), m, n)
  {
    var r := MulEntry(e, T);
    forall k | 0 <= k < |r| ensures r[k].i < m && r[k].j < n {
      var t := MulEntryWitness(e, T, r[k]);
    }
  }

  lemma MulInBounds(S: Triplets, T: Triplets, m: nat, p: nat, n: nat)
    requires InBounds(S, m, p) && InBounds(T, p, n)
    ensures InBounds(Mul(S, T), m, n)
  {
    var r := Mul(S, T);
    forall k | 0 <= k < |r| ensures r[k].i < m && r[k].j < n {
      var s, t := MulWitness(S, T, r[k]);
    }
  }

  lemma {:induction false} DotApply(T: Triplets, y: seq<real>, x: seq<real>)
    requires InBounds(T, |y|, |x|)
    ensures Dot(y, Apply(T, x, |y|)) == Bilin(T, y, x)
  {
    hide Prod;
    if |T| == 0 {
      DotZeroRight(y, Const(|y|, 0.0));
    } else {
      var S, e := T[..|T| - 1], T[|T| - 1];
      DotApply(S, y, x);
      DotUpdate(y, Apply(S, x, |y|), e.i, Prod(e.v, x[e.j]));
    }
  }

  lemma {:induction false} BilinTranspose(T: Triplets, y: seq<real>, x: seq<real>)
    requires InBounds(T, |y|, |x|)
    ensures Bilin(Transpose(T), x, y) == Bilin(T, y, x)
  {
    hide Prod;
    if |T| > 0 {
      var S, e := T[..|T| - 1], T[|T| - 1];
      BilinTranspose(S, y, x);
      assert Transpose(T)[..|T| - 1] == Transpose(S);
      ProdAssoc(x[e.j], e.v, y[e.i]);
      ProdComm(x[e.j], e.v);
      ProdComm(Prod(e.v, x[e.j]), y[e.i]);
    }
  }

  /** y' T x read from the right-hand side: the adjoint identity. */
  lemma DotApplyTranspose(T: Triplets, y: seq<real>, x: seq<real>)
    requires InBounds(T, |y|, |x|)
    ensures Dot(Apply(Transpose(T), y, |x|), x) == Bilin(T, y, x)
  {
    BilinTranspose(T, y, x);
    DotApply(Transpose(T), x, y);
    DotComm(x, Apply(Transpose(T), y, |x|));
  }

  lemma {:induction false} BilinScaleRows(d: seq<real>, T: Triplets, y: seq<real>, x: seq<real>)
    requires InBounds(T, |y|, |x|) && |d| == |y|
    ensures Bilin(ScaleRows(d, T), y, x) == Bilin(T, Hadamard(y, d), x)
  {
    hide Prod;
    if |T| > 0 {
      var S, e := T[..|T| - 1], T[|T| - 1];
      BilinScaleRows(d, S, y, x);
      assert ScaleRows(d, T)[..|T| - 1] == ScaleRows(d, S);
      ProdAssoc(d[e.i], e.v, x[e.j]);
      ProdAssoc(y[e.i], d[e.i], Prod(e.v, x[e.j]));
    }
  }

  lemma {:induction false} BilinScaleCols(T: Triplets, d: seq<real>, y: seq<real>, x: seq<real>)
    requires InBounds(T, |y|, |x|) && |d| == |x|
    ensures Bilin(ScaleCols(T, d), y, x) == Bilin(T, y, Hadamard(d, x))
  {
    hide Prod;
    if |T| > 0 {
      var S, e := T[..|T| - 1], T[|T| - 1];
      BilinScaleCols(S, d, y, x);
      assert ScaleCols(T, d)[..|T| - 1] == ScaleCols(S, d);
      ProdAssoc(e.v, d[e.j], x[e.j]);
    }
  }

  lemma {:induction false} BilinConcat(S: Triplets, T: Triplets, y: seq<real>, x: seq<real>)
    requires InBounds(S, |y|, |x|) && InBounds(T, |y|, |x|)
    ensures InBounds(S + T, |y|, |x|)
    ensures Bilin(S + T, y, x) == Bilin(S, y, x) + Bilin(T, y, x)
  {
    hide Prod;
    if |T| == 0 {
      assert S + T == S;
    } else {
      var U := T[..|T| - 1];
      BilinConcat(S, U, y, x);
      assert (S + T)[..|S + T| - 1] == S + U;
    }
  }

  lemma BilinEmpty(y: seq<real>, x: seq<real>)
    ensures Bilin([], y, x) == 0.0
  {
  }

  lemma BilinSingle(e: Entry, y: seq<real>, x: seq<real>)
    requires e.i < |y| && e.j < |x|
    ensures Bilin([e], y, x) == Prod(y[e.i], Prod(e.v, x[e.j]))
  {
    hide Prod;
    assert [e][..0] == [];
  }

  lemma Distribute(a: real, b: real, c: real, d: real, f: real)
    ensures Prod(a, Prod(b, c + Prod(d, f))) == Prod(a, Prod(b, c)) + Prod(a, Prod(Prod(b, d), f))
  {
    hide Prod;
    ProdPlus(b, c, Prod(d, f));
    ProdPlus(a, Prod(b, c), Prod(b, Prod(d, f)));
    ProdAssoc(b, d, f);
  }

  lemma BilinMeet(R: Triplets, e: Entry, t: Entry, y: seq<real>, x: seq<real>, c: real)
    requires InBounds(R, |y|, |x|) && e.i < |y| && t.j < |x|
    requires Bilin(R, y, x) == Prod(y[e.i], Prod(e.v, c))
    ensures InBounds(R + [Entry(e.i, t.j, Prod(e.v, t.v))], |y|, |x|)
    ensures Bilin(R + [Entry(e.i, t.j, Prod(e.v, t.v))], y, x)
         == Prod(y[e.i], Prod(e.v, c + Prod(t.v, x[t.j])))
  {
    hide Prod;
    var f := Entry(e.i, t.j, Prod(e.v, t.v));
    BilinConcat(R, [f], y, x);
    BilinSingle(f, y, x);
    Distribute(y[e.i], e.v, c, t.v, x[t.j]);
  }

  lemma {:induction false} BilinMulEntry(e: Entry, T: Triplets, y: seq<real>, p: nat, x: seq<real>)
    requires e.i < |y| && e.j < p && InBounds(T, p, |x|)
    requires InBounds(MulEntry(e, T), |y|, |x|)
    ensures Bilin(MulEntry(e, T), y, x) == Prod(y[e.i], Prod(e.v, Apply(T, x, p)[e.j]))
  {
    hide Prod;
    if |T| == 0 {
      ProdConst(e.v);
      ProdConst(y[e.i]);
    } else {
      var S, t := T[..|T| - 1], T[|T| - 1];
      MulEntryInBounds(e, S, |y|, p, |x|);
      BilinMulEntry(e, S, y, p, x);
      var before := Apply(S, x, p);
      assert Apply(T, x, p) == before[t.i := before[t.i] + Prod(t.v, x[t.j])];
      if t.i == e.j {
        BilinMeet(MulEntry(e, S), e, t, y, x, before[e.j]);
      }
    }
  }

  /** The bilinear form of a product with inner dimension p. */
  lemma {:induction false} BilinMul(S: Triplets, T: Triplets, y: seq<real>, p: nat, x: seq<real>)
    requires InBounds(S, |y|, p) && InBounds(T, p, |x|)
    requires InBounds(Mul(S, T), |y|, |x|)
    ensures Bilin(Mul(S, T), y, x) == Bilin(S, y, Apply(T, x, p))
  {
    hide Prod;
    if |S| > 0 {
      var R, e := S[..|S| - 1], S[|S| - 1];
      MulInBounds(R, T, |y|, p, |x|);
      MulEntryInBounds(e, T, |y|, p, |x|);
      BilinMul(R, T, y, p, x);
      BilinMulEntry(e, T, y, p, x);
      assert Mul(S, T) == Mul(R, T) + MulEntry(e, T);
      BilinConcat(Mul(R, T), MulEntry(e, T), y, x);
    }
  }

  lemma {:induction false} BilinUnits(T: Triplets, m: nat, n: nat, i: nat, j: nat)
    requires InBounds(T, m, n) && i < m && j < n
    ensures Bilin(T, Unit(m, i), Unit(n, j)) == At(T, i, j)
  {
    hide Prod;
    if |T| > 0 {
      var e := T[|T| - 1];
      BilinUnits(T[..|T| - 1], m, n, i, j);
      ProdConst(e.v);
      ProdConst(Prod(e.v, Unit(n, j)[e.j]));
    }
  }

  /** Two matrices with the same bilinear form have the same coefficients. */
  lemma SameForm(S: Triplets, T: Triplets, m: nat, n: nat)
    requires InBounds(S, m, n) && InBounds(T, m, n)
    requires forall y: seq<real>, x: seq<real> :: |y| == m && |x| == n ==> Bilin(S, y, x) == Bilin(T, y, x)
    ensures forall i: nat, j: nat :: i < m && j < n ==> At(S, i, j) == At(T, i, j)
  {
    forall i: nat, j: nat | i < m && j < n ensures At(S, i, j) == At(T, i, j) {
      BilinUnits(S, m, n, i, j);
      BilinUnits(T, m, n, i, j);
    }
  }

  lemma ApplyElement(T: Triplets, x: seq<real>, m: nat, i: nat)
    requires InBounds(T, m, |x|) && i < m
    ensures Apply(T, x, m)[i] == Bilin(T, Unit(m, i), x)
  {
    DotApply(T, Unit(m, i), x);
    DotUnit(m, i, Apply(T, x, m));
  }

  /** The bilinear form only looks at the rows that hold entries. */
  lemma {:induction false} BilinSameRows(T: Triplets, y: seq<real>, z: seq<real>, x: seq<real>)
    requires |y| == |z| && InBounds(T, |y|, |x|)
    requires forall k :: 0 <= k < |T| ==> y[T[k].i] == z[T[k].i]
    ensures Bilin(T, y, x) == Bilin(T, z, x)
  {
    hide Prod;
    if |T| > 0 {
      BilinSameRows(T[..|T| - 1], y, z, x);
    }
  }

  lemma {:induction false} ApplyScaleRows(d: seq<real>, T: Triplets, x: seq<real>, m: nat, i: nat)
    requires InBounds(T, m, |x|) && |d| == m && i < m
    ensures Apply(ScaleRows(d, T), x, m)[i] == Prod(d[i], Apply(T, x, m)[i])
  {
    hide Prod;
    if |T| == 0 {
      ProdConst(d[i]);
    } else {
      var S, e := T[..|T| - 1], T[|T| - 1];
      ApplyScaleRows(d, S, x, m, i);
      assert ScaleRows(d, T)[..|T| - 1] == ScaleRows(d, S);
      ProdAssoc(d[e.i], e.v, x[e.j]);
      ProdPlus(d[i], Apply(S, x, m)[i], Prod(e.v, x[e.j]));
    }
  }

  lemma ScaleColsOnes(T: Triplets, n: nat)
    requires forall k :: 0 <= k < |T| ==> T[k].j < n
    ensures ScaleCols(T, Ones(n)) == T
  {
    hide Prod;
    forall k | 0 <= k < |T| ensures ScaleCols(T, Ones(n))[k] == T[k] {
      ProdConst(T[k].v);
    }
  }

  // ---------------------------------------------------------------- lists that denote the same matrix

  /** The two lists hold the same coefficients and fit the same shapes. */
  ghost predicate SameMatrix(S: Triplets, T: Triplets)
  {
    && (forall m: nat, n: nat :: InBounds(S, m, n) <==> InBounds(T, m, n))
    && forall y: seq<real>, x: seq<real> :: InBounds(S, |y|, |x|) ==> Bilin(S, y, x) == Bilin(T, y, x)
  }

  lemma SameMatrixTransitive(S: Triplets, T: Triplets, U: Triplets)
    requires SameMatrix(S, T) && SameMatrix(T, U)
    ensures SameMatrix(S, U)
  {
    hide InBounds, Bilin;
  }

  lemma AtAppend(T: Triplets, e: Entry, i: nat, j: nat)
    ensures At(T + [e], i, j) == At(T, i, j) + if e.i == i && e.j == j then e.v else 0.0
  {
    assert (T + [e])[..|T|] == T;
  }

  lemma {:induction false} AtConcat(S: Triplets, T: Triplets, i: nat, j: nat)
    ensures At(S + T, i, j) == At(S, i, j) + At(T, i, j)
  {
    if |T| == 0 {
      assert S + T == S;
    } else {
      AtConcat(S, T[..|T| - 1], i, j);
      assert S + T == (S + T[..|T| - 1]) + [T[|T| - 1]];
      AtAppend(S + T[..|T| - 1], T[|T| - 1], i, j);
    }
  }

  lemma InBoundsConcat(S: Triplets, T: Triplets, m: nat, n: nat)
    ensures InBounds(S + T, m, n) <==> InBounds(S, m, n) && InBounds(T, m, n)
  {
    if InBounds(S + T, m, n) {
      assert forall k :: 0 <= k < |S| ==> (S + T)[k] == S[k];
      assert forall k :: 0 <= k < |T| ==> (S + T)[|S| + k] == T[k];
    }
  }

  lemma SameMatrixConcat(S: Triplets, S': Triplets, T: Triplets, T': Triplets)
    requires SameMatrix(S, S') && SameMatrix(T, T')
    ensures SameMatrix(S + T, S' + T')
  {
    hide InBounds, Bilin;
    forall m: nat, n: nat ensures InBounds(S + T, m, n) <==> InBounds(S' + T', m, n) {
      InBoundsConcat(S, T, m, n);
      InBoundsConcat(S', T', m, n);
    }
    forall y: seq<real>, x: seq<real> | InBounds(S + T, |y|, |x|) ensures Bilin(S + T, y, x) == Bilin(S' + T', y, x) {
      InBoundsConcat(S, T, |y|, |x|);
      BilinConcat(S, T, y, x);
      BilinConcat(S', T', y, x);
    }
  }

  lemma SameMatrixSwap(S: Triplets, T: Triplets)
    ensures SameMatrix(S + T, T + S)
  {
    hide InBounds, Bilin;
    forall m: nat, n: nat ensures InBounds(S + T, m, n) <==> InBounds(T + S, m, n) {
      InBoundsConcat(S, T, m, n);
      InBoundsConcat(T, S, m, n);
    }
    forall y: seq<real>, x: seq<real> | InBounds(S + T, |y|, |x|) ensures Bilin(S + T, y, x) == Bilin(T + S, y, x) {
      InBoundsConcat(S, T, |y|, |x|);
      BilinConcat(S, T, y, x);
      BilinConcat(T, S, y, x);
    }
  }

  /** Lists that denote the same matrix have the same coefficients and act alike on every vector. */
  lemma SameMatrixMeans(S: Triplets, T: Triplets, m: nat, x: seq<real>)
    requires SameMatrix(S, T) && InBounds(S, m, |x|)
    ensures InBounds(T, m, |x|) && Apply(S, x, m) == Apply(T, x, m)
    ensures forall i: nat, j: nat :: i < m && j < |x| ==> At(S, i, j) == At(T, i, j)
  {
    hide InBounds, Bilin, Apply, At;
    forall i: nat | i < m ensures Apply(S, x, m)[i] == Apply(T, x, m)[i] {
      ApplyElement(S, x, m, i);
      ApplyElement(T, x, m, i);
    }
    SameForm(S, T, m, |x|);
  }

  // ---------------------------------------------------------------- rows

  ghost predicate Positive(T: Triplets)
  {
    forall k :: 0 <= k < |T| ==> T[k].v > 0.0
  }

  lemma {:induction false} PositiveApply(T: Triplets, m: nat, n: nat, i: nat)
    requires InBounds(T, m, n) && Positive(T) && i < m
    ensures Apply(T, Ones(n), m)[i] >= 0.0
    ensures (exists k :: 0 <= k < |T| && T[k].i == i) ==> Apply(T, Ones(n), m)[i] > 0.0
  {
    hide Prod;
    if |T| > 0 {
      var S, e := T[..|T| - 1], T[|T| - 1];
      PositiveApply(S, m, n, i);
      ProdConst(e.v);
      if exists k :: 0 <= k < |T| && T[k].i == i {
        var k :| 0 <= k < |T| && T[k].i == i;
        if k < |S| { assert S[k].i == i; }
      }
    }
  }

  lemma ApplyAppend(T: Triplets, e: Entry, x: seq<real>, m: nat)
    requires InBounds(T, m, |x|) && e.i < m && e.j < |x|
    ensures InBounds(T + [e], m, |x|)
    ensures Apply(T + [e], x, m) == Apply(T, x, m)[e.i := Apply(T, x, m)[e.i] + Prod(e.v, x[e.j])]
  {
    hide Prod;
    assert (T + [e])[..|T|] == T;
  }

  /** A row whose entries all meet the value c. */
  lemma {:induction false} ApplyRowConstant(T: Triplets, x: seq<real>, m: nat, i: nat, c: real)
    requires InBounds(T, m, |x|) && i < m && forall e :: e in T && e.i == i ==> x[e.j] == c
    ensures Apply(T, x, m)[i] == Prod(c, RowSums(T, m, |x|)[i])
  {
    hide Prod;
    if |T| == 0 {
      ProdConst(c);
    } else {
      var S, e := T[..|T| - 1], T[|T| - 1];
      ApplyRowConstant(S, x, m, i, c);
      ProdConst(e.v);
      ProdComm(c, e.v);
      ProdPlus(c, RowSums(S, m, |x|)[i], e.v);
    }
  }

  /** With positive entries, a row applied to values up to 1 reaches its row sum only if every value it meets is 1. */
  lemma {:induction false} RowReachesSum(T: Triplets, x: seq<real>, m: nat, i: nat)
    requires InBounds(T, m, |x|) && Positive(T) && i < m && forall e :: e in T && e.i == i ==> x[e.j] <= 1.0
    ensures Apply(T, x, m)[i] <= RowSums(T, m, |x|)[i]
    ensures Apply(T, x, m)[i] == RowSums(T, m, |x|)[i] <==> forall e :: e in T && e.i == i ==> x[e.j] == 1.0
  {
    hide Prod;
    if |T| > 0 {
      var S, e := T[..|T| - 1], T[|T| - 1];
      assert T == S + [e];
      RowReachesSum(S, x, m, i);
      ProdConst(e.v);
      if e.i == i {
        ProdAtMost(e.v, x[e.j]);
        assert Apply(T, x, m)[i] == Apply(S, x, m)[i] + Prod(e.v, x[e.j]);
        assert RowSums(T, m, |x|)[i] == RowSums(S, m, |x|)[i] + e.v;
        assert e in T;
      }
    }
  }

  lemma ProdAtMost(v: real, x: real)
    requires v > 0.0 && x <= 1.0
    ensures Prod(v, x) <= v && (Prod(v, x) == v <==> x == 1.0)
  {
    if Prod(v, x) == v { assert v * (x - 1.0) == 0.0; }
    assert v * (x - 1.0) <= 0.0;
  }

  lemma ApplyMul(S: Triplets, T: Triplets, m: nat, p: nat, x: seq<real>)
    requires InBounds(S, m, p) && InBounds(T, p, |x|)
    ensures InBounds(Mul(S, T), m, |x|) && Apply(Mul(S, T), x, m) == Apply(S, Apply(T, x, p), m)
  {
    hide Prod, Bilin, Apply, Mul;
    MulInBounds(S, T, m, p, |x|);
    forall i: nat | i < m ensures Apply(Mul(S, T), x, m)[i] == Apply(S, Apply(T, x, p), m)[i] {
      ApplyElement(Mul(S, T), x, m, i);
      BilinMul(S, T, Unit(m, i), p, x);
      ApplyElement(S, Apply(T, x, p), m, i);
    }
  }
}
