/**
 Polygons and the integrals of piecewise linear elements over them (pylib/icebin/ibgrid.py and
 pylib/icebin/element_l1.py).
 */
module Polygons {
  import opened Wrappers
  import opened Vectors
  import opened Sparse

  datatype Vertex = Vertex(index: int, x: real, y: real)

  /** z = a x + b y + c */
  datatype Plane = Plane(a: real, b: real, c: real)

  // ---------------------------------------------------------------- edges

  function Cross(v0: Vertex, v1: Vertex): real { v0.x * v1.y - v1.x * v0.y }

  function EdgeX(v0: Vertex, v1: Vertex): real { Prod(v0.x + v1.x, Cross(v0, v1)) }

  function EdgeY(v0: Vertex, v1: Vertex): real { Prod(v0.y + v1.y, Cross(v0, v1)) }

  /** The vertex before vertex k; the last one comes before the first. */
  function Before(p: seq<Vertex>, k: nat): Vertex
    requires k < |p|
  {
    if k == 0 then p[|p| - 1] else p[k - 1]
  }

  /** Sum of f over the first n edges. */
  ghost function EdgeSum(p: seq<Vertex>, f: (Vertex, Vertex) -> real, n: nat): real
    requires n <= |p|
  {
    if n == 0 then 0.0 else EdgeSum(p, f, n - 1) + f(Before(p, n - 1), p[n - 1])
  }

  /** Twice the signed area, and six times the first moments. */
  ghost function Area2(p: seq<Vertex>): real { EdgeSum(p, Cross, |p|) }
  ghost function MomentX6(p: seq<Vertex>): real { EdgeSum(p, EdgeX, |p|) }
  ghost function MomentY6(p: seq<Vertex>): real { EdgeSum(p, EdgeY, |p|) }

  ghost function Area(p: seq<Vertex>): real { 0.5 * Area2(p) }

  /** Cell.area; None where the source fails on a polygon without vertices. */
  method ComputeArea(p: seq<Vertex>) returns (area: Option<real>)
    ensures area == if |p| == 0 then None else Some(Area(p))
  {
    hide Cross;
    if |p| == 0 { return None; }
    var sum := 0.0;
    var v0 := p[|p| - 1];
    for k := 0 to |p|
      invariant k < |p| ==> v0 == Before(p, k)
      invariant sum == EdgeSum(p, Cross, k)
    {
      var v1 := p[k];
      sum := sum + Cross(v0, v1);
      v0 := v1;
    }
    area := Some(0.5 * sum);
  }

  /** Cell.centroid; None where the source fails, on polygons without vertices or without area. */
  method ComputeCentroid(p: seq<Vertex>) returns (centroid: Option<(real, real)>)
    ensures centroid.Some? <==> |p| > 0 && Area2(p) != 0.0
    ensures centroid.Some? ==> centroid.value == (CentroidOf(MomentX6(p), Area2(p)), CentroidOf(MomentY6(p), Area2(p)))
  {
    hide Cross, EdgeX, EdgeY, CentroidOf;
    if |p| == 0 { return None; }
    var A2, Cx, Cy := 0.0, 0.0, 0.0;
    var v0 := p[|p| - 1];
    for k := 0 to |p|
      invariant k < |p| ==> v0 == Before(p, k)
      invariant A2 == EdgeSum(p, Cross, k) && Cx == EdgeSum(p, EdgeX, k) && Cy == EdgeSum(p, EdgeY, k)
    {
      var v1 := p[k];
      var dA := Cross(v0, v1);
      A2 := A2 + dA;
      EdgeIs(v0, v1);
      Cx := Cx + Prod(v0.x + v1.x, dA);
      Cy := Cy + Prod(v0.y + v1.y, dA);
      v0 := v1;
    }
    if A2 == 0.0 { return None; }
    centroid := Some((CentroidOf(Cx, A2), CentroidOf(Cy, A2)));
  }

  lemma EdgeIs(v0: Vertex, v1: Vertex)
    ensures EdgeX(v0, v1) == Prod(v0.x + v1.x, Cross(v0, v1)) && EdgeY(v0, v1) == Prod(v0.y + v1.y, Cross(v0, v1))
  {
  }

  /** A first moment over the area. */
  function CentroidOf(moment6: real, area2: real): real
    requires area2 != 0.0
  {
    (1.0 / (3.0 * area2)) * moment6
  }

  // ---------------------------------------------------------------- planes

  function Det(e: seq<Vertex>): real
    requires |e| == 3
  {
    Cross(e[0], e[1]) + Cross(e[1], e[2]) + Cross(e[2], e[0])
  }

  function Height(p: Plane, v: Vertex): real { p.a * v.x + p.b * v.y + p.c }

  /** The plane through (u, 1), (v, 0) and (w, 0), where d is the determinant of the triangle. */
  function PlaneOf(v: Vertex, w: Vertex, d: real): Plane
    requires d != 0.0
  {
    Plane((v.y - w.y) / d, (w.x - v.x) / d, Cross(v, w) / d)
  }

  /** eqn_plane_subelement: the plane that is 1 at one vertex and 0 at the others; None for a degenerate triangle. */
  function BasisPlane(e: seq<Vertex>, k: nat): (p: Option<Plane>)
    requires |e| == 3 && k < 3
    ensures p.Some? <==> Det(e) != 0.0
    ensures p.Some? ==> IsBasis(p.value, e, k)
  {
    if Det(e) == 0.0 then None
    else
      PlaneThrough(e, k);
      Some(PlaneOf(e[(k + 1) % 3], e[(k + 2) % 3], Det(e)))
  }

  ghost predicate IsBasis(p: Plane, e: seq<Vertex>, k: nat)
    requires |e| == 3
  {
    forall l :: 0 <= l < 3 ==> Height(p, e[l]) == if l == k then 1.0 else 0.0
  }

  lemma PlaneThrough(e: seq<Vertex>, k: nat)
    requires |e| == 3 && k < 3 && Det(e) != 0.0
    ensures IsBasis(PlaneOf(e[(k + 1) % 3], e[(k + 2) % 3], Det(e)), e, k)
  {
    hide Height, Cross, PlaneOf;
    Heights(e[0], e[1], e[2], Det(e));
    Heights(e[1], e[2], e[0], Det(e));
    Heights(e[2], e[0], e[1], Det(e));
  }

  lemma Heights(u: Vertex, v: Vertex, w: Vertex, d: real)
    requires d != 0.0 && d == Cross(u, v) + Cross(v, w) + Cross(w, u)
    ensures Height(PlaneOf(v, w, d), u) == 1.0 && Height(PlaneOf(v, w, d), v) == 0.0
    ensures Height(PlaneOf(v, w, d), w) == 0.0
  {
    hide Height, Cross;
    Numerators(u, v, w);
    OverDet(v.y - w.y, w.x - v.x, Cross(v, w), u, d);
    OverDet(v.y - w.y, w.x - v.x, Cross(v, w), v, d);
    OverDet(v.y - w.y, w.x - v.x, Cross(v, w), w, d);
  }

  function Numerator(a: real, b: real, c: real, v: Vertex): real { a * v.x + b * v.y + c }

  lemma Numerators(u: Vertex, v: Vertex, w: Vertex)
    ensures Numerator(v.y - w.y, w.x - v.x, Cross(v, w), u) == Cross(u, v) + Cross(v, w) + Cross(w, u)
    ensures Numerator(v.y - w.y, w.x - v.x, Cross(v, w), v) == 0.0
    ensures Numerator(v.y - w.y, w.x - v.x, Cross(v, w), w) == 0.0
  {
  }

  lemma OverDet(a: real, b: real, c: real, v: Vertex, d: real)
    requires d != 0.0
    ensures Height(Plane(a / d, b / d, c / d), v) == Numerator(a, b, c, v) / d
  {
    assert (a / d) * v.x == (a * v.x) / d;
    assert (b / d) * v.y == (b * v.y) / d;
  }

  // ---------------------------------------------------------------- integrals

  function Cubic(a: real, b: real, c: real): real { a * b * c }

  /** The coefficients that integrate_subelement computes for one edge. */
  function CoeffA(q0: Vertex, q1: Vertex): real { (1.0 / 6.0) * PolynomialA(q0, q1) }

  function PolynomialA(q0: Vertex, q1: Vertex): real
  {
    2.0 * Cubic(q0.x, q0.x, q0.y) + Cubic(q0.x, q0.x, q1.y) - Cubic(q0.x, q0.y, q1.x)
    + Cubic(q0.x, q1.x, q1.y) - Cubic(q0.y, q1.x, q1.x) - 2.0 * Cubic(q1.x, q1.x, q1.y)
  }

  function CoeffB(q0: Vertex, q1: Vertex): real { (1.0 / 6.0) * PolynomialB(q0, q1) }

  function PolynomialB(q0: Vertex, q1: Vertex): real
  {
    -2.0 * Cubic(q0.x, q0.y, q0.y) + Cubic(q0.x, q0.y, q1.y) - Cubic(q0.y, q0.y, q1.x)
    + Cubic(q0.x, q1.y, q1.y) - Cubic(q0.y, q1.x, q1.y) + 2.0 * Cubic(q1.x, q1.y, q1.y)
  }

  function CoeffC(q0: Vertex, q1: Vertex): real { 0.5 * (q0.x * q1.y - q0.y * q1.x) }

  /** Terms that cancel between neighbouring edges. */
  function CornerX(v: Vertex): real { CubeX(v) / 3.0 }
  function CornerY(v: Vertex): real { CubeY(v) / 3.0 }
  function CubeX(v: Vertex): real { Cubic(v.x, v.x, v.y) }
  function CubeY(v: Vertex): real { Cubic(v.x, v.y, v.y) }

  /** A cubic term does not depend on the order of its factors. */
  lemma CubicOrder(a: real, b: real, c: real)
    ensures Prod(a, Prod(b, c)) == Cubic(a, b, c) == Cubic(a, c, b) == Cubic(b, a, c)
    ensures Cubic(a, b, c) == Cubic(b, c, a) == Cubic(c, a, b) == Cubic(c, b, a)
  {
  }

  lemma CrossIs(q0: Vertex, q1: Vertex)
    ensures Cross(q0, q1) == Prod(q0.x, q1.y) - Prod(q1.x, q0.y)
  {
  }

  lemma FourProducts(a: real, b: real, p: real, q: real)
    ensures Prod(a + b, p - q) == Prod(a, p) - Prod(a, q) + Prod(b, p) - Prod(b, q)
  {
    hide Prod;
    ProdPlus(p - q, a, b);
    ProdPlus(a, p - q, q);
    ProdPlus(b, p - q, q);
  }

  lemma PolynomialAIs(q0: Vertex, q1: Vertex)
    ensures PolynomialA(q0, q1) == EdgeX(q0, q1) + 2.0 * CubeX(q0) - 2.0 * CubeX(q1)
  {
    hide Prod, Cubic, Cross;
    CrossIs(q0, q1);
    FourProducts(q0.x, q1.x, Prod(q0.x, q1.y), Prod(q1.x, q0.y));
    CubicOrder(q0.x, q0.x, q1.y);
    CubicOrder(q0.x, q1.x, q0.y);
    CubicOrder(q1.x, q0.x, q1.y);
    CubicOrder(q1.x, q1.x, q0.y);
  }

  lemma PolynomialBIs(q0: Vertex, q1: Vertex)
    ensures PolynomialB(q0, q1) == EdgeY(q0, q1) - 2.0 * CubeY(q0) + 2.0 * CubeY(q1)
  {
    hide Prod, Cubic, Cross;
    CrossIs(q0, q1);
    FourProducts(q0.y, q1.y, Prod(q0.x, q1.y), Prod(q1.x, q0.y));
    CubicOrder(q0.y, q0.x, q1.y);
    CubicOrder(q0.y, q1.x, q0.y);
    CubicOrder(q1.y, q0.x, q1.y);
    CubicOrder(q1.y, q1.x, q0.y);
  }

  lemma CoeffAIs(q0: Vertex, q1: Vertex)
    ensures CoeffA(q0, q1) == EdgeX(q0, q1) / 6.0 + CornerX(q0) - CornerX(q1)
  {
    hide PolynomialA, EdgeX, CubeX;
    PolynomialAIs(q0, q1);
  }

  lemma CoeffBIs(q0: Vertex, q1: Vertex)
    ensures CoeffB(q0, q1) == EdgeY(q0, q1) / 6.0 - CornerY(q0) + CornerY(q1)
  {
    hide PolynomialB, EdgeY, CubeY;
    PolynomialBIs(q0, q1);
  }

  lemma CoeffCIs(q0: Vertex, q1: Vertex)
    ensures CoeffC(q0, q1) == Cross(q0, q1) / 2.0
  {
  }

  /** Integral of a plane over the first n edges, as accumulated by integrate_subelement. */
  ghost function Accumulated(pl: Plane, p: seq<Vertex>, n: nat): real
    requires n <= |p|
  {
    if n == 0 then 0.0
    else
      var q0, q1 := Before(p, n - 1), p[n - 1];
      Accumulated(pl, p, n - 1) + Prod(pl.a, CoeffA(q0, q1)) + Prod(pl.b, CoeffB(q0, q1)) + Prod(pl.c, CoeffC(q0, q1))
  }

  /** Integral of a plane over a polygon, by its area and first moments. */
  ghost function Integral(pl: Plane, p: seq<Vertex>): real
  {
    Prod(pl.a, MomentX6(p) / 6.0) + Prod(pl.b, MomentY6(p) / 6.0) + Prod(pl.c, Area(p))
  }

  lemma {:induction false} AccumulatedIs(pl: Plane, p: seq<Vertex>, n: nat)
    requires 0 < n <= |p|
    ensures Accumulated(pl, p, n)
         == Prod(pl.a, EdgeSum(p, EdgeX, n) / 6.0 + CornerX(p[|p| - 1]) - CornerX(p[n - 1]))
          + Prod(pl.b, EdgeSum(p, EdgeY, n) / 6.0 - CornerY(p[|p| - 1]) + CornerY(p[n - 1]))
          + Prod(pl.c, EdgeSum(p, Cross, n) / 2.0)
  {
    hide Prod, CoeffA, CoeffB, CoeffC, CornerX, CornerY, EdgeX, EdgeY, Cross;
    var q0, q1 := Before(p, n - 1), p[n - 1];
    CoeffAIs(q0, q1);
    CoeffBIs(q0, q1);
    CoeffCIs(q0, q1);
    if n > 1 {
      AccumulatedIs(pl, p, n - 1);
      ProdPlus(pl.a, EdgeSum(p, EdgeX, n - 1) / 6.0 + CornerX(p[|p| - 1]) - CornerX(q0), CoeffA(q0, q1));
      ProdPlus(pl.b, EdgeSum(p, EdgeY, n - 1) / 6.0 - CornerY(p[|p| - 1]) + CornerY(q0), CoeffB(q0, q1));
      ProdPlus(pl.c, EdgeSum(p, Cross, n - 1) / 2.0, CoeffC(q0, q1));
    } else {
      assert EdgeSum(p, EdgeX, 0) == EdgeSum(p, EdgeY, 0) == EdgeSum(p, Cross, 0) == 0.0;
    }
  }

  /** Around the whole polygon the corner terms cancel. */
  lemma AccumulatedIsIntegral(pl: Plane, p: seq<Vertex>)
    requires |p| > 0
    ensures Accumulated(pl, p, |p|) == Integral(pl, p)
  {
    hide Prod, CornerX, CornerY, EdgeX, EdgeY, Cross, Accumulated;
    AccumulatedIs(pl, p, |p|);
  }

  /** integrate_subelement; None where the source fails, on a degenerate triangle or a polygon without vertices. */
  method IntegrateSubelement(e: seq<Vertex>, basis: nat, p: seq<Vertex>) returns (total: Option<real>)
    requires |e| == 3 && basis < 3
    ensures total.Some? <==> Det(e) != 0.0 && |p| > 0
    ensures total.Some? ==> total.value == Integral(BasisPlane(e, basis).value, p)
  {
    hide Prod, CoeffA, CoeffB, CoeffC, Det, IsBasis, PlaneOf;
    var solved := BasisPlane(e, basis);
    if solved == None || |p| == 0 { return None; }
    var pl := solved.value;
    var sum := 0.0;
    var q0 := p[|p| - 1];
    for k := 0 to |p|
      invariant k < |p| ==> q0 == Before(p, k)
      invariant sum == Accumulated(pl, p, k)
    {
      var q1 := p[k];
      sum := sum + Prod(pl.a, CoeffA(q0, q1)) + Prod(pl.b, CoeffB(q0, q1)) + Prod(pl.c, CoeffC(q0, q1));
      q0 := q1;
    }
    AccumulatedIsIntegral(pl, p);
    total := Some(sum);
  }

  /** The integral of a plane is the area of the polygon times the height of the plane at the centroid. */
  lemma IntegralAtCentroid(pl: Plane, p: seq<Vertex>)
    requires Area2(p) != 0.0
    ensures Integral(pl, p)
         == Prod(Area(p), Height(pl, Vertex(0, CentroidOf(MomentX6(p), Area2(p)), CentroidOf(MomentY6(p), Area2(p)))))
  {
    hide EdgeSum;
    MomentAtCentroid(MomentX6(p), Area2(p), pl.a);
    MomentAtCentroid(MomentY6(p), Area2(p), pl.b);
    var cx, cy := CentroidOf(MomentX6(p), Area2(p)), CentroidOf(MomentY6(p), Area2(p));
    HeightTimes(Area(p), pl, cx, cy);
    ProdComm(pl.c, Area(p));
  }

  lemma MomentAtCentroid(m: real, a2: real, a: real)
    requires a2 != 0.0
    ensures Prod(a, m / 6.0) == Prod(0.5 * a2, Prod(a, CentroidOf(m, a2)))
  {
    var w := 1.0 / (3.0 * a2);
    assert w * (3.0 * a2) == 1.0;
    assert a2 * w == 1.0 / 3.0;
    assert (a2 * w) * m == m / 3.0;
    assert a2 * (w * m) == (a2 * w) * m;
    assert 0.5 * (a2 * (w * m)) == m / 6.0;
    var c := w * m;
    assert 0.5 * a2 * c == m / 6.0;
    assert (0.5 * a2) * (a * c) == a * (0.5 * a2 * c);
  }

  lemma HeightTimes(r: real, pl: Plane, x: real, y: real)
    ensures Prod(r, Height(pl, Vertex(0, x, y))) == Prod(r, Prod(pl.a, x)) + Prod(r, Prod(pl.b, y)) + Prod(r, pl.c)
  {
  }

  // ---------------------------------------------------------------- the three basis functions together

  lemma PlanesAddUp(e: seq<Vertex>)
    requires |e| == 3 && Det(e) != 0.0
    ensures var p, q, r := BasisPlane(e, 0).value, BasisPlane(e, 1).value, BasisPlane(e, 2).value;
            p.a + q.a + r.a == 0.0 && p.b + q.b + r.b == 0.0 && p.c + q.c + r.c == 1.0
  {
    hide Cross, IsBasis, Det;
    var d := Det(e);
    ThreeOver(e[1].y - e[2].y, e[2].y - e[0].y, e[0].y - e[1].y, d);
    ThreeOver(e[2].x - e[1].x, e[0].x - e[2].x, e[1].x - e[0].x, d);
    ThreeOver(Cross(e[1], e[2]), Cross(e[2], e[0]), Cross(e[0], e[1]), d);
    DetIs(e);
  }

  lemma DetIs(e: seq<Vertex>)
    requires |e| == 3
    ensures Det(e) == Cross(e[0], e[1]) + Cross(e[1], e[2]) + Cross(e[2], e[0])
  {
  }

  lemma ThreeOver(a: real, b: real, c: real, d: real)
    requires d != 0.0
    ensures a / d + b / d + c / d == (a + b + c) / d
    ensures a + b + c == d ==> a / d + b / d + c / d == 1.0
    ensures a + b + c == 0.0 ==> a / d + b / d + c / d == 0.0
  {
  }

  /** The integrals of the three basis functions of an element add up to the area of the polygon. */
  lemma BasisIntegralsAddUp(e: seq<Vertex>, p: seq<Vertex>)
    requires |e| == 3 && Det(e) != 0.0
    ensures Integral(BasisPlane(e, 0).value, p) + Integral(BasisPlane(e, 1).value, p)
            + Integral(BasisPlane(e, 2).value, p)
         == Area(p)
  {
    hide Prod, EdgeSum, BasisPlane, Det;
    PlanesAddUp(e);
    var f, g, h := BasisPlane(e, 0).value, BasisPlane(e, 1).value, BasisPlane(e, 2).value;
    var x, y, a := MomentX6(p) / 6.0, MomentY6(p) / 6.0, Area(p);
    ThreeProds(x, f.a, g.a, h.a);
    ThreeProds(y, f.b, g.b, h.b);
    ThreeProds(a, f.c, g.c, h.c);
    ProdConst(x);
    ProdConst(y);
    ProdConst(a);
  }

  lemma ThreeProds(m: real, a: real, b: real, c: real)
    ensures Prod(a, m) + Prod(b, m) + Prod(c, m) == Prod(a + b + c, m)
  {
    hide Prod;
    ProdPlus(m, a, b);
    ProdPlus(m, a + b, c);
  }

  // ---------------------------------------------------------------- the matrix

  /** A cell of the exchange grid: part of atmosphere cell i and of element j. */
  datatype XCell = XCell(i: int, j: nat, vertices: seq<Vertex>)

  /** Atmosphere cells and vertices are numbered from the base of the ice grid's indexing. */
  ghost predicate CellsFit(cells: seq<XCell>, elements: seq<seq<Vertex>>, base: int, nA: nat, nI: nat)
  {
    && (forall k :: 0 <= k < |cells| ==> base <= cells[k].i < base + nA && cells[k].j < |elements|)
    && forall j :: 0 <= j < |elements| ==>
         |elements[j]| == 3 && forall b :: 0 <= b < 3 ==> base <= elements[j][b].index < base + nI
  }

  /** Cells that the source can integrate over. */
  ghost predicate Regular(c: XCell, elements: seq<seq<Vertex>>)
    requires c.j < |elements| && |elements[c.j]| == 3
  {
    Det(elements[c.j]) != 0.0 && |c.vertices| > 0
  }

  /** The area of atmosphere cell a that the first n exchange cells cover. */
  ghost function OverlapArea(cells: seq<XCell>, a: int, n: nat): real
    requires n <= |cells|
  {
    if n == 0 then 0.0
    else OverlapArea(cells, a, n - 1) + if cells[n - 1].i == a then Area(cells[n - 1].vertices) else 0.0
  }

  /** What the first n basis functions of an element contribute: integral over the polygon times value at the vertex. */
  ghost function ElementForm(e: seq<Vertex>, p: seq<Vertex>, base: int, y: seq<real>, n: nat): real
    requires |e| == 3 && Det(e) != 0.0 && n <= 3
    requires forall b :: 0 <= b < 3 ==> base <= e[b].index < base + |y|
  {
    if n == 0 then 0.0
    else ElementForm(e, p, base, y, n - 1) + Prod(Integral(BasisPlane(e, n - 1).value, p), y[e[n - 1].index - base])
  }

  ghost predicate AllRegular(cells: seq<XCell>, elements: seq<seq<Vertex>>, base: int, nA: nat, nI: nat)
  {
    CellsFit(cells, elements, base, nA, nI) && forall k :: 0 <= k < |cells| ==> Regular(cells[k], elements)
  }

  /** The contributions of the first n exchange cells to atmosphere cell i, for the values y at the vertices. */
  ghost function CellsForm(cells: seq<XCell>, elements: seq<seq<Vertex>>, base: int, nA: nat, y: seq<real>, i: int,
                           n: nat): real
    requires CellsFit(cells, elements, base, nA, |y|) && n <= |cells|
    requires forall k :: 0 <= k < n ==> Regular(cells[k], elements)
  {
    if n == 0 then 0.0
    else
      assert Regular(cells[n - 1], elements);
      CellsForm(cells, elements, base, nA, y, i, n - 1)
      + if cells[n - 1].i == i then ElementForm(elements[cells[n - 1].j], cells[n - 1].vertices, base, y, 3) else 0.0
  }

  /** M acts on vertex values as compute_AvI's matrix does. */
  ghost predicate ActsAsAvI(M: Triplets, cells: seq<XCell>, elements: seq<seq<Vertex>>, base: int, nA: nat, nI: nat)
    requires AllRegular(cells, elements, base, nA, nI)
  {
    && InBounds(M, nA, nI)
    && forall y: seq<real>, a :: |y| == nI && 0 <= a < nA ==>
         Apply(M, y, nA)[a] == CellsForm(cells, elements, base, nA, y, base + a, |cells|)
  }

  /** compute_AvI; None where the source fails. */
  method ComputeAvI(cells: seq<XCell>, elements: seq<seq<Vertex>>, base: int, nA: nat, nI: nat)
    returns (AvI: Option<(Triplets, seq<real>, seq<real>)>)
    requires CellsFit(cells, elements, base, nA, nI)
    ensures AvI.Some? <==> AllRegular(cells, elements, base, nA, nI)
    ensures AvI.Some? ==>
      && InBounds(AvI.value.0, nA, nI)
      && AvI.value.1 == RowSums(AvI.value.0, nA, nI) && AvI.value.2 == ColSums(AvI.value.0, nA, nI)
    ensures AvI.Some? ==> ActsAsAvI(AvI.value.0, cells, elements, base, nA, nI)
  {
    hide Prod, Det, Apply, Integral, RowSums, BasisPlane, ElementForm;
    var M: Triplets := [];
    NoWeight(nA);
    for k := 0 to |cells|
      invariant forall l :: 0 <= l < k ==> Regular(cells[l], elements)
      invariant InBounds(M, nA, nI)
      invariant forall y: seq<real>, a :: |y| == nI && 0 <= a < nA ==>
                  Apply(M, y, nA)[a] == CellsForm(cells, elements, base, nA, y, base + a, k)
    {
      var entries := CellEntries(cells[k], elements, base, nA, nI, M);
      if entries == None { return None; }
      M := entries.value;
    }
    AvI := Some((M, RowSums(M, nA, nI), ColSums(M, nA, nI)));
  }

  lemma NoWeight(m: nat)
    ensures forall y: seq<real>, a :: 0 <= a < m ==> Apply([], y, m)[a] == 0.0
  {
  }

  /** The loop over the partial basis functions of one exchange cell. */
  method CellEntries(c: XCell, elements: seq<seq<Vertex>>, base: int, nA: nat, nI: nat, M0: Triplets)
    returns (M: Option<Triplets>)
    requires CellsFit([c], elements, base, nA, nI) && InBounds(M0, nA, nI)
    requires base <= c.i < base + nA && c.j < |elements| && |elements[c.j]| == 3
    ensures M.Some? <==> Regular(c, elements)
    ensures M.Some? ==> InBounds(M.value, nA, nI)
    ensures M.Some? ==> forall y: seq<real>, a :: |y| == nI && 0 <= a < nA ==>
              Apply(M.value, y, nA)[a] == Apply(M0, y, nA)[a]
                + if base + a == c.i then ElementForm(elements[c.j], c.vertices, base, y, 3) else 0.0
  {
    hide Prod, Det, Apply, Integral, BasisPlane, ElementForm;
    var element := elements[c.j];
    var T := M0;
    if Det(element) != 0.0 { NoForm(element, c.vertices, base, nI); }
    for basis := 0 to |element|
      invariant basis > 0 ==> Regular(c, elements)
      invariant InBounds(T, nA, nI)
      invariant Det(element) != 0.0 ==> forall y: seq<real>, a :: |y| == nI && 0 <= a < nA ==>
                  Apply(T, y, nA)[a] == Apply(M0, y, nA)[a]
                    + if base + a == c.i then ElementForm(element, c.vertices, base, y, basis) else 0.0
    {
      var val := IntegrateSubelement(element, basis, c.vertices);
      if val == None { return None; }
      var e := Entry(c.i - base, element[basis].index - base, val.value);
      forall y: seq<real>, a | |y| == nI && 0 <= a < nA
        ensures InBounds(T + [e], nA, nI)
        ensures Apply(T + [e], y, nA)[a] == Apply(M0, y, nA)[a]
                  + if base + a == c.i then ElementForm(element, c.vertices, base, y, basis + 1) else 0.0
      {
        NextForm(element, c.vertices, base, y, basis);
        ApplyAppend(T, e, y, nA);
      }
      assert |Ones(nI)| == nI;
      T := T + [e];
      EntryFits(T, nA, nI);
    }
    M := Some(T);
  }

  lemma EntryFits(T: Triplets, m: nat, n: nat)
    requires |T| > 0 && InBounds(T[..|T| - 1], m, n) && T[|T| - 1].i < m && T[|T| - 1].j < n
    ensures InBounds(T, m, n)
  {
    forall k | 0 <= k < |T| ensures T[k].i < m && T[k].j < n {
      if k < |T| - 1 { assert T[..|T| - 1][k] == T[k]; }
    }
  }

  lemma NoForm(e: seq<Vertex>, p: seq<Vertex>, base: int, nI: nat)
    requires |e| == 3 && Det(e) != 0.0 && forall b :: 0 <= b < 3 ==> base <= e[b].index < base + nI
    ensures forall y: seq<real> :: |y| == nI ==> ElementForm(e, p, base, y, 0) == 0.0
  {
  }

  lemma NextForm(e: seq<Vertex>, p: seq<Vertex>, base: int, y: seq<real>, n: nat)
    requires |e| == 3 && Det(e) != 0.0 && n < 3 && forall b :: 0 <= b < 3 ==> base <= e[b].index < base + |y|
    ensures ElementForm(e, p, base, y, n + 1)
         == ElementForm(e, p, base, y, n) + Prod(Integral(BasisPlane(e, n).value, p), y[e[n].index - base])
  {
  }

  // ---------------------------------------------------------------- what the matrix holds

  /** The integrals over a polygon of those of the first n basis functions that belong to the vertex numbered ix. */
  ghost function VertexShare(e: seq<Vertex>, p: seq<Vertex>, ix: int, n: nat): real
    requires |e| == 3 && Det(e) != 0.0 && n <= 3
  {
    if n == 0 then 0.0
    else VertexShare(e, p, ix, n - 1) + if e[n - 1].index == ix then Integral(BasisPlane(e, n - 1).value, p) else 0.0
  }

  /** The shares of a vertex in the exchange cells of atmosphere cell i, among the first n. */
  ghost function Coefficient(cells: seq<XCell>, elements: seq<seq<Vertex>>, i: int, ix: int, n: nat): real
    requires n <= |cells|
    requires forall k :: 0 <= k < n ==> cells[k].j < |elements| && |elements[cells[k].j]| == 3
    requires forall k :: 0 <= k < n ==> Regular(cells[k], elements)
  {
    if n == 0 then 0.0
    else
      assert Regular(cells[n - 1], elements);
      Coefficient(cells, elements, i, ix, n - 1)
      + if cells[n - 1].i == i then VertexShare(elements[cells[n - 1].j], cells[n - 1].vertices, ix, 3) else 0.0
  }

  lemma {:induction false} UnitForm(e: seq<Vertex>, p: seq<Vertex>, base: int, nI: nat, v: nat, n: nat)
    requires |e| == 3 && Det(e) != 0.0 && n <= 3 && v < nI
    requires forall b :: 0 <= b < 3 ==> base <= e[b].index < base + nI
    ensures ElementForm(e, p, base, Unit(nI, v), n) == VertexShare(e, p, base + v, n)
  {
    hide Prod, Integral, BasisPlane, Det;
    if n > 0 {
      UnitForm(e, p, base, nI, v, n - 1);
      ProdConst(Integral(BasisPlane(e, n - 1).value, p));
    }
  }

  lemma {:induction false} UnitCells(cells: seq<XCell>, elements: seq<seq<Vertex>>, base: int, nA: nat, nI: nat, i: int,
                                     v: nat, n: nat)
    requires AllRegular(cells, elements, base, nA, nI) && n <= |cells| && v < nI
    ensures CellsForm(cells, elements, base, nA, Unit(nI, v), i, n) == Coefficient(cells, elements, i, base + v, n)
  {
    hide Regular, ElementForm, VertexShare;
    if n > 0 {
      UnitCells(cells, elements, base, nA, nI, i, v, n - 1);
      RegularIs(cells, elements, n - 1);
      UnitForm(elements[cells[n - 1].j], cells[n - 1].vertices, base, nI, v, 3);
    }
  }

  lemma RegularIs(cells: seq<XCell>, elements: seq<seq<Vertex>>, k: nat)
    requires k < |cells| && cells[k].j < |elements| && |elements[cells[k].j]| == 3 && Regular(cells[k], elements)
    ensures Det(elements[cells[k].j]) != 0.0 && |cells[k].vertices| > 0
  {
  }

  /** Each coefficient is the summed share of its vertex in the exchange cells of its atmosphere cell. */
  lemma CoefficientIs(M: Triplets, cells: seq<XCell>, elements: seq<seq<Vertex>>, base: int, nA: nat, nI: nat, a: nat,
                      v: nat)
    requires AllRegular(cells, elements, base, nA, nI) && ActsAsAvI(M, cells, elements, base, nA, nI)
    requires a < nA && v < nI
    ensures At(M, a, v) == Coefficient(cells, elements, base + a, base + v, |cells|)
  {
    hide Prod, Bilin, Apply, CellsForm, Regular;
    BilinUnits(M, nA, nI, a, v);
    ApplyElement(M, Unit(nI, v), nA, a);
    UnitCells(cells, elements, base, nA, nI, base + a, v, |cells|);
  }

  /** weightsI adds up the shares of a vertex over all atmosphere cells. */
  lemma VertexWeights(M: Triplets, cells: seq<XCell>, elements: seq<seq<Vertex>>, base: int, nA: nat, nI: nat, v: nat)
    requires AllRegular(cells, elements, base, nA, nI) && ActsAsAvI(M, cells, elements, base, nA, nI) && v < nI
    ensures |AllCoefficients(cells, elements, base, nA, nI, v)| == nA
    ensures ColSums(M, nA, nI)[v] == Sum(AllCoefficients(cells, elements, base, nA, nI, v))
  {
    hide Prod, Bilin, Apply, CellsForm, Regular, Coefficient;
    var u, s := Unit(nI, v), AllCoefficients(cells, elements, base, nA, nI, v);
    DotApplyTranspose(M, Ones(nA), u);
    DotComm(ColSums(M, nA, nI), u);
    DotUnit(nI, v, ColSums(M, nA, nI));
    DotApply(M, Ones(nA), u);
    forall a | 0 <= a < nA ensures Apply(M, u, nA)[a] == s[a] {
      UnitCells(cells, elements, base, nA, nI, base + a, v, |cells|);
    }
    assert Apply(M, u, nA) == s;
    SumDot(s);
  }

  ghost function AllCoefficients(cells: seq<XCell>, elements: seq<seq<Vertex>>, base: int, nA: nat, nI: nat,
                                 v: nat): seq<real>
    requires AllRegular(cells, elements, base, nA, nI)
  {
    seq(nA, a requires 0 <= a < nA => Coefficient(cells, elements, base + a, base + v, |cells|))
  }

  // ---------------------------------------------------------------- linear fields

  /** The first n exchange cells of atmosphere cell i, under the plane f: the volume. */
  ghost function Volume(cells: seq<XCell>, f: Plane, i: int, n: nat): real
    requires n <= |cells|
  {
    if n == 0 then 0.0
    else Volume(cells, f, i, n - 1) + if cells[n - 1].i == i then Integral(f, cells[n - 1].vertices) else 0.0
  }

  /** y holds, at every vertex, the height of the plane f. */
  ghost predicate Samples(y: seq<real>, elements: seq<seq<Vertex>>, base: int, f: Plane)
  {
    forall j, b :: 0 <= j < |elements| && 0 <= b < |elements[j]| ==>
      base <= elements[j][b].index < base + |y| && y[elements[j][b].index - base] == Height(f, elements[j][b])
  }

  /** A plane is fixed by its heights at the corners of a triangle. */
  lemma SamePlane(f: Plane, g: Plane, e: seq<Vertex>)
    requires |e| == 3 && Det(e) != 0.0 && forall l :: 0 <= l < 3 ==> Height(f, e[l]) == Height(g, e[l])
    ensures f == g
  {
    hide Height, Det, Cross;
    var a, b := f.a - g.a, f.b - g.b;
    var x1, y1, x2, y2 := e[1].x - e[0].x, e[1].y - e[0].y, e[2].x - e[0].x, e[2].y - e[0].y;
    HeightDifference(f, g, e[1], e[0]);
    HeightDifference(f, g, e[2], e[0]);
    DetOf(e);
    Cramer(a, b, x1, y1, x2, y2);
    HeightsApart(f, g, e[0]);
  }

  lemma HeightDifference(f: Plane, g: Plane, v: Vertex, w: Vertex)
    requires Height(f, v) == Height(g, v) && Height(f, w) == Height(g, w)
    ensures Prod(f.a - g.a, v.x - w.x) + Prod(f.b - g.b, v.y - w.y) == 0.0
  {
  }

  lemma HeightsApart(f: Plane, g: Plane, v: Vertex)
    requires f.a == g.a && f.b == g.b && Height(f, v) == Height(g, v)
    ensures f.c == g.c
  {
  }

  lemma DetOf(e: seq<Vertex>)
    requires |e| == 3
    ensures Det(e) == Prod(e[1].x - e[0].x, e[2].y - e[0].y) - Prod(e[2].x - e[0].x, e[1].y - e[0].y)
  {
  }

  lemma Cramer(a: real, b: real, x1: real, y1: real, x2: real, y2: real)
    requires Prod(a, x1) + Prod(b, y1) == 0.0 && Prod(a, x2) + Prod(b, y2) == 0.0
    requires Prod(x1, y2) - Prod(x2, y1) != 0.0
    ensures a == 0.0 && b == 0.0
  {
    hide Prod;
    var d := Prod(x1, y2) - Prod(x2, y1);
    Eliminate(a, b, x1, y1, x2, y2);
    Eliminate(b, a, y1, x1, y2, x2);
    ProdComm(y1, x2);
    ProdComm(y2, x1);
    ProdZero(a, d);
    ProdZero(b, -d);
  }

  lemma Eliminate(a: real, b: real, x1: real, y1: real, x2: real, y2: real)
    requires Prod(a, x1) + Prod(b, y1) == 0.0 && Prod(a, x2) + Prod(b, y2) == 0.0
    ensures Prod(a, Prod(x1, y2) - Prod(x2, y1)) == 0.0
  {
    hide Prod;
    ProdPlus(a, Prod(x1, y2), -Prod(x2, y1));
    ProdPlus(a, Prod(x2, y1), -Prod(x2, y1));
    ProdConst(a);
    ProdAssoc(a, x1, y2);
    ProdAssoc(a, x2, y1);
    ProdPlus(y2, Prod(a, x1), Prod(b, y1));
    ProdPlus(y1, Prod(a, x2), Prod(b, y2));
    ProdConst(y1);
    ProdConst(y2);
    ProdAssoc(b, y1, y2);
    ProdAssoc(b, y2, y1);
    ProdComm(y1, y2);
  }

  /** h[0] p[0] + h[1] p[1] + h[2] p[2] */
  ghost function Combined(h: seq<real>, p: seq<Plane>): Plane
    requires |h| == |p| == 3
  {
    Plane(Prod(h[0], p[0].a) + Prod(h[1], p[1].a) + Prod(h[2], p[2].a),
          Prod(h[0], p[0].b) + Prod(h[1], p[1].b) + Prod(h[2], p[2].b),
          Prod(h[0], p[0].c) + Prod(h[1], p[1].c) + Prod(h[2], p[2].c))
  }

  lemma TermTimes(h: real, a: real, b: real, c: real, x: real, y: real, z: real)
    ensures Prod(h, Prod(a, x) + Prod(b, y) + Prod(c, z))
         == Prod(Prod(h, a), x) + Prod(Prod(h, b), y) + Prod(Prod(h, c), z)
  {
    hide Prod;
    ProdPlus(h, Prod(a, x) + Prod(b, y), Prod(c, z));
    ProdPlus(h, Prod(a, x), Prod(b, y));
    ProdAssoc(h, a, x);
    ProdAssoc(h, b, y);
    ProdAssoc(h, c, z);
  }

  /** Heights and integrals of combined planes combine in the same way. */
  lemma CombinedIs(h: seq<real>, p: seq<Plane>, x: real, y: real, z: real)
    requires |h| == |p| == 3
    ensures var g := Combined(h, p);
      Prod(g.a, x) + Prod(g.b, y) + Prod(g.c, z)
      == Prod(h[0], Prod(p[0].a, x) + Prod(p[0].b, y) + Prod(p[0].c, z))
       + Prod(h[1], Prod(p[1].a, x) + Prod(p[1].b, y) + Prod(p[1].c, z))
       + Prod(h[2], Prod(p[2].a, x) + Prod(p[2].b, y) + Prod(p[2].c, z))
  {
    hide Prod;
    TermTimes(h[0], p[0].a, p[0].b, p[0].c, x, y, z);
    TermTimes(h[1], p[1].a, p[1].b, p[1].c, x, y, z);
    TermTimes(h[2], p[2].a, p[2].b, p[2].c, x, y, z);
    ThreeProds(x, Prod(h[0], p[0].a), Prod(h[1], p[1].a), Prod(h[2], p[2].a));
    ThreeProds(y, Prod(h[0], p[0].b), Prod(h[1], p[1].b), Prod(h[2], p[2].b));
    ThreeProds(z, Prod(h[0], p[0].c), Prod(h[1], p[1].c), Prod(h[2], p[2].c));
  }

  lemma HeightIs(p: Plane, v: Vertex)
    ensures Height(p, v) == Prod(p.a, v.x) + Prod(p.b, v.y) + Prod(p.c, 1.0)
  {
  }

  ghost function BasisPlanes(e: seq<Vertex>): seq<Plane>
    requires |e| == 3 && Det(e) != 0.0
  {
    [BasisPlane(e, 0).value, BasisPlane(e, 1).value, BasisPlane(e, 2).value]
  }

  /** The basis planes, weighted by the heights of a plane at the vertices, make up that plane. */
  lemma BasisSpans(e: seq<Vertex>, f: Plane)
    requires |e| == 3 && Det(e) != 0.0
    ensures Combined([Height(f, e[0]), Height(f, e[1]), Height(f, e[2])], BasisPlanes(e)) == f
  {
    hide Prod, Height, Det, BasisPlane, Combined;
    var h, p := [Height(f, e[0]), Height(f, e[1]), Height(f, e[2])], BasisPlanes(e);
    var g := Combined(h, p);
    forall l | 0 <= l < 3 ensures Height(g, e[l]) == Height(f, e[l]) {
      CombinedIs(h, p, e[l].x, e[l].y, 1.0);
      HeightIs(g, e[l]);
      HeightIs(p[0], e[l]);
      HeightIs(p[1], e[l]);
      HeightIs(p[2], e[l]);
      ProdConst(h[0]);
      ProdConst(h[1]);
      ProdConst(h[2]);
    }
    SamePlane(g, f, e);
  }

  /** Within one exchange cell the basis functions integrate every linear field exactly. */
  lemma ElementExact(e: seq<Vertex>, p: seq<Vertex>, base: int, y: seq<real>, f: Plane)
    requires |e| == 3 && Det(e) != 0.0 && forall b :: 0 <= b < 3 ==> base <= e[b].index < base + |y|
    requires forall b :: 0 <= b < 3 ==> y[e[b].index - base] == Height(f, e[b])
    ensures ElementForm(e, p, base, y, 3) == Integral(f, p)
  {
    hide Prod, Height, Det, BasisPlane, Combined, ElementForm, EdgeSum;
    var h, q := [Height(f, e[0]), Height(f, e[1]), Height(f, e[2])], BasisPlanes(e);
    BasisSpans(e, f);
    CombinedIs(h, q, MomentX6(p) / 6.0, MomentY6(p) / 6.0, Area(p));
    NextForm(e, p, base, y, 0);
    NextForm(e, p, base, y, 1);
    NextForm(e, p, base, y, 2);
    NoForm(e, p, base, |y|);
    ProdComm(h[0], Integral(q[0], p));
    ProdComm(h[1], Integral(q[1], p));
    ProdComm(h[2], Integral(q[2], p));
  }

  lemma {:induction false} CellsExact(cells: seq<XCell>, elements: seq<seq<Vertex>>, base: int, nA: nat, y: seq<real>,
                                      f: Plane, i: int, n: nat)
    requires AllRegular(cells, elements, base, nA, |y|) && Samples(y, elements, base, f) && n <= |cells|
    ensures CellsForm(cells, elements, base, nA, y, i, n) == Volume(cells, f, i, n)
  {
    hide Integral, ElementForm, Height, Regular;
    if n > 0 {
      CellsExact(cells, elements, base, nA, y, f, i, n - 1);
      RegularIs(cells, elements, n - 1);
      ElementExact(elements[cells[n - 1].j], cells[n - 1].vertices, base, y, f);
    }
  }

  /** AvI integrates linear fields exactly: applied to their values at the vertices it gives their volume. */
  lemma LinearFieldsExact(M: Triplets, cells: seq<XCell>, elements: seq<seq<Vertex>>, base: int, nA: nat, y: seq<real>,
                          f: Plane, a: nat)
    requires AllRegular(cells, elements, base, nA, |y|) && ActsAsAvI(M, cells, elements, base, nA, |y|) && a < nA
    requires Samples(y, elements, base, f)
    ensures Apply(M, y, nA)[a] == Volume(cells, f, base + a, |cells|)
  {
    hide Apply, CellsForm, Volume, Samples, Regular;
    CellsExact(cells, elements, base, nA, y, f, base + a, |cells|);
  }

  /** weightsA is the area of each atmosphere cell that the exchange cells cover. */
  lemma OverlapWeights(M: Triplets, cells: seq<XCell>, elements: seq<seq<Vertex>>, base: int, nA: nat, nI: nat, a: nat)
    requires AllRegular(cells, elements, base, nA, nI) && ActsAsAvI(M, cells, elements, base, nA, nI) && a < nA
    ensures RowSums(M, nA, nI)[a] == OverlapArea(cells, base + a, |cells|)
  {
    hide Apply, CellsForm, Volume, Regular, OverlapArea;
    var f := Plane(0.0, 0.0, 1.0);
    assert Samples(Ones(nI), elements, base, f);
    LinearFieldsExact(M, cells, elements, base, nA, Ones(nI), f, a);
    LevelVolume(cells, base + a, |cells|);
  }

  lemma {:induction false} LevelVolume(cells: seq<XCell>, i: int, n: nat)
    requires n <= |cells|
    ensures Volume(cells, Plane(0.0, 0.0, 1.0), i, n) == OverlapArea(cells, i, n)
  {
    hide Prod, EdgeSum;
    if n > 0 {
      LevelVolume(cells, i, n - 1);
      var p := cells[n - 1].vertices;
      ProdConst(MomentX6(p) / 6.0);
      ProdConst(MomentY6(p) / 6.0);
      ProdConst(Area(p));
    }
  }

  // ---------------------------------------------------------------- triangles

  lemma ThreeEdges(e: seq<Vertex>, f: (Vertex, Vertex) -> real)
    requires |e| == 3
    ensures EdgeSum(e, f, 3) == f(e[2], e[0]) + f(e[0], e[1]) + f(e[1], e[2])
  {
    assert EdgeSum(e, f, 0) == 0.0;
    assert EdgeSum(e, f, 1) == f(e[2], e[0]);
    assert EdgeSum(e, f, 2) == EdgeSum(e, f, 1) + f(e[0], e[1]);
  }

  lemma CornerTerms(u: Vertex, v: Vertex, w: Vertex)
    ensures Prod(v.x, Cross(w, u)) + Prod(w.x, Cross(u, v)) + Prod(u.x, Cross(v, w)) == 0.0
    ensures Prod(v.y, Cross(w, u)) + Prod(w.y, Cross(u, v)) + Prod(u.y, Cross(v, w)) == 0.0
  {
  }

  /** Sum of (ai + aj) Cij over the three edges, where the terms of the opposite corners cancel. */
  lemma CornerMoment(a0: real, a1: real, a2: real, c01: real, c12: real, c20: real)
    requires Prod(a1, c20) + Prod(a2, c01) + Prod(a0, c12) == 0.0
    ensures Prod(a2 + a0, c20) + Prod(a0 + a1, c01) + Prod(a1 + a2, c12) == Prod(a0 + a1 + a2, c01 + c12 + c20)
  {
    hide Prod;
    var s := a0 + a1 + a2;
    ProdPlus(s, c01 + c12, c20);
    ProdPlus(s, c01, c12);
    ProdPlus(c20, a2 + a0, a1);
    ProdPlus(c01, a0 + a1, a2);
    ProdPlus(c12, a1 + a2, a0);
  }

  /** The centroid of a triangle is the mean of its corners. */
  lemma TriangleCentroid(e: seq<Vertex>)
    requires |e| == 3
    ensures Area2(e) == Det(e)
    ensures MomentX6(e) == Prod(e[0].x + e[1].x + e[2].x, Area2(e))
    ensures MomentY6(e) == Prod(e[0].y + e[1].y + e[2].y, Area2(e))
  {
    hide Prod, EdgeSum;
    ThreeEdges(e, Cross);
    ThreeEdges(e, EdgeX);
    ThreeEdges(e, EdgeY);
    var c01, c12, c20 := Cross(e[0], e[1]), Cross(e[1], e[2]), Cross(e[2], e[0]);
    CornerTerms(e[0], e[1], e[2]);
    CornerMoment(e[0].x, e[1].x, e[2].x, c01, c12, c20);
    CornerMoment(e[0].y, e[1].y, e[2].y, c01, c12, c20);
  }

  lemma CentroidIsMean(e: seq<Vertex>)
    requires |e| == 3 && Det(e) != 0.0
    ensures Area2(e) != 0.0 && 3.0 * CentroidOf(MomentX6(e), Area2(e)) == e[0].x + e[1].x + e[2].x
    ensures 3.0 * CentroidOf(MomentY6(e), Area2(e)) == e[0].y + e[1].y + e[2].y
  {
    hide Det, EdgeSum;
    TriangleCentroid(e);
    OverThree(e[0].x + e[1].x + e[2].x, Area2(e));
    OverThree(e[0].y + e[1].y + e[2].y, Area2(e));
  }

  lemma OverThree(s: real, a2: real)
    requires a2 != 0.0
    ensures 3.0 * CentroidOf(Prod(s, a2), a2) == s
  {
    var w := 1.0 / (3.0 * a2);
    assert w * (3.0 * a2) == 1.0;
    assert 3.0 * (w * (s * a2)) == (w * (3.0 * a2)) * s;
  }

  /** A right triangle with legs w and h, listed anticlockwise, has half the area of the rectangle. */
  lemma RightTriangle(x: real, y: real, w: real, h: real)
    ensures Area([Vertex(0, x, y), Vertex(1, x + w, y), Vertex(2, x, y + h)]) == 0.5 * Prod(w, h)
  {
    hide EdgeSum;
    var e := [Vertex(0, x, y), Vertex(1, x + w, y), Vertex(2, x, y + h)];
    ThreeEdges(e, Cross);
  }
}
