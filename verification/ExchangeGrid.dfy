/**
 The exchange grid of an ice sheet and its Ur matrices (slib/icebin/IceRegridder_L0.cpp): every exchange cell
 lies in one atmosphere cell and one ice cell, and is interpolated between the elevation classes of its
 atmosphere cell.
 */
module ExchangeGrid {
  import opened Wrappers
  import opened Vectors
  import opened Ints
  import opened Sparse
  import opened VerticalInterp
  import opened Indexing

  datatype ExCell = ExCell(iA: nat, iI: nat, iX: nat, area: real)

  datatype InterpStyle = Z_INTERP | ELEV_CLASS_INTERP

  /** elevmaskI holds None (the source's NaN) where an ice cell is masked out; hc is the (A, HC) indexing. */
  datatype Sheet = Sheet(cells: seq<ExCell>, hcdefs: seq<real>, style: InterpStyle, hc: Shape,
                         elevmaskI: seq<Option<real>>, nA: nat, nX: nat) {

    ghost predicate Valid()
    {
      && (forall k :: 0 <= k < |cells| ==>
            cells[k].iA < nA && cells[k].iI < |elevmaskI| && cells[k].iX < nX && cells[k].area > 0.0)
      && Distinct(cells)
      && StrictlyAscending(hcdefs)
      && (|hcdefs| > 0 ==> ElevationIndexing(hc, nA, |hcdefs|))
    }

    function Extent(g: Grid): nat
    {
      match g
      case A => nA
      case E => nA * |hcdefs|
      case I => |elevmaskI|
    }

    predicate Unmasked(c: ExCell) { c.iI < |elevmaskI| && elevmaskI[c.iI].Some? }

    /** Elevation used for an unmasked cell: below-sea-level ice counts as 0. */
    function Elevation(c: ExCell): real
    {
      if c.iI < |elevmaskI| && elevmaskI[c.iI].Some? && elevmaskI[c.iI].value > 0.0 then elevmaskI[c.iI].value else 0.0
    }

    /** The elevations for which GvEp does not stop with an error. */
    ghost predicate InBounds(c: ExCell)
      requires StrictlyAscending(hcdefs)
    {
      |hcdefs| > 0 && (style == Z_INTERP ==> Linterp(hcdefs, Elevation(c)).Some?)
    }

    ghost predicate AllInBounds()
      requires StrictlyAscending(hcdefs)
    {
      |hcdefs| > 0 && forall k :: 0 <= k < |cells| && Unmasked(cells[k]) ==> InBounds(cells[k])
    }
  }

  datatype Grid = A | E | I

  ghost predicate Distinct(cells: seq<ExCell>)
  {
    forall j, k :: 0 <= j < k < |cells| ==> cells[j].iX != cells[k].iX
  }

  ghost predicate ElevationIndexing(hc: Shape, nA: nat, nhc: nat)
  {
    hc.Valid() && hc.Rank() == 2 && hc.base == [0, 0] && hc.extent == [nA, nhc]
  }

  /** Index of elevation class ihc of atmosphere cell iA: tuple_to_index of the (A, HC) indexing. */
  ghost function ElevationIndex(hc: Shape, iA: nat, ihc: nat): int
    requires hc.Valid() && hc.Rank() == 2
  {
    hc.Value([iA, ihc], 0)
  }

  /** The atmosphere cell and class that index_to_tuple finds for an elevation index. */
  lemma ElevationRoundTrip(hc: Shape, nA: nat, nhc: nat, iA: nat, ihc: nat)
    requires ElevationIndexing(hc, nA, nhc) && iA < nA && ihc < nhc
    ensures 0 <= ElevationIndex(hc, iA, ihc) < nA * nhc
    ensures forall u :: hc.HoldsDigits(u, ElevationIndex(hc, iA, ihc)) ==> u == [iA, ihc]
  {
    hide IsPermutation;
    var t := [iA, ihc];
    assert hc.InBox(t);
    forall u | hc.HoldsDigits(u, ElevationIndex(hc, iA, ihc)) ensures u == t {
      TupleRoundTrip(hc, t, u);
    }
    ValueBound(hc, t, 0);
    ElevationSize(hc, nA, nhc);
  }

  lemma ElevationInjective(hc: Shape, nA: nat, nhc: nat, iA: nat, ihc: nat, jA: nat, jhc: nat)
    requires ElevationIndexing(hc, nA, nhc) && iA < nA && ihc < nhc && jA < nA && jhc < nhc
    requires ElevationIndex(hc, iA, ihc) == ElevationIndex(hc, jA, jhc)
    ensures iA == jA && ihc == jhc
  {
    hide IsPermutation, Shape.Value, Shape.Stored;
    var ix := ElevationIndex(hc, iA, ihc);
    ElevationRoundTrip(hc, nA, nhc, iA, ihc);
    ElevationRoundTrip(hc, nA, nhc, jA, jhc);
    TwoIndices(hc, nA, nhc);
    var u := if hc.indices[0] == 0 then [hc.Stored(ix, 0), hc.Stored(ix, 1)] else [hc.Stored(ix, 1), hc.Stored(ix, 0)];
    assert hc.HoldsDigits(u, ix);
    assert [iA as int, ihc][0] == iA && [iA as int, ihc][1] == ihc;
    assert [jA as int, jhc][0] == jA && [jA as int, jhc][1] == jhc;
  }

  lemma IndexingIsValid(hc: Shape, nA: nat, nhc: nat)
    requires ElevationIndexing(hc, nA, nhc)
    ensures hc.Valid() && hc.Rank() == 2
  {
  }

  lemma TwoIndices(hc: Shape, nA: nat, nhc: nat)
    requires ElevationIndexing(hc, nA, nhc)
    ensures |hc.indices| == 2 && (hc.indices == [0, 1] || hc.indices == [1, 0])
  {
  }

  lemma ElevationSize(hc: Shape, nA: nat, nhc: nat)
    requires ElevationIndexing(hc, nA, nhc)
    ensures hc.Size() == nA * nhc
  {
    assert hc.Block(2) == 1;
    assert 0 in hc.indices && 1 in hc.indices;
    BlockStep(hc, 1);
    BlockStep(hc, 0);
  }

  /** The digits of an elevation index, as index_to_tuple gives them. */
  lemma TupleOf(hcA: Shape, nA: nat, nhc: nat, j: nat, u: seq<int>)
    requires ElevationIndexing(hcA, nA, nhc) && j < nA * nhc && hcA.HoldsDigits(u, j)
    ensures |u| == 2 && 0 <= u[0] < nA && 0 <= u[1] < nhc && j == ElevationIndex(hcA, u[0], u[1])
  {
    hide IsPermutation, Shape.Value, Shape.Stored;
    TwoIndices(hcA, nA, nhc);
    ElevationSize(hcA, nA, nhc);
    IndexRoundTrip(hcA, j, u);
    assert hcA.base[hcA.Last()] == 0;
    assert u == [u[0], u[1]];
  }

  lemma LargestStrideIndex(hc: Shape, nO: nat, nhc: nat, o: nat, ihc: nat)
    requires ElevationIndexing(hc, nO, nhc) && hc.indices == [1, 0]
    ensures ElevationIndex(hc, o, ihc) == Times(ihc, nO) + o
  {
    hide IsPermutation, Shape.Value, Times;
    TwoDimensional(hc, o, ihc);
  }

  /** The cell and class of an elevation index. */
  lemma CellAndClass(hc: Shape, nO: nat, nhc: nat, i: nat) returns (o: nat, h: nat)
    requires ElevationIndexing(hc, nO, nhc) && i < nO * nhc
    ensures o < nO && h < nhc && hc.Valid() && hc.Rank() == 2 && i == ElevationIndex(hc, o, h)
  {
    hide IsPermutation, Shape.Value, Shape.Stored;
    TwoIndices(hc, nO, nhc);
    var u := if hc.indices[0] == 0 then [hc.Stored(i, 0), hc.Stored(i, 1)] else [hc.Stored(i, 1), hc.Stored(i, 0)];
    assert hc.HoldsDigits(u, i);
    TupleOf(hc, nO, nhc, i, u);
    o, h := u[0], u[1];
  }

  // ---------------------------------------------------------------- stencils

  /** Share w of an exchange cell belongs to column j of a grid. */
  datatype Share = Share(j: nat, w: real)

  ghost function ToShare(j: int, w: real): Share
  {
    Share(if j < 0 then 0 else j, w)
  }

  /** The columns that one unmasked exchange cell has in the Ur matrix of a grid; only non-zero shares are stored. */
  ghost function Stencil(s: Sheet, g: Grid, c: ExCell): seq<Share>
    requires s.Valid() && c in s.cells && (g == E && s.Unmasked(c) ==> s.InBounds(c))
  {
    match g
    case A => [Share(c.iA, 1.0)]
    case I => [Share(c.iI, 1.0)]
    case E =>
      if !s.Unmasked(c) then []
      else if s.style == ELEV_CLASS_INTERP then
        [ToShare(ElevationIndex(s.hc, c.iA, Nearest(s.hcdefs, s.Elevation(c))), 1.0)]
      else
        var b := Linterp(s.hcdefs, s.Elevation(c)).value;
        (if b.w0 != 0.0 then [ToShare(ElevationIndex(s.hc, c.iA, b.i1 - 1), b.w0)] else [])
        + (if b.w1 != 0.0 then [ToShare(ElevationIndex(s.hc, c.iA, b.i1), b.w1)] else [])
  }

  ghost function Interpolate(st: seq<Share>, y: seq<real>): real
    requires forall k :: 0 <= k < |st| ==> st[k].j < |y|
  {
    if |st| == 0 then 0.0 else Interpolate(st[..|st| - 1], y) + Prod(st[|st| - 1].w, y[st[|st| - 1].j])
  }

  ghost function StencilEntries(c: ExCell, st: seq<Share>): (r: Triplets)
    ensures |r| == |st| && forall k :: 0 <= k < |st| ==> r[k] == Entry(c.iX, st[k].j, Prod(c.area, st[k].w))
  {
    seq(|st|, k requires 0 <= k < |st| => Entry(c.iX, st[k].j, Prod(c.area, st[k].w)))
  }

  /** The Ur matrix (exchange grid by grid g) of the first n exchange cells. */
  ghost function Ur(s: Sheet, g: Grid, n: nat): Triplets
    requires s.Valid() && (g == E ==> s.AllInBounds()) && n <= |s.cells|
  {
    if n == 0 then []
    else
      var c := s.cells[n - 1];
      Ur(s, g, n - 1) + if s.Unmasked(c) then StencilEntries(c, Stencil(s, g, c)) else []
  }

  lemma StencilInBounds(s: Sheet, g: Grid, c: ExCell)
    requires s.Valid() && c in s.cells && (g == E && s.Unmasked(c) ==> s.InBounds(c))
    ensures forall k :: 0 <= k < |Stencil(s, g, c)| ==> Stencil(s, g, c)[k].j < s.Extent(g)
  {
    hide IsPermutation, Shape.Valid, Shape.Value, Linterp, Nearest;
    if g == E && s.Unmasked(c) {
      var nhc := |s.hcdefs|;
      if s.style == ELEV_CLASS_INTERP {
        ElevationRoundTrip(s.hc, s.nA, nhc, c.iA, Nearest(s.hcdefs, s.Elevation(c)));
      } else {
        var b := Linterp(s.hcdefs, s.Elevation(c)).value;
        ElevationRoundTrip(s.hc, s.nA, nhc, c.iA, b.i1 - 1);
        ElevationRoundTrip(s.hc, s.nA, nhc, c.iA, b.i1);
      }
    }
  }

  lemma {:induction false} UrInBounds(s: Sheet, g: Grid, n: nat)
    requires s.Valid() && (g == E ==> s.AllInBounds()) && n <= |s.cells|
    ensures InBounds(Ur(s, g, n), s.nX, s.Extent(g))
  {
    hide Stencil;
    if n > 0 {
      UrInBounds(s, g, n - 1);
      StencilInBounds(s, g, s.cells[n - 1]);
    }
  }

  // ---------------------------------------------------------------- the loops

  /** GvAp with the exchange grid as interpolation grid. */
  method GvAp(s: Sheet) returns (ret: Triplets)
    requires s.Valid()
    ensures ret == Ur(s, A, |s.cells|)
  {
    ret := [];
    for id := 0 to |s.cells|
      invariant ret == Ur(s, A, id)
    {
      var c := s.cells[id];
      if s.elevmaskI[c.iI].Some? {
        if c.area > 0.0 {
          ret := ret + [Entry(c.iX, c.iA, c.area)];
          ProdConst(c.area);
          assert StencilEntries(c, Stencil(s, A, c)) == [Entry(c.iX, c.iA, c.area)];
        }
      }
    }
  }

  /** GvI with the exchange grid as interpolation grid. */
  method GvI(s: Sheet) returns (ret: Triplets)
    requires s.Valid()
    ensures ret == Ur(s, I, |s.cells|)
  {
    ret := [];
    for id := 0 to |s.cells|
      invariant ret == Ur(s, I, id)
    {
      var c := s.cells[id];
      if s.elevmaskI[c.iI].Some? {
        ret := ret + [Entry(c.iX, c.iI, c.area)];
        ProdConst(c.area);
        assert StencilEntries(c, Stencil(s, I, c)) == [Entry(c.iX, c.iI, c.area)];
      }
    }
  }

  /** tuple_to_index of the (A, HC) indexing, for zero bases. */
  method TupleToIndex(hc: Shape, iA: nat, ihc: nat) returns (ix: int)
    requires hc.Valid() && hc.Rank() == 2 && hc.base == [0, 0]
    ensures ix == ElevationIndex(hc, iA, ihc)
  {
    var indexing := new Indexer(hc.base, hc.extent, hc.indices);
    ix := indexing.TupleToIndex([iA, ihc]);
  }

  /** The body of the loop of GvEp for an unmasked cell; None where the source stops with an error. */
  method ElevationEntries(s: Sheet, c: ExCell) returns (ret: Option<Triplets>)
    requires s.Valid() && |s.hcdefs| > 0 && c in s.cells && s.Unmasked(c)
    ensures ret.Some? <==> s.InBounds(c)
    ensures ret.Some? ==> ret.value == StencilEntries(c, Stencil(s, E, c))
  {
    hide IsPermutation, Shape.Valid, Shape.Value, Nearest, Distinct, Prod;
    var e := s.elevmaskI[c.iI].value;
    var elevation := if e > 0.0 then e else 0.0;
    match s.style {
      case Z_INTERP =>
        var w := Linterp(s.hcdefs, elevation);
        if w == None {
          return None;
        }
        var m: Triplets := [];
        if w.value.w0 != 0.0 {
          var iE0 := TupleToIndex(s.hc, c.iA, w.value.i1 - 1);
          ElevationRoundTrip(s.hc, s.nA, |s.hcdefs|, c.iA, w.value.i1 - 1);
          m := m + [Entry(c.iX, iE0, Prod(c.area, w.value.w0))];
        }
        if w.value.w1 != 0.0 {
          var iE1 := TupleToIndex(s.hc, c.iA, w.value.i1);
          ElevationRoundTrip(s.hc, s.nA, |s.hcdefs|, c.iA, w.value.i1);
          m := m + [Entry(c.iX, iE1, Prod(c.area, w.value.w1))];
        }
        assert m == StencilEntries(c, Stencil(s, E, c));
        ret := Some(m);
      case ELEV_CLASS_INTERP =>
        var ihc := Nearest(s.hcdefs, elevation);
        var iE := TupleToIndex(s.hc, c.iA, ihc);
        ElevationRoundTrip(s.hc, s.nA, |s.hcdefs|, c.iA, ihc);
        ProdConst(c.area);
        assert [Entry(c.iX, iE, c.area)] == StencilEntries(c, Stencil(s, E, c));
        ret := Some([Entry(c.iX, iE, c.area)]);
    }
  }

  /** GvEp with the exchange grid as interpolation grid; None where the source stops with an error. */
  method GvEp(s: Sheet) returns (ret: Option<Triplets>)
    requires s.Valid()
    ensures ret.Some? <==> s.AllInBounds()
    ensures ret.Some? ==> ret.value == Ur(s, E, |s.cells|)
  {
    hide ElevationIndexing, Stencil, Distinct, Sheet.InBounds;
    if |s.hcdefs| == 0 {
      return None;
    }
    var m: Triplets := [];
    for id := 0 to |s.cells|
      invariant forall k :: 0 <= k < id && s.Unmasked(s.cells[k]) ==> s.InBounds(s.cells[k])
      invariant m == UrPrefix(s, id)
    {
      var c := s.cells[id];
      if s.elevmaskI[c.iI].Some? {
        var entries := ElevationEntries(s, c);
        if entries == None {
          return None;
        }
        m := m + entries.value;
      }
    }
    UrPrefixIsUr(s, |s.cells|);
    ret := Some(m);
  }

  /** Ur for E while the remaining elevations have not been looked at yet. */
  ghost function UrPrefix(s: Sheet, n: nat): Triplets
    requires s.Valid() && n <= |s.cells|
    requires forall k :: 0 <= k < n && s.Unmasked(s.cells[k]) ==> s.InBounds(s.cells[k])
  {
    if n == 0 then []
    else
      var c := s.cells[n - 1];
      UrPrefix(s, n - 1) + if s.Unmasked(c) then StencilEntries(c, Stencil(s, E, c)) else []
  }

  lemma {:induction false} UrPrefixIsUr(s: Sheet, n: nat)
    requires s.Valid() && s.AllInBounds() && n <= |s.cells|
    ensures UrPrefix(s, n) == Ur(s, E, n)
  {
    hide Stencil;
    if n > 0 {
      UrPrefixIsUr(s, n - 1);
    }
  }
}
