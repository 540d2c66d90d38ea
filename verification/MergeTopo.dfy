/**
 Local ice sheets are merged into the global topography (merge_topoO in slib/icebin/modele/merge_topo.cpp): ocean
 cells that gain land become land, and single ocean cells enclosed by land are filled.
 */
module MergeTopo {
  import opened Ints
  import opened Vectors

  /** The topography of one ocean cell; Op as the ice model sees it, Om as the climate model does. */
  datatype Cell = Cell(foceanOp: real, fgiceOp: real, zatmoOp: real, foceanOm: real, flakeOm: real, fgrndOm: real,
                       fgiceOm: real, zatmoOm: real, zicetop: real, mergemask: bool)

  /** Land and ice that the local ice sheets add to a cell. */
  datatype Gain = Gain(area: real, giceO: real, zicetopO: real, contO: real, zatmoO: real)

  /** The block that turns an ocean cell into land. */
  function ToLand(c: Cell): Cell
    requires c.foceanOp != 1.0
  {
    var fact := 1.0 / (1.0 - c.foceanOp);
    var fgiceOm := c.fgiceOp * fact;
    c.(foceanOm := 0.0, fgiceOm := fgiceOm, fgrndOm := 1.0 - fgiceOm - c.flakeOm, zatmoOm := c.zatmoOp * fact)
  }

  /** What the ice model gains. */
  function AddGain(c: Cell, g: Gain): Cell
    requires g.area != 0.0
  {
    var diff := g.giceO / g.area;
    var fgiceOp := c.fgiceOp + diff;
    c.(fgiceOp := fgiceOp, foceanOp := c.foceanOp - g.contO / g.area, zatmoOp := c.zatmoOp + g.zatmoO / g.area,
       mergemask := c.mergemask || diff != 0.0,
       zicetop := if fgiceOp != 0.0 then (c.zicetop * c.fgiceOp + g.zicetopO / g.area * diff) / fgiceOp else c.zicetop)
  }

  function Updated(c: Cell, g: Gain): Cell
    requires g.area != 0.0
  {
    if g.contO == 0.0 then c
    else
      var d := AddGain(c, g);
      if d.foceanOp < 0.5 && d.foceanOm == 1.0 then ToLand(d).(mergemask := true) else d
  }

  ghost predicate FractionsAddUp(c: Cell)
  {
    c.foceanOm + c.fgrndOm + c.flakeOm + c.fgiceOm == 1.0
  }

  /** The loop of merge_topoO over all ocean cells. */
  method UpdateCells(cells: array<Cell>, gains: seq<Gain>)
    requires |gains| == cells.Length && forall k :: 0 <= k < |gains| ==> gains[k].area != 0.0
    modifies cells
    ensures forall k :: 0 <= k < cells.Length ==> cells[k] == Updated(old(cells[k]), gains[k])
  {
    hide AddGain, ToLand;
    for iO := 0 to cells.Length
      invariant forall k :: 0 <= k < cells.Length ==>
                    cells[k] == if k < iO then Updated(old(cells[k]), gains[k]) else old(cells[k])
    {
      if gains[iO].contO == 0.0 { continue; }
      cells[iO] := AddGain(cells[iO], gains[iO]);
      if cells[iO].foceanOp < 0.5 && cells[iO].foceanOm == 1.0 {
        cells[iO] := ToLand(cells[iO]).(mergemask := true);
      }
    }
  }

  /** A cell that is turned into land is all land, lake and ice, and the other cells keep their fractions. */
  lemma UpdateKeepsFractions(c: Cell, g: Gain)
    requires g.area != 0.0
    ensures FractionsAddUp(c) ==> FractionsAddUp(Updated(c, g))
    ensures c.foceanOm != 1.0 ==> Updated(c, g).foceanOm == c.foceanOm
    ensures Updated(c, g).foceanOm == c.foceanOm || Updated(c, g).foceanOm == 0.0
    ensures Updated(c, g).foceanOm == 1.0 && g.contO != 0.0 ==> Updated(c, g).foceanOp >= 0.5
  {
  }

  /** What the ice model has in a cell stays in place when the climate model takes all of the cell for land. */
  ghost predicate ScaledToLand(c: Cell)
  {
    && c.foceanOm == 0.0
    && Prod(1.0 - c.foceanOp, c.fgiceOm) == c.fgiceOp && Prod(1.0 - c.foceanOp, c.zatmoOm) == c.zatmoOp
    && c.fgrndOm + c.fgiceOm + c.flakeOm == 1.0
  }

  /** All that the climate model sees of a cell. */
  ghost predicate SameForClimate(c: Cell, d: Cell)
  {
    && d.foceanOm == c.foceanOm && d.flakeOm == c.flakeOm && d.fgrndOm == c.fgrndOm && d.fgiceOm == c.fgiceOm
    && d.zatmoOm == c.zatmoOm
  }

  lemma ToLandIs(c: Cell)
    requires c.foceanOp != 1.0
    ensures ScaledToLand(ToLand(c)) && ToLand(c).flakeOm == c.flakeOm && ToLand(c).mergemask == c.mergemask
    ensures ToLand(c).foceanOp == c.foceanOp && ToLand(c).fgiceOp == c.fgiceOp && ToLand(c).zatmoOp == c.zatmoOp
    ensures ToLand(c).zicetop == c.zicetop
  {
    TimesInverse(1.0 - c.foceanOp, c.fgiceOp);
    TimesInverse(1.0 - c.foceanOp, c.zatmoOp);
  }

  lemma TimesInverse(d: real, x: real)
    requires d != 0.0
    ensures Prod(d, x * (1.0 / d)) == x
  {
  }

  lemma PerArea(area: real, x: real, y: real)
    requires area != 0.0
    ensures Prod(area, x + y / area) == Prod(area, x) + y && Prod(area, x - y / area) == Prod(area, x) - y
  {
    assert (y / area) * area == y;
  }

  /**
   The ice model's areas: the ocean shrinks by the new continent, ice grows by the new ice, the mean elevation by the
   new land; the volume below the ice top grows by the new ice at the elevation that the ice sheets report.
   */
  lemma AddGainAccounts(c: Cell, g: Gain)
    requires g.area != 0.0
    ensures Prod(g.area, AddGain(c, g).foceanOp) == Prod(g.area, c.foceanOp) - g.contO
    ensures Prod(g.area, AddGain(c, g).fgiceOp) == Prod(g.area, c.fgiceOp) + g.giceO
    ensures Prod(g.area, AddGain(c, g).zatmoOp) == Prod(g.area, c.zatmoOp) + g.zatmoO
    ensures AddGain(c, g).fgiceOp != 0.0 ==>
              Prod(g.area, Prod(AddGain(c, g).fgiceOp, AddGain(c, g).zicetop))
              == Prod(g.area, Prod(c.fgiceOp, c.zicetop)) + Prod(g.zicetopO / g.area, g.giceO)
    ensures AddGain(c, g).fgiceOp == 0.0 ==> AddGain(c, g).zicetop == c.zicetop
    ensures AddGain(c, g).mergemask <==> c.mergemask || g.giceO != 0.0
    ensures SameForClimate(c, AddGain(c, g))
  {
    PerArea(g.area, c.foceanOp, g.contO);
    PerArea(g.area, c.fgiceOp, g.giceO);
    PerArea(g.area, c.zatmoOp, g.zatmoO);
    Vanishes(g.giceO, g.area);
    if AddGain(c, g).fgiceOp != 0.0 {
      IceTop(g.area, c.fgiceOp, c.zicetop, g.zicetopO / g.area, g.giceO);
    }
  }

  lemma Vanishes(x: real, area: real)
    requires area != 0.0
    ensures x / area == 0.0 <==> x == 0.0
  {
    assert (x / area) * area == x;
  }

  lemma IceTop(area: real, fgice: real, ztop: real, z: real, gice: real)
    requires area != 0.0 && fgice + gice / area != 0.0
    ensures var f := fgice + gice / area;
      Prod(area, Prod(f, (ztop * fgice + z * (gice / area)) / f)) == Prod(area, Prod(fgice, ztop)) + Prod(z, gice)
  {
    var f, v, d := fgice + gice / area, ztop * fgice + z * (gice / area), gice / area;
    assert Prod(f, v / f) == v;
    assert d * area == gice;
    assert area * v == area * (ztop * fgice) + z * (d * area);
  }

  /** A cell becomes land exactly if it was all ocean to the climate model and less than half of it is left as ocean. */
  ghost predicate BecomesLand(c: Cell, g: Gain)
  {
    g.contO != 0.0 && c.foceanOm == 1.0 && Prod(g.area, c.foceanOp) - g.contO < Prod(0.5, g.area)
  }

  lemma HalfOf(area: real, f: real)
    requires area > 0.0
    ensures f < 0.5 <==> Prod(area, f) < Prod(0.5, area)
  {
  }

  /** What one pass through the update loop does to a cell, in the quantities that the ice sheets bring. */
  lemma UpdateAccounts(c: Cell, g: Gain)
    requires g.area > 0.0
    ensures g.contO == 0.0 ==> Updated(c, g) == c
    ensures var d := Updated(c, g); g.contO != 0.0 ==>
      && Prod(g.area, d.foceanOp) == Prod(g.area, c.foceanOp) - g.contO
      && Prod(g.area, d.fgiceOp) == Prod(g.area, c.fgiceOp) + g.giceO
      && Prod(g.area, d.zatmoOp) == Prod(g.area, c.zatmoOp) + g.zatmoO
      && (d.fgiceOp != 0.0 ==> Prod(g.area, Prod(d.fgiceOp, d.zicetop))
                               == Prod(g.area, Prod(c.fgiceOp, c.zicetop)) + Prod(g.zicetopO / g.area, g.giceO))
      && (d.fgiceOp == 0.0 ==> d.zicetop == c.zicetop)
      && (d.mergemask <==> c.mergemask || g.giceO != 0.0 || BecomesLand(c, g))
    ensures if BecomesLand(c, g) then ScaledToLand(Updated(c, g)) && Updated(c, g).flakeOm == c.flakeOm
            else SameForClimate(c, Updated(c, g))
  {
    hide AddGain, ToLand, Prod;
    if g.contO != 0.0 {
      var d := AddGain(c, g);
      AddGainAccounts(c, g);
      HalfOf(g.area, d.foceanOp);
      if d.foceanOp != 1.0 {
        ToLandIs(d);
      }
    }
  }

  // ---------------------------------------------------------------- enclosed ocean cells

  function At(im: int, j: int, i: int): int { Times(j, im) + i }

  ghost predicate Interior(jm: int, im: int, j: int, i: int)
  {
    0 < j < jm - 1 && 0 < i < im - 1
  }

  /** An ocean cell with four land neighbours that the ice model has some continent in. */
  ghost predicate Enclosed(cells: seq<Cell>, jm: int, im: int, j: int, i: int)
    requires |cells| == Times(jm, im)
  {
    && Interior(jm, im, j, i)
    && IsLand(cells, At(im, j - 1, i)) && IsLand(cells, At(im, j + 1, i))
    && IsLand(cells, At(im, j, i - 1)) && IsLand(cells, At(im, j, i + 1))
    && IsFillable(cells, At(im, j, i))
  }

  ghost predicate IsLand(cells: seq<Cell>, n: int)
  {
    0 <= n < |cells| && cells[n].foceanOm == 0.0
  }

  ghost predicate IsFillable(cells: seq<Cell>, n: int)
  {
    0 <= n < |cells| && cells[n].foceanOm == 1.0 && cells[n].foceanOp != 1.0
  }

  /** Every enclosed cell filled, all at once. */
  ghost predicate Filled(cells: seq<Cell>, filled: seq<Cell>, jm: int, im: int)
    requires |cells| == Times(jm, im)
  {
    && |filled| == |cells|
    && forall j, i :: 0 <= j < jm && 0 <= i < im ==> FilledAt(cells, filled, jm, im, j, i)
  }

  ghost predicate FilledAt(cells: seq<Cell>, filled: seq<Cell>, jm: int, im: int, j: int, i: int)
    requires |cells| == Times(jm, im) == |filled|
  {
    var n := At(im, j, i);
    0 <= n < |cells| &&
      filled[n] == if Enclosed(cells, jm, im, j, i) && cells[n].foceanOp != 1.0 then ToLand(cells[n]) else cells[n]
  }

  lemma AtBounds(jm: int, im: int, j: int, i: int)
    requires 0 <= j < jm && 0 <= i < im
    ensures 0 <= At(im, j, i) < Times(jm, im) && At(im, j + 1, 0) == At(im, j, im)
    ensures At(im, j + 1, i) == At(im, j, i) + im && At(im, j - 1, i) == At(im, j, i) - im
  {
    hide Times;
    TimesBound(j, jm, im, i);
    TimesFacts(im, jm, 0);
    TimesFacts(j, im, 0);
    TimesFacts(jm, im, 0);
    TimesPlus(j, 1, im);
    TimesPlus(j - 1, 1, im);
    TimesNonNegative(j, im);
  }

  /** State of the pass once all cells numbered below n have been visited. */
  ghost predicate PassedTo(cells: seq<Cell>, now: seq<Cell>, jm: int, im: int, n: int)
    requires |cells| == Times(jm, im)
  {
    && |now| == |cells|
    && forall j, i :: 0 <= j < jm && 0 <= i < im ==>
         if At(im, j, i) < n then FilledAt(cells, now, jm, im, j, i) else StillAt(cells, now, At(im, j, i))
  }

  ghost predicate StillAt(cells: seq<Cell>, now: seq<Cell>, n: int)
  {
    0 <= n < |cells| == |now| && now[n] == cells[n]
  }

  /** A neighbour that has already been filled would need land here, so looking at it now or before is the same. */
  lemma NeighbourUnchanged(cells: seq<Cell>, now: seq<Cell>, jm: int, im: int, n: int, j: int, i: int, q: int, p: int)
    requires |cells| == Times(jm, im) && PassedTo(cells, now, jm, im, n)
    requires 0 <= j < jm && 0 <= i < im && 0 <= q < jm && 0 <= p < im
    requires (q == j && (p == i - 1 || p == i + 1)) || (p == i && (q == j - 1 || q == j + 1))
    requires IsFillable(cells, At(im, j, i))
    ensures IsLand(now, At(im, q, p)) <==> IsLand(cells, At(im, q, p))
  {
    hide Times, ToLand, At;
    if At(im, q, p) < n {
      assert FilledAt(cells, now, jm, im, q, p);
    } else {
      assert StillAt(cells, now, At(im, q, p));
    }
  }

  /** The test on the current state agrees with the test on the state before the pass. */
  lemma EnclosedNow(cells: seq<Cell>, now: seq<Cell>, jm: int, im: int, j: int, i: int)
    requires |cells| == Times(jm, im) && PassedTo(cells, now, jm, im, At(im, j, i)) && Interior(jm, im, j, i)
    ensures |now| == |cells| && (Enclosed(now, jm, im, j, i) <==> Enclosed(cells, jm, im, j, i))
  {
    hide Times, ToLand, At, FilledAt, IsLand;
    var n := At(im, j, i);
    assert StillAt(cells, now, n);
    if IsFillable(cells, n) {
      NeighbourUnchanged(cells, now, jm, im, n, j, i, j - 1, i);
      NeighbourUnchanged(cells, now, jm, im, n, j, i, j + 1, i);
      NeighbourUnchanged(cells, now, jm, im, n, j, i, j, i - 1);
      NeighbourUnchanged(cells, now, jm, im, n, j, i, j, i + 1);
    }
  }

  lemma PassNext(cells: seq<Cell>, now: seq<Cell>, after: seq<Cell>, jm: int, im: int, j: int, i: int)
    requires |cells| == Times(jm, im) && PassedTo(cells, now, jm, im, At(im, j, i)) && 0 <= j < jm && 0 <= i < im
    requires |after| == |cells| && FilledAt(cells, after, jm, im, j, i)
    requires forall k :: 0 <= k < |cells| && k != At(im, j, i) ==> after[k] == now[k]
    ensures PassedTo(cells, after, jm, im, At(im, j, i) + 1)
  {
    hide Times, ToLand, Enclosed, At;
    forall q, p | 0 <= q < jm && 0 <= p < im
      ensures if At(im, q, p) < At(im, j, i) + 1 then FilledAt(cells, after, jm, im, q, p)
              else StillAt(cells, after, At(im, q, p))
    {
      SameNumber(im, j, i, q, p);
      if At(im, q, p) < At(im, j, i) {
        assert FilledAt(cells, now, jm, im, q, p);
      } else if At(im, q, p) > At(im, j, i) {
        assert StillAt(cells, now, At(im, q, p));
      }
    }
  }

  lemma SameNumber(im: int, j: int, i: int, q: int, p: int)
    requires 0 <= i < im && 0 <= p < im
    ensures At(im, j, i) == At(im, q, p) ==> j == q && i == p
  {
    hide Times, Quot, Rem;
    QuotRemUnique(j, im, i);
    QuotRemUnique(q, im, p);
  }

  /** The raster pass that fills enclosed cells in place: it does what filling all of them at once would do. */
  method FillEnclosed(cells: array<Cell>, jm: int, im: int)
    requires jm >= 0 && im >= 0 && cells.Length == Times(jm, im)
    modifies cells
    ensures Filled(old(cells[..]), cells[..], jm, im)
  {
    hide Times, ToLand, Enclosed, At, FilledAt, PassedTo;
    ghost var before := cells[..];
    PassStarts(before, jm, im);
    for j := 0 to jm
      invariant PassedTo(before, cells[..], jm, im, At(im, j, 0))
    {
      for i := 0 to im
        invariant PassedTo(before, cells[..], jm, im, At(im, j, i))
      {
        ghost var now := cells[..];
        AtBounds(jm, im, j, i);
        AtNext(im, j, i);
        NowFits(before, now, jm, im, At(im, j, i));
        if i == 0 || i == im - 1 || j == 0 || j == jm - 1 {
          NotInterior(before, now, jm, im, j, i);
          PassNext(before, now, now, jm, im, j, i);
          continue;
        }
        AtBounds(jm, im, j - 1, i);
        AtBounds(jm, im, j + 1, i);
        AtBounds(jm, im, j, i - 1);
        AtBounds(jm, im, j, i + 1);
        EnclosedNow(before, now, jm, im, j, i);
        EnclosedIs(now, jm, im, j, i);
        var n := At(im, j, i);
        if cells[At(im, j - 1, i)].foceanOm == 0.0 && cells[At(im, j + 1, i)].foceanOm == 0.0
           && cells[At(im, j, i - 1)].foceanOm == 0.0 && cells[At(im, j, i + 1)].foceanOm == 0.0
           && cells[n].foceanOm == 1.0 && cells[n].foceanOp != 1.0 {
          cells[n] := ToLand(cells[n]);
        }
        StepIs(before, now, cells[..], jm, im, j, i);
        PassNext(before, now, cells[..], jm, im, j, i);
      }
      RowEnds(im, j);
    }
    PassEnds(before, cells[..], jm, im);
  }

  lemma AtNext(im: int, j: int, i: int)
    ensures At(im, j, i + 1) == At(im, j, i) + 1
  {
  }

  lemma RowEnds(im: int, j: int)
    ensures At(im, j, im) == At(im, j + 1, 0)
  {
    hide Times;
    TimesPlus(j, 1, im);
    TimesFacts(im, im, 0);
  }

  lemma NowFits(cells: seq<Cell>, now: seq<Cell>, jm: int, im: int, n: int)
    requires |cells| == Times(jm, im) && PassedTo(cells, now, jm, im, n)
    ensures |now| == |cells|
  {
  }

  lemma PassStarts(cells: seq<Cell>, jm: int, im: int)
    requires |cells| == Times(jm, im) && jm >= 0 && im >= 0
    ensures PassedTo(cells, cells, jm, im, At(im, 0, 0))
  {
    hide Times, FilledAt, At;
    forall j, i | 0 <= j < jm && 0 <= i < im
      ensures At(im, j, i) >= At(im, 0, 0) && StillAt(cells, cells, At(im, j, i))
    {
      AtBounds(jm, im, j, i);
      FirstNumber(im);
    }
  }

  lemma FirstNumber(im: int)
    ensures At(im, 0, 0) == 0
  {
  }

  lemma PassEnds(cells: seq<Cell>, now: seq<Cell>, jm: int, im: int)
    requires |cells| == Times(jm, im) && jm >= 0 && im >= 0 && PassedTo(cells, now, jm, im, At(im, jm, 0))
    ensures Filled(cells, now, jm, im)
  {
    hide Times, FilledAt;
    forall j, i | 0 <= j < jm && 0 <= i < im ensures FilledAt(cells, now, jm, im, j, i) {
      AtBounds(jm, im, j, i);
    }
  }

  lemma NotInterior(cells: seq<Cell>, now: seq<Cell>, jm: int, im: int, j: int, i: int)
    requires |cells| == Times(jm, im) && 0 <= j < jm && 0 <= i < im && PassedTo(cells, now, jm, im, At(im, j, i))
    requires !Interior(jm, im, j, i)
    ensures |now| == |cells| && FilledAt(cells, now, jm, im, j, i)
  {
    hide Times;
    assert StillAt(cells, now, At(im, j, i));
  }

  lemma EnclosedIs(cells: seq<Cell>, jm: int, im: int, j: int, i: int)
    requires |cells| == Times(jm, im) && Interior(jm, im, j, i)
    ensures 0 <= At(im, j - 1, i) < |cells| && 0 <= At(im, j + 1, i) < |cells|
    ensures 0 <= At(im, j, i - 1) < |cells| && 0 <= At(im, j, i + 1) < |cells| && 0 <= At(im, j, i) < |cells|
    ensures Enclosed(cells, jm, im, j, i) <==>
              && cells[At(im, j - 1, i)].foceanOm == 0.0 && cells[At(im, j + 1, i)].foceanOm == 0.0
              && cells[At(im, j, i - 1)].foceanOm == 0.0 && cells[At(im, j, i + 1)].foceanOm == 0.0
              && cells[At(im, j, i)].foceanOm == 1.0 && cells[At(im, j, i)].foceanOp != 1.0
  {
    hide Times, At;
    AtBounds(jm, im, j, i);
    AtBounds(jm, im, j - 1, i);
    AtBounds(jm, im, j + 1, i);
    AtBounds(jm, im, j, i - 1);
    AtBounds(jm, im, j, i + 1);
  }

  /** Cell n is ocean to the climate model but not to the ice model, and its four neighbours are land. */
  ghost predicate SingleOcean(cells: seq<Cell>, im: int, n: int)
  {
    && 0 <= n - im < |cells| && 0 <= n + im < |cells| && 1 <= n && n + 1 < |cells|
    && cells[n - im].foceanOm == 0.0 && cells[n + im].foceanOm == 0.0
    && cells[n - 1].foceanOm == 0.0 && cells[n + 1].foceanOm == 0.0
    && cells[n].foceanOm == 1.0 && cells[n].foceanOp != 1.0
  }

  /** The cells that the pass fills: single ocean cells off the edges of the grid. */
  lemma EnclosedExactly(cells: seq<Cell>, jm: int, im: int, j: int, i: int)
    requires |cells| == Times(jm, im) && 0 <= j < jm && 0 <= i < im
    ensures Enclosed(cells, jm, im, j, i)
        <==> 0 < j < jm - 1 && 0 < i < im - 1 && SingleOcean(cells, im, Times(j, im) + i)
  {
    hide Times, At;
    AtIs(im, j, i);
    AtNext(im, j, i);
    AtNext(im, j, i - 1);
    AtBounds(jm, im, j, i);
    if Interior(jm, im, j, i) {
      AtBounds(jm, im, j + 1, i);
      AtBounds(jm, im, j - 1, i);
      EnclosedIs(cells, jm, im, j, i);
    }
  }

  lemma AtIs(im: int, j: int, i: int)
    ensures At(im, j, i) == Times(j, im) + i
  {
  }

  lemma StepIs(cells: seq<Cell>, now: seq<Cell>, after: seq<Cell>, jm: int, im: int, j: int, i: int)
    requires |cells| == Times(jm, im) == |now| == |after| && 0 <= j < jm && 0 <= i < im
    requires PassedTo(cells, now, jm, im, At(im, j, i))
    requires Enclosed(now, jm, im, j, i) <==> Enclosed(cells, jm, im, j, i)
    requires 0 <= At(im, j, i) < |now|
    requires after == if Enclosed(now, jm, im, j, i) && now[At(im, j, i)].foceanOp != 1.0
                      then now[At(im, j, i) := ToLand(now[At(im, j, i)])] else now
    ensures FilledAt(cells, after, jm, im, j, i)
  {
    hide Times, ToLand, Enclosed, At;
    assert StillAt(cells, now, At(im, j, i));
  }

  // ---------------------------------------------------------------- what one pass achieves

  /** One pass is enough: afterwards no cell is enclosed. */
  lemma OnePassIsEnough(cells: seq<Cell>, filled: seq<Cell>, jm: int, im: int, j: int, i: int)
    requires |cells| == Times(jm, im) && Filled(cells, filled, jm, im)
    ensures !Enclosed(filled, jm, im, j, i)
  {
    hide Times, At;
    if Enclosed(filled, jm, im, j, i) {
      assert FilledAt(cells, filled, jm, im, j, i);
      FilledStill(cells, filled, jm, im, j, i);
      LandBefore(cells, filled, jm, im, j, i, j - 1, i);
      LandBefore(cells, filled, jm, im, j, i, j + 1, i);
      LandBefore(cells, filled, jm, im, j, i, j, i - 1);
      LandBefore(cells, filled, jm, im, j, i, j, i + 1);
      assert false;
    }
  }

  lemma FilledStill(cells: seq<Cell>, filled: seq<Cell>, jm: int, im: int, j: int, i: int)
    requires |cells| == Times(jm, im) && Filled(cells, filled, jm, im) && Enclosed(filled, jm, im, j, i)
    ensures IsFillable(cells, At(im, j, i))
  {
    hide Times, At;
    assert FilledAt(cells, filled, jm, im, j, i);
  }

  lemma LandBefore(cells: seq<Cell>, filled: seq<Cell>, jm: int, im: int, j: int, i: int, q: int, p: int)
    requires |cells| == Times(jm, im) && Filled(cells, filled, jm, im) && IsFillable(cells, At(im, j, i))
    requires 0 <= q < jm && 0 <= p < im
    requires (q == j && (p == i - 1 || p == i + 1)) || (p == i && (q == j - 1 || q == j + 1))
    requires IsLand(filled, At(im, q, p))
    ensures IsLand(cells, At(im, q, p))
  {
    hide Times, At, ToLand;
    assert FilledAt(cells, filled, jm, im, q, p);
  }

  /** Land never becomes ocean, and the land fractions keep adding up to 1. */
  lemma FillingKeepsFractions(cells: seq<Cell>, filled: seq<Cell>, jm: int, im: int, j: int, i: int)
    requires |cells| == Times(jm, im) && Filled(cells, filled, jm, im) && 0 <= j < jm && 0 <= i < im
    ensures 0 <= At(im, j, i) < |cells|
    ensures FractionsAddUp(cells[At(im, j, i)]) ==> FractionsAddUp(filled[At(im, j, i)])
    ensures filled[At(im, j, i)].foceanOm != cells[At(im, j, i)].foceanOm ==> filled[At(im, j, i)].foceanOm == 0.0
    ensures cells[At(im, j, i)].foceanOp == filled[At(im, j, i)].foceanOp
    ensures if Enclosed(cells, jm, im, j, i) then ScaledToLand(filled[At(im, j, i)])
            else filled[At(im, j, i)] == cells[At(im, j, i)]
    ensures var c, d := cells[At(im, j, i)], filled[At(im, j, i)];
      && d.fgiceOp == c.fgiceOp && d.zatmoOp == c.zatmoOp && d.flakeOm == c.flakeOm
      && d.zicetop == c.zicetop && d.mergemask == c.mergemask
  {
    hide Times, At, Prod;
    assert FilledAt(cells, filled, jm, im, j, i);
    var n := At(im, j, i);
    if cells[n].foceanOp != 1.0 {
      ToLandIs(cells[n]);
    }
  }
}
