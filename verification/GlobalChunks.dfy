/**
 Global elevation class matrices are generated in chunks (modele/global_ec.cpp): one scan over the ocean grid cuts
 the ice into chunks, and a second one selects the ice cells of one chunk.
 */
module GlobalChunks {
  import opened Wrappers
  import opened Ints

  /** Ocean grid of im x jm cells, each of them multI x multJ cells of the ice grid. */
  datatype IceMap = IceMap(im: nat, jm: nat, multI: nat, multJ: nat,
                           fgiceO: seq<seq<real>>, fgiceI: seq<seq<int>>, elevI: seq<seq<int>>) {

    function ImI(): int { Times(im, multI) }
    function JmI(): int { Times(jm, multJ) }
    function Cells(): int { Times(im, jm) }

    ghost predicate Valid()
    {
      && im > 0 && jm > 0 && multI > 0 && multJ > 0
      && |fgiceO| == jm && (forall j :: 0 <= j < jm ==> |fgiceO[j]| == im)
      && |fgiceI| == |elevI| == JmI() && forall j :: 0 <= j < JmI() ==> |fgiceI[j]| == |elevI[j]| == ImI()
    }

    ghost predicate InIceGrid(jI: int, iI: int)
    {
      0 <= jI < JmI() && 0 <= iI < ImI()
    }

    /** Number of the ocean cell in column i and row j. */
    function Position(j: int, i: int): int { Times(j, im) + i }

    /** Number of the ocean cell that an ice grid cell lies in. */
    ghost function OceanCell(jI: int, iI: int): int
      requires Valid()
    {
      Position(Quot(jI, multJ), Quot(iI, multI))
    }

    ghost predicate Icy(ij: int)
      requires Valid()
    {
      0 <= Quot(ij, im) < jm && 0 <= Rem(ij, im) < im && fgiceO[Quot(ij, im)][Rem(ij, im)] != 0.0
    }

    ghost predicate HasIce(jI: int, iI: int)
      requires Valid()
    {
      InIceGrid(jI, iI) && fgiceI[jI][iI] != 0
    }
  }

  // ---------------------------------------------------------------- positions

  lemma PositionOf(m: IceMap, j: int, i: int)
    requires m.Valid() && 0 <= j && 0 <= i < m.im
    ensures Quot(m.Position(j, i), m.im) == j && Rem(m.Position(j, i), m.im) == i
    ensures m.Position(j + 1, 0) == m.Position(j, 0) + m.im
    ensures j < m.jm ==> 0 <= m.Position(j, i) < m.Cells()
    ensures j >= m.jm ==> m.Position(j, i) >= m.Cells()
    ensures m.Position(m.jm, 0) == m.Cells()
  {
    hide Times, Quot, Rem;
    QuotRemUnique(j, m.im, i);
    TimesPlus(j, 1, m.im);
    TimesFacts(m.im, j, 0);
    TimesFacts(m.jm, m.im, 0);
    if j < m.jm {
      TimesBound(j, m.jm, m.im, i);
      TimesFacts(j, m.im, 0);
      TimesNonNegative(j, m.im);
    } else {
      TimesMonotone(m.jm, j, m.im);
    }
  }

  lemma TimesMonotone(a: int, b: int, c: int)
    requires a <= b && c >= 0
    ensures Times(a, c) <= Times(b, c)
  {
    MulMonotone(a, b, c);
  }

  /** The block of an ocean cell in one direction of the ice grid. */
  lemma BlockOf(k: int, mult: int, n: int)
    requires mult > 0 && 0 <= k < n
    ensures 0 <= Times(k, mult) <= Times(k + 1, mult) == Times(k, mult) + mult <= Times(n, mult)
    ensures forall x :: Quot(x, mult) == k <==> Times(k, mult) <= x < Times(k + 1, mult)
  {
    hide Times, Quot, Rem;
    TimesNonNegative(k, mult);
    TimesPlus(k, 1, mult);
    TimesFacts(mult, 0, 0);
    TimesMonotone(k + 1, n, mult);
    forall x ensures Quot(x, mult) == k <==> Times(k, mult) <= x < Times(k + 1, mult) {
      DivMod(x, mult);
      if Times(k, mult) <= x < Times(k + 1, mult) {
        QuotRemUnique(k, mult, x - Times(k, mult));
      }
    }
  }

  // ---------------------------------------------------------------- counting ice

  /** Ice cells of row jI in columns lo..hi-1. */
  ghost function RowIce(m: IceMap, jI: int, lo: int, hi: int): (r: nat)
    requires m.Valid() && 0 <= jI < m.JmI() && 0 <= lo && hi <= m.ImI()
    ensures lo <= hi ==> r <= hi - lo
    decreases hi - lo
  {
    if hi <= lo then 0 else RowIce(m, jI, lo, hi - 1) + if m.fgiceI[jI][hi - 1] != 0 then 1 else 0
  }

  /** Ice cells of rows jLo..jHi-1 in columns lo..hi-1. */
  ghost function BlockIce(m: IceMap, jLo: int, jHi: int, lo: int, hi: int): (r: nat)
    requires m.Valid() && 0 <= jLo && jHi <= m.JmI() && 0 <= lo <= hi <= m.ImI()
    ensures jLo <= jHi ==> r <= Times(jHi - jLo, hi - lo)
    decreases jHi - jLo
  {
    TimesFacts(hi - lo, hi - lo, 0);
    if jHi <= jLo then 0
    else
      TimesPlus(jHi - 1 - jLo, 1, hi - lo);
      BlockIce(m, jLo, jHi - 1, lo, hi) + RowIce(m, jHi - 1, lo, hi)
  }

  /** What a scan counts at ocean cell ij: the ice in its block, if the ocean grid has ice there. */
  ghost function Nice(m: IceMap, ij: int): (r: nat)
    requires m.Valid()
    ensures r <= Times(m.multJ, m.multI)
  {
    if !m.Icy(ij) then TimesNonNegative(m.multJ, m.multI); 0
    else
      BlockOf(Quot(ij, m.im), m.multJ, m.jm);
      BlockOf(Rem(ij, m.im), m.multI, m.im);
      BlockIce(m, Times(Quot(ij, m.im), m.multJ), Times(Quot(ij, m.im) + 1, m.multJ),
               Times(Rem(ij, m.im), m.multI), Times(Rem(ij, m.im) + 1, m.multI))
  }

  ghost function BlockSet(m: IceMap, jLo: int, jHi: int, lo: int, hi: int): set<(int, int)>
    requires m.Valid()
  {
    set jI, iI | jLo <= jI < jHi && lo <= iI < hi && m.HasIce(jI, iI) :: (jI, iI)
  }

  lemma {:induction false} RowIceCounts(m: IceMap, jI: int, lo: int, hi: int)
    requires m.Valid() && 0 <= jI < m.JmI() && 0 <= lo && hi <= m.ImI()
    ensures |BlockSet(m, jI, jI + 1, lo, hi)| == RowIce(m, jI, lo, hi)
    decreases hi - lo
  {
    if hi <= lo {
      assert BlockSet(m, jI, jI + 1, lo, hi) == {};
    } else {
      RowIceCounts(m, jI, lo, hi - 1);
      var last := if m.fgiceI[jI][hi - 1] != 0 then {(jI, hi - 1)} else {};
      assert BlockSet(m, jI, jI + 1, lo, hi) == BlockSet(m, jI, jI + 1, lo, hi - 1) + last;
    }
  }

  lemma {:induction false} BlockIceCounts(m: IceMap, jLo: int, jHi: int, lo: int, hi: int)
    requires m.Valid() && 0 <= jLo && jHi <= m.JmI() && 0 <= lo <= hi <= m.ImI()
    ensures |BlockSet(m, jLo, jHi, lo, hi)| == BlockIce(m, jLo, jHi, lo, hi)
    decreases jHi - jLo
  {
    hide RowIce, Times;
    if jHi <= jLo {
      assert BlockSet(m, jLo, jHi, lo, hi) == {};
    } else {
      BlockIceCounts(m, jLo, jHi - 1, lo, hi);
      RowIceCounts(m, jHi - 1, lo, hi);
      assert BlockSet(m, jLo, jHi, lo, hi) == BlockSet(m, jLo, jHi - 1, lo, hi) + BlockSet(m, jHi - 1, jHi, lo, hi);
    }
  }

  /** The ice grid cells with ice that lie in ocean cell ij. */
  ghost function IceOf(m: IceMap, ij: int): set<(int, int)>
    requires m.Valid()
  {
    set jI, iI |
      0 <= jI < m.JmI() && 0 <= iI < m.ImI() && m.fgiceI[jI][iI] != 0 && m.OceanCell(jI, iI) == ij :: (jI, iI)
  }

  /** What a scan counts is the number of ice cells in an ocean cell, or nothing where the ocean grid has no ice. */
  lemma NiceCounts(m: IceMap, ij: int)
    requires m.Valid() && 0 <= ij < m.Cells()
    ensures 0 <= Quot(ij, m.im) < m.jm && 0 <= Rem(ij, m.im) < m.im
    ensures Nice(m, ij) == if m.fgiceO[Quot(ij, m.im)][Rem(ij, m.im)] != 0.0 then |IceOf(m, ij)| else 0
  {
    hide Times, Quot, Rem, BlockIce;
    DivMod(ij, m.im);
    QuotBound(ij, m.im, m.jm);
    var j, i := Quot(ij, m.im), Rem(ij, m.im);
    BlockOf(j, m.multJ, m.jm);
    BlockOf(i, m.multI, m.im);
    var jLo, jHi, lo, hi := Times(j, m.multJ), Times(j + 1, m.multJ), Times(i, m.multI), Times(i + 1, m.multI);
    BlockIceCounts(m, jLo, jHi, lo, hi);
    forall jI, iI | m.InIceGrid(jI, iI) ensures m.OceanCell(jI, iI) == ij <==> jLo <= jI < jHi && lo <= iI < hi {
      OceanCellIn(m, jI, iI);
      PositionOf(m, Quot(jI, m.multJ), Quot(iI, m.multI));
    }
    assert IceOf(m, ij) == BlockSet(m, jLo, jHi, lo, hi);
  }

  ghost function TotalIce(m: IceMap, lo: int, hi: int): nat
    requires m.Valid()
    decreases hi - lo
  {
    if hi <= lo then 0 else TotalIce(m, lo, hi - 1) + Nice(m, hi - 1)
  }

  /** Where a scan that has counted nice ice cells and stands at ocean cell ij stops. */
  ghost function ScanEnd(m: IceMap, size: int, ij: int, nice: int): (e: int)
    requires m.Valid()
    ensures ij <= e && (ij <= m.Cells() ==> e <= m.Cells())
    decreases m.Cells() - ij
  {
    if ij >= m.Cells() then ij
    else if m.Icy(ij) && nice + Nice(m, ij) >= size then ij
    else ScanEnd(m, size, ij + 1, nice + Nice(m, ij))
  }

  /** No ocean cell holds a whole chunk of ice by itself. */
  ghost predicate NoBlocking(m: IceMap, size: int)
    requires m.Valid()
  {
    forall ij :: 0 <= ij < m.Cells() && m.Icy(ij) ==> Nice(m, ij) < size
  }

  lemma {:induction false} TotalIceFirst(m: IceMap, lo: int, hi: int)
    requires m.Valid() && lo < hi
    ensures TotalIce(m, lo, hi) == Nice(m, lo) + TotalIce(m, lo + 1, hi)
    decreases hi - lo
  {
    hide Nice;
    if lo + 1 < hi { TotalIceFirst(m, lo, hi - 1); }
  }

  /** A scan takes as much as stays below the chunk size, and stops at the cell that would reach it. */
  lemma {:induction false} ScanStops(m: IceMap, size: int, ij: int, nice: int)
    requires m.Valid() && nice >= 0
    ensures var e := ScanEnd(m, size, ij, nice);
            && (nice < size ==> nice + TotalIce(m, ij, e) < size)
            && (e < m.Cells() ==> m.Icy(e) && nice + TotalIce(m, ij, e) + Nice(m, e) >= size)
    decreases m.Cells() - ij
  {
    hide Times, IceMap.Icy, Nice;
    if ij < m.Cells() && !(m.Icy(ij) && nice + Nice(m, ij) >= size) {
      ScanStops(m, size, ij + 1, nice + Nice(m, ij));
      TotalIceFirst(m, ij, ScanEnd(m, size, ij + 1, nice + Nice(m, ij)));
      NoIceNoCount(m, ij);
    }
  }

  lemma NoIceNoCount(m: IceMap, ij: int)
    requires m.Valid()
    ensures !m.Icy(ij) ==> Nice(m, ij) == 0
  {
  }

  // ---------------------------------------------------------------- making chunks

  /** Where chunk n starts. */
  ghost function Start(m: IceMap, size: int, n: nat): (s: int)
    requires m.Valid()
    ensures 0 <= s <= m.Cells()
  {
    TimesNonNegative(m.im, m.jm);
    if n == 0 then 0 else ScanEnd(m, size, Start(m, size, n - 1), 0)
  }

  lemma ScanMoves(m: IceMap, size: int, ij: int)
    requires m.Valid() && 0 <= ij < m.Cells()
    ensures ScanEnd(m, size, ij, 0) == ij <==> m.Icy(ij) && Nice(m, ij) >= size
  {
    hide Nice, IceMap.Icy, Times;
  }

  lemma {:induction false} ScanBlocked(m: IceMap, size: int, ij: int, nice: int, b: int)
    requires m.Valid() && 0 <= nice && ij <= b < m.Cells() && m.Icy(b) && Nice(m, b) >= size
    ensures ScanEnd(m, size, ij, nice) <= b
    decreases m.Cells() - ij
  {
    hide Nice, IceMap.Icy, Times;
    if ij < b { ScanBlocked(m, size, ij + 1, nice + Nice(m, ij), b); }
  }

  lemma {:induction false} StartBlocked(m: IceMap, size: int, n: nat, b: int)
    requires m.Valid() && 0 <= b < m.Cells() && m.Icy(b) && Nice(m, b) >= size
    ensures Start(m, size, n) <= b
  {
    hide Nice, IceMap.Icy, Times, ScanEnd;
    if n > 0 {
      StartBlocked(m, size, n - 1, b);
      ScanBlocked(m, size, Start(m, size, n - 1), 0, b);
    }
  }

  lemma {:induction false} StartAdvances(m: IceMap, size: int, n: nat)
    requires m.Valid() && NoBlocking(m, size)
    ensures Start(m, size, n) >= n || Start(m, size, n) == m.Cells()
  {
    hide Nice, IceMap.Icy, Times, ScanEnd;
    if n > 0 {
      StartAdvances(m, size, n - 1);
      var s := Start(m, size, n - 1);
      if s < m.Cells() { ScanMoves(m, size, s); }
    }
  }

  /** Chunk-making ends exactly if no icy ocean cell holds a whole chunk of ice by itself. */
  lemma ChunkMakingEnds(m: IceMap, size: int)
    requires m.Valid()
    ensures (exists n: nat :: Start(m, size, n) == m.Cells()) <==> NoBlocking(m, size)
  {
    hide Nice, IceMap.Icy, Times, ScanEnd, Start;
    TimesNonNegative(m.im, m.jm);
    if NoBlocking(m, size) {
      StartAdvances(m, size, m.Cells());
      assert Start(m, size, m.Cells()) == m.Cells();
    } else {
      var b :| 0 <= b < m.Cells() && m.Icy(b) && !(Nice(m, b) < size);
      forall n: nat ensures Start(m, size, n) <= b { StartBlocked(m, size, n, b); }
    }
  }

  /** A block smaller than a chunk is enough for chunk-making to end. */
  lemma SmallBlocksEnd(m: IceMap, size: int)
    requires m.Valid() && Times(m.multJ, m.multI) < size
    ensures NoBlocking(m, size)
  {
    hide IceMap.Icy, Times;
  }

  datatype Chunk = Chunk(no: nat, j0: int, i0: int, j1: int, i1: int)

  /** Chunk number k goes from one stop of the scan to the next. */
  ghost predicate IsChunk(m: IceMap, size: int, c: Chunk, k: nat)
    requires m.Valid()
  {
    && c.no == k && 0 <= c.j0 < m.jm && 0 <= c.i0 < m.im && 0 <= c.j1 <= m.jm && 0 <= c.i1 < m.im
    && m.Position(c.j0, c.i0) == Start(m, size, k) && m.Position(c.j1, c.i1) == Start(m, size, k + 1)
  }

  /** The two innermost loops of the scan. */
  method CountIce(m: IceMap, jO: int, iO: int, nice0: int) returns (nice: int)
    requires m.Valid() && 0 <= jO < m.jm && 0 <= iO < m.im
    requires m.Icy(m.Position(jO, iO))
    ensures nice == nice0 + Nice(m, m.Position(jO, iO))
  {
    hide Times, Quot, Rem;
    PositionOf(m, jO, iO);
    BlockOf(jO, m.multJ, m.jm);
    BlockOf(iO, m.multI, m.im);
    nice := nice0;
    ghost var lo, hi := Times(iO, m.multI), Times(iO + 1, m.multI);
    for jI := Times(jO, m.multJ) to Times(jO + 1, m.multJ)
      invariant nice == nice0 + BlockIce(m, Times(jO, m.multJ), jI, lo, hi)
    {
      ghost var before := nice;
      for iI := Times(iO, m.multI) to Times(iO + 1, m.multI)
        invariant nice == before + RowIce(m, jI, lo, iI)
      {
        if m.fgiceI[jI][iI] != 0 { nice := nice + 1; }
      }
    }
  }

  /** The scan of one chunk, up to the label after its double loop. */
  method ScanChunk(m: IceMap, size: int, j0: int, i0: int) returns (jO: int, iO: int)
    requires m.Valid() && 0 <= j0 < m.jm && 0 <= i0 < m.im
    ensures 0 <= iO < m.im && 0 <= jO <= m.jm && (jO == m.jm ==> iO == 0)
    ensures m.Position(jO, iO) == ScanEnd(m, size, m.Position(j0, i0), 0)
  {
    hide Times, Quot, Rem, Nice;
    ghost var e := ScanEnd(m, size, m.Position(j0, i0), 0);
    var nice := 0;
    jO, iO := j0, i0;
    while jO < m.jm
      invariant 0 <= iO < m.im && 0 <= jO <= m.jm && nice >= 0 && (jO == m.jm ==> iO == 0)
      invariant ScanEnd(m, size, m.Position(jO, iO), nice) == e
    {
      while iO < m.im
        invariant 0 <= iO <= m.im && nice >= 0
        invariant ScanEnd(m, size, m.Position(jO, iO), nice) == e
      {
        PositionOf(m, jO, iO);
        ghost var ij := m.Position(jO, iO);
        if m.fgiceO[jO][iO] != 0.0 {
          nice := CountIce(m, jO, iO, nice);
          if nice >= size { return; }
        } else {
          NoIceNoCount(m, ij);
        }
        iO := iO + 1;
        assert m.Position(jO, iO) == ij + 1;
      }
      PositionOf(m, jO, 0);
      assert m.Position(jO, iO) == m.Position(jO + 1, 0);
      iO := 0;
      jO := jO + 1;
    }
    PositionOf(m, m.jm, 0);
  }

  lemma StartNext(m: IceMap, size: int, n: nat)
    requires m.Valid()
    ensures Start(m, size, n + 1) == ScanEnd(m, size, Start(m, size, n), 0)
  {
    hide ScanEnd;
  }

  /** Without a blocking cell every scan gets on. */
  lemma ScanGetsOn(m: IceMap, size: int, ij: int)
    requires m.Valid() && NoBlocking(m, size) && 0 <= ij < m.Cells()
    ensures ij < ScanEnd(m, size, ij, 0) <= m.Cells()
  {
    hide Nice, IceMap.Icy, Times;
    ScanMoves(m, size, ij);
  }

  /** Cuts the ocean grid into chunks; the source loops for ever where NoBlocking does not hold. */
  method MakeChunks(m: IceMap, size: int) returns (chunks: seq<Chunk>)
    requires m.Valid() && NoBlocking(m, size)
    ensures forall k :: 0 <= k < |chunks| ==> IsChunk(m, size, chunks[k], k)
    ensures Start(m, size, |chunks|) == m.Cells() && forall k :: 0 <= k < |chunks| ==> Start(m, size, k) < m.Cells()
  {
    hide Times, Quot, Rem, Nice, ScanEnd, IceMap.Icy, IceMap.Position, IceMap.Cells, NoBlocking;
    chunks := [];
    var iO, jO := 0, 0;
    MapIsNotEmpty(m);
    while jO < m.jm && iO < m.im
      invariant 0 <= iO < m.im && 0 <= jO <= m.jm && (jO == m.jm ==> iO == 0)
      invariant m.Position(jO, iO) == Start(m, size, |chunks|)
      invariant forall k :: 0 <= k < |chunks| ==> IsChunk(m, size, chunks[k], k) && Start(m, size, k) < m.Cells()
      decreases m.Cells() - m.Position(jO, iO)
    {
      var jO0, iO0 := jO, iO;
      PositionOf(m, jO, iO);
      ScanGetsOn(m, size, m.Position(jO, iO));
      StartNext(m, size, |chunks|);
      jO, iO := ScanChunk(m, size, jO, iO);
      chunks := chunks + [Chunk(|chunks|, jO0, iO0, jO, iO)];
    }
    PositionOf(m, m.jm, 0);
  }

  lemma MapIsNotEmpty(m: IceMap)
    requires m.Valid()
    ensures m.im > 0 && m.jm > 0 && m.Position(0, 0) == 0
  {
    hide Times;
    TimesFacts(0, m.im, 0);
  }

  /** Every ocean cell is in exactly one chunk, and no chunk reaches the chunk size. */
  lemma {:induction false} ChunkOfCell(m: IceMap, size: int, n: nat, ij: int) returns (k: nat)
    requires m.Valid() && 0 <= ij < Start(m, size, n)
    ensures k < n && Start(m, size, k) <= ij < Start(m, size, k + 1)
    ensures forall l: nat :: Start(m, size, l) <= ij < Start(m, size, l + 1) ==> l == k
  {
    hide Times, ScanEnd;
    if ij >= Start(m, size, n - 1) {
      k := n - 1;
    } else {
      k := ChunkOfCell(m, size, n - 1, ij);
    }
    forall l: nat | Start(m, size, l) <= ij < Start(m, size, l + 1) ensures l == k {
      if l < k { StartOrder(m, size, l + 1, k); } else if k < l { StartOrder(m, size, k + 1, l); }
    }
  }

  lemma {:induction false} StartOrder(m: IceMap, size: int, k: nat, l: nat)
    requires m.Valid() && k <= l
    ensures Start(m, size, k) <= Start(m, size, l)
  {
    hide Times, ScanEnd;
    if k < l { StartOrder(m, size, k, l - 1); }
  }

  /** Chunks stay below the chunk size, and none but the last could take one more ocean cell. */
  lemma ChunkSizes(m: IceMap, size: int, k: nat)
    requires m.Valid()
    ensures size > 0 ==> TotalIce(m, Start(m, size, k), Start(m, size, k + 1)) < size
    ensures Start(m, size, k + 1) < m.Cells() ==>
      TotalIce(m, Start(m, size, k), Start(m, size, k + 1)) + Nice(m, Start(m, size, k + 1)) >= size
  {
    hide Times, ScanEnd, Nice;
    ScanStops(m, size, Start(m, size, k), 0);
  }

  // ---------------------------------------------------------------- running one chunk

  /** elevmaskI of a chunk that covers ocean cells lo..hi-1. */
  ghost function ChunkMask(m: IceMap, lo: int, hi: int, jI: int, iI: int): Option<int>
    requires m.Valid()
  {
    if m.HasIce(jI, iI) && lo <= m.OceanCell(jI, iI) < hi && m.Icy(m.OceanCell(jI, iI))
      then Some(m.elevI[jI][iI]) else None
  }

  /** The block loops of the scan: the ice cells of one ocean cell get their elevation. */
  method MarkIce(m: IceMap, jO: int, iO: int, elevmaskI: array2<Option<int>>)
    requires m.Valid() && 0 <= jO < m.jm && 0 <= iO < m.im
    requires elevmaskI.Length0 == m.JmI() && elevmaskI.Length1 == m.ImI()
    modifies elevmaskI
    ensures forall jI, iI :: m.InIceGrid(jI, iI) ==>
              elevmaskI[jI, iI] == if Quot(jI, m.multJ) == jO && Quot(iI, m.multI) == iO && m.HasIce(jI, iI)
                                   then Some(m.elevI[jI][iI]) else old(elevmaskI[jI, iI])
  {
    hide Times, Quot, Rem;
    BlockOf(jO, m.multJ, m.jm);
    BlockOf(iO, m.multI, m.im);
    var lo, hi := Times(iO, m.multI), Times(iO + 1, m.multI);
    for jI := Times(jO, m.multJ) to Times(jO + 1, m.multJ)
      invariant forall j, i :: m.InIceGrid(j, i) ==>
                  elevmaskI[j, i] == if Times(jO, m.multJ) <= j < jI && lo <= i < hi && m.HasIce(j, i)
                                     then Some(m.elevI[j][i]) else old(elevmaskI[j, i])
    {
      for iI := lo to hi
        invariant forall j, i :: m.InIceGrid(j, i) ==>
                    elevmaskI[j, i] ==
                      if ((Times(jO, m.multJ) <= j < jI && lo <= i < hi) || (j == jI && lo <= i < iI)) && m.HasIce(j, i)
                      then Some(m.elevI[j][i]) else old(elevmaskI[j, i])
      {
        if m.fgiceI[jI][iI] != 0 {
          elevmaskI[jI, iI] := Some(m.elevI[jI][iI]);
        }
      }
    }
  }

  /** Which blocks one more ocean cell adds to a mask. */
  lemma MaskNext(m: IceMap, lo: int, jO: int, iO: int, jI: int, iI: int)
    requires m.Valid() && 0 <= jO < m.jm && 0 <= iO < m.im && m.InIceGrid(jI, iI) && lo <= m.Position(jO, iO)
    ensures ChunkMask(m, lo, m.Position(jO, iO) + 1, jI, iI)
         == if Quot(jI, m.multJ) == jO && Quot(iI, m.multI) == iO && m.HasIce(jI, iI) && m.fgiceO[jO][iO] != 0.0
            then Some(m.elevI[jI][iI]) else ChunkMask(m, lo, m.Position(jO, iO), jI, iI)
  {
    hide Times, Quot, Rem;
    PositionOf(m, jO, iO);
    OceanCellIn(m, jI, iI);
    if m.OceanCell(jI, iI) == m.Position(jO, iO) {
      PositionOf(m, Quot(jI, m.multJ), Quot(iI, m.multI));
    }
  }

  lemma OceanCellIn(m: IceMap, jI: int, iI: int)
    requires m.Valid() && m.InIceGrid(jI, iI)
    ensures 0 <= Quot(jI, m.multJ) < m.jm && 0 <= Quot(iI, m.multI) < m.im && 0 <= m.OceanCell(jI, iI) < m.Cells()
  {
    hide Times, Quot, Rem;
    TimesFacts(m.jm, m.multJ, 0);
    TimesFacts(m.im, m.multI, 0);
    QuotBound(jI, m.multJ, m.jm);
    QuotBound(iI, m.multI, m.im);
    PositionOf(m, Quot(jI, m.multJ), Quot(iI, m.multI));
  }

  ghost predicate Marked(m: IceMap, lo: int, hi: int, elevmaskI: array2<Option<int>>)
    requires m.Valid()
    reads elevmaskI
  {
    && elevmaskI.Length0 == m.JmI() && elevmaskI.Length1 == m.ImI()
    && forall jI, iI :: m.InIceGrid(jI, iI) ==> elevmaskI[jI, iI] == ChunkMask(m, lo, hi, jI, iI)
  }

  /** Selects the ice of one chunk; the scan leaves its double loop at the first ocean cell past the range. */
  method RunChunk(m: IceMap, c: Chunk) returns (elevmaskI: array2<Option<int>>)
    requires m.Valid() && 0 <= c.j0 < m.jm && 0 <= c.i0 < m.im && 0 <= c.j1 && 0 <= c.i1 < m.im
    requires m.Position(c.j1, c.i1) <= m.Cells()
    ensures fresh(elevmaskI) && Marked(m, m.Position(c.j0, c.i0), m.Position(c.j1, c.i1), elevmaskI)
  {
    hide Times, Quot, Rem, ChunkMask;
    GridSizes(m);
    elevmaskI := new Option<int>[m.JmI(), m.ImI()]((_, _) => None);
    var ijO1 := m.Position(c.j1, c.i1);
    var iO, jO := c.i0, c.j0;
    var ijO := m.Position(jO, iO);
    ghost var lo := ijO;
    EmptyMask(m, lo, ijO1);
    while true
      invariant 0 <= iO < m.im && 0 <= jO && ijO == m.Position(jO, iO) && lo <= ijO
      invariant lo <= ijO1 ==> ijO <= ijO1
      invariant Marked(m, lo, if lo <= ijO1 then ijO else ijO1, elevmaskI)
      decreases ijO1 - ijO
    {
      ghost var before := ijO;
      while iO < m.im
        invariant 0 <= iO <= m.im && 0 <= jO && ijO == m.Position(jO, iO) && lo <= before <= ijO
        invariant if lo <= ijO1 then ijO <= ijO1 else ijO == before
        invariant iO < m.im || before < ijO
        invariant Marked(m, lo, if lo <= ijO1 then ijO else ijO1, elevmaskI)
      {
        if ijO >= ijO1 { return; }
        PositionOf(m, jO, iO);
        if m.fgiceO[jO][iO] != 0.0 {
          MarkIce(m, jO, iO, elevmaskI);
        }
        forall jI, iI | m.InIceGrid(jI, iI) ensures elevmaskI[jI, iI] == ChunkMask(m, lo, ijO + 1, jI, iI) {
          MaskNext(m, lo, jO, iO, jI, iI);
        }
        iO, ijO := iO + 1, ijO + 1;
      }
      PositionOf(m, jO, 0);
      iO := 0;
      jO := jO + 1;
    }
  }

  lemma GridSizes(m: IceMap)
    requires m.Valid()
    ensures m.JmI() >= 0 && m.ImI() >= 0
  {
    TimesNonNegative(m.jm, m.multJ);
    TimesNonNegative(m.im, m.multI);
  }

  lemma EmptyMask(m: IceMap, lo: int, hi: int)
    requires m.Valid()
    ensures forall h, jI, iI :: h <= lo ==> ChunkMask(m, lo, h, jI, iI) == None
  {
    hide Times, Quot, Rem;
  }

  /**
   The masks of all chunks together: an ice cell is in the mask of exactly one chunk if the ocean grid has ice at its
   place, and in none otherwise.
   */
  lemma ChunkMasksPartition(m: IceMap, size: int, n: nat, jI: int, iI: int) returns (k: nat)
    requires m.Valid() && Start(m, size, n) == m.Cells() && m.InIceGrid(jI, iI)
    ensures forall l: nat :: l != k ==> ChunkMask(m, Start(m, size, l), Start(m, size, l + 1), jI, iI) == None
    ensures k < n
    ensures ChunkMask(m, Start(m, size, k), Start(m, size, k + 1), jI, iI) == ChunkMask(m, 0, m.Cells(), jI, iI)
    ensures 0 <= Quot(jI, m.multJ) < m.jm && 0 <= Quot(iI, m.multI) < m.im
    ensures ChunkMask(m, 0, m.Cells(), jI, iI)
         == if m.fgiceI[jI][iI] != 0 && m.fgiceO[Quot(jI, m.multJ)][Quot(iI, m.multI)] != 0.0
            then Some(m.elevI[jI][iI]) else None
  {
    hide Times, Quot, Rem, Start;
    OceanCellIn(m, jI, iI);
    PositionOf(m, Quot(jI, m.multJ), Quot(iI, m.multI));
    k := ChunkOfCell(m, size, n, m.OceanCell(jI, iI));
  }

  /** All ice is processed exactly if the ocean grid has ice wherever the ice grid has. */
  lemma AllIceProcessed(m: IceMap)
    requires m.Valid()
    ensures (forall jI, iI :: m.InIceGrid(jI, iI) ==> (ChunkMask(m, 0, m.Cells(), jI, iI).Some? <==> m.HasIce(jI, iI)))
       <==> forall jI, iI :: m.HasIce(jI, iI) ==> m.Icy(m.OceanCell(jI, iI))
  {
    hide Times, Quot, Rem, IceMap.OceanCell, IceMap.Icy, IceMap.JmI, IceMap.ImI;
    forall jI, iI | m.InIceGrid(jI, iI) ensures 0 <= m.OceanCell(jI, iI) < m.Cells() {
      OceanCellIn(m, jI, iI);
    }
    if forall jI, iI :: m.InIceGrid(jI, iI) ==> (ChunkMask(m, 0, m.Cells(), jI, iI).Some? <==> m.HasIce(jI, iI)) {
      forall jI, iI | m.HasIce(jI, iI) ensures m.Icy(m.OceanCell(jI, iI)) {
        assert ChunkMask(m, 0, m.Cells(), jI, iI).Some?;
      }
    }
  }
}
