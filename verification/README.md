# Proofs about IceBin's conservative regridding

IceBin couples ice models to a global climate model.  It moves fields between an atmosphere grid (A), the same grid
subdivided into elevation classes (E), ice grids (I), exchange grids (X) and an ocean grid (O), and what it promises is
that nothing is made or lost on the way.  This project models that engine in Dafny and proves those promises, with the
C++ and Python floating point numbers taken as exact reals.

`dafny verify dfyconfig.toml` checks everything.

| module | what it models |
|---|---|
| Hntr, HntrSweeps, HntrIntegrals, HntrMeans, HntrOffsets, HntrConservation, HntrOverlap, HntrPolar, Sweeps | the latitude/longitude regridder: two-finger sweeps around the globe and from pole to pole, regridding, overlap matrices, polar means, 2:1 nested grids |
| VerticalInterp, ExchangeGrid, RegridMatrices, RegridProperties, MatrixValues, AreaRatios | Ur matrices of an ice sheet, and AvI, IvA, EvI, IvE, EvA and AvE made from them |
| E1vE0, CorrectionValues, CouplingRuns, CorrectedRuns | the correction between the elevation grids of two coupling steps, the coupler that carries matrices from step to step, and runs with area ratios |
| TopoChain, TopoProperties, ChainValues | the chain AAmvEAm for an ocean mask that the climate model rounds, and the class fractions read from it |
| GlobalChunks, CombineChunks | global generation in chunks, and their recombination |
| MergeTopo, ElevationMerge, MergedElevations | merging local ice into the global topography, and stacking and squashing elevation classes |
| Domains, Multivec | dividing the coupler's output over MPI ranks and applying it |
| Indexing | mixed-radix indexing |
| Polygons | polygon areas, centroids and integrals of linear elements |
| Vectors, Sparse, Sums, Ints, Wrappers | vectors, sparse matrices as lists of tuples, sums, integer arithmetic |

## Conventions

- A sparse matrix is the list of tuples that an accumulator receives; its meaning is the sum at each index.  All indices
  are sparse ones: the dense numbering that a SparseSet gives them is a relabelling.
- Loops and objects of the program are methods and classes here, with the program's own arrays and fields.  Matrix
  expressions are functions.  Products are written `Prod` or `Times` so that a proof can hide non-linear arithmetic.
- Where the program divides by a weight of 0 and obtains an infinity, the model has 0.  The theorems that need a
  division say that it is one by a non-zero number, and other lemmas give conditions under which it always is.
- A member of a method's result that is `None`, or `ok == false`, stands for the program's error exit.

## Where the code and its promises differ

- Hntr: the header promises conservation for all grids.  For non-negative weights it holds exactly if the first A edge
  does not lie east of the first B edge, which only an A offset of more than a turn beyond that of B can bring about, or
  (imA - 1) (imB - 1) <= 1 (ConservesExactly).  Otherwise the last B column gets a negative part of A column 1
  (FirstNetSign).  RegridBalance accounts for what is lost.
- index_to_tuple does not add the base in the fastest dimension (pylib/icebin/ibgrid.py:86), so the round trips hold
  exactly if that base is 0.
- The coupler asks for XvE with correctA on (slib/icebin/IceCoupler.cpp:467-468), and then the stored row weights are
  not the row sums of the matrix.  With an unchanged ice mask a step keeps the total of every elevation field exactly if
  at every elevation cell the sum over the ice sheets of (ratio - 1) (Mw0 - Mw1) is 0 (CorrectedStepKeepsExactly); for
  one sheet, if every elevation cell has an area ratio of 1 or keeps its area (OneSheetKeepsExactly).
- topo.cpp:45-49 says that weights are converted with the inverse sign, topo.cpp:102 uses the plain one; the model
  follows the code.
- A land cell of the climate model in which the ice model sees only ocean drops out of AAmvEAm, and its atmosphere row
  then adds up to less than 1; ChainRowSums says exactly when.
- Chunk-making never ends if an icy ocean cell holds a whole chunk of ice by itself (ChunkMakingEnds).
- compute_EOpvAOp_merged offsets the global classes by the size of the local elevation grid even if no local classes are
  merged in (GlobalAloneOverruns).
- rank_of_j is allocated with base 1 and used with base 0 (slib/icebin/modele/GCMCoupler_ModelE.cpp:83-89,
  slib/icebin/modele/GCMCoupler_ModelE.hpp:77-78); the model is 0-based on both sides.
- mean_polar on a grid of a single row never ends, its loop advancing by jm - 1 (slib/icebin/modele/hntr.hpp:415).
- combine_global_ec.cpp checks that AvE is local for 12960 atmosphere cells, whatever the grid
  (modele/combine_global_ec.cpp:237).
- compute_AvI subtracts the base of the ice grid from atmosphere indices too (pylib/icebin/element_l1.py:139).
- concatenate reads its first vector before it checks that there is one (slib/icebin/multivec.cpp:16-19).

## Model

| member | source | states |
|---|---|---|
| Hntr.Hntr.Advance | slib/icebin/modele/hntr.cpp:92-95 | the inner loop of the east-west sweep stops inside grid A, at the first A edge that is not west of the given B edge |
| Hntr.Hntr.PartitionEastWest | slib/icebin/modele/hntr.cpp:84-115 | the arrays IMIN, IMAX, FMIN, FMAX describe, for every B column, two cuts that lie exactly at its two edges; neighbouring columns meet at the same point and the last cut is the first one a full turn further east |
| Hntr.Hntr.SweepRows | slib/icebin/modele/hntr.cpp:143-167 | the north-south sweep ends inside grid A and leaves cuts at the edges of every B row, meeting at each edge |
| Hntr.Hntr.PartitionNorthSouth | slib/icebin/modele/hntr.cpp:118-168 | SINA and SINB hold, at every interior row edge j, the sine of (j - jm / 2) dlat minutes, rise strictly from -1 to 1, and JMIN, JMAX, GMIN, GMAX cut the A rows at the B row edges |
| Hntr.Hntr.constructor | slib/icebin/modele/hntr.cpp:63-80 | after construction both sweeps are complete for the two grids, with row edges at the sines of (j - jm / 2) dlat minutes |
| HntrSweeps.LatitudesOf | slib/icebin/modele/hntr.cpp:123-129 | the row edges lie dlat minutes apart and symmetrically about the equator, jm dlat minutes from the first to the last |
| HntrSweeps.EdgesInTurns | slib/icebin/modele/hntr.cpp:84-90 | the first B edge lies offi B cells east of the date line, the first A edge offi A cells less a turn, and every column takes up the same part of the turn |
| Hntr.Hntr.FractionEW | slib/icebin/modele/hntr.hpp:233-235 | F of an A column is its part in the B column: 1 less what lies before and after |
| Hntr.Hntr.ExtentNS | slib/icebin/modele/hntr.hpp:225-227 | G of an A row is its sine extent in the B row |
| Hntr.RegridAccum.AddA | slib/icebin/modele/hntr.hpp:369-375 | adds one overlap, weighted by wtm * WTA + wtb, to WEIGHT and VALUE |
| Hntr.RegridAccum.FinishB | slib/icebin/modele/hntr.hpp:377-380 | stores VALUE / WEIGHT, or the missing-data value where WEIGHT is 0, and touches no other cell |
| Hntr.Hntr.AccumulateCell | slib/icebin/modele/hntr.hpp:220-239 | for one B cell WEIGHT and VALUE become the integrals of the weight field and of the weighted source over the cell |
| Hntr.Hntr.Regrid | slib/icebin/modele/hntr.hpp:385-432 | every B cell holds the weighted mean of A over it, and with mean_polar the two polar rows of B their own means; wrong array sizes are reported and leave B alone |
| Hntr.Hntr.RegridCells | slib/icebin/modele/hntr.hpp:394-411 | the conservative step alone: the weighted mean, or the missing-data value, in every B cell |
| HntrMeans.RegriddedMean | slib/icebin/modele/hntr.hpp:363-380 | for any wtm and wtb the value of a B cell times wtm (integral of WTA) + wtb (size of the cell) is wtm (integral of WTA A) + wtb (integral of A); where that weight is 0 the cell holds the missing-data value |
| HntrMeans.IntegralCombines | slib/icebin/modele/hntr.hpp:369-375 | what the loops accumulate is linear in the field |
| HntrPolar.MeanRow | slib/icebin/modele/hntr.hpp:416-430 | one polar row gets its mean in all cells, or the missing-data value in all cells if one of them holds it; no other cell changes |
| HntrPolar.MeanPolar | slib/icebin/modele/hntr.hpp:413-431 | exactly the first and the last row are replaced |
| HntrPolar.PolarRows | slib/icebin/modele/hntr.hpp:413-431 | one missing value makes its whole polar row missing; otherwise every cell of the row times im is the sum of the row; all other rows stay |
| HntrPolar.PolarMeansKeepTotal | slib/icebin/modele/hntr.hpp:121-124 | the polar means keep the total of the field, if no polar value is missing |
| HntrPolar.PolarMeansTwice | slib/icebin/modele/hntr.hpp:413-431 | a second pass changes nothing, missing values included |
| Hntr.MatAccum.FinishB | slib/icebin/modele/hntr.hpp:273-281 | emits the buffered overlaps of one B cell, normalized by WEIGHT and multiplied by its area |
| Hntr.Hntr.AccumulateRow | slib/icebin/modele/hntr.hpp:224-239 | one row of A cells adds its overlaps in order, and their total to WEIGHT |
| Hntr.Hntr.AccumulateOverlap | slib/icebin/modele/hntr.hpp:220-241 | the buffer of one B cell holds all its overlaps and WEIGHT their total |
| Hntr.Hntr.Overlap | slib/icebin/modele/hntr.hpp:204-244 | the whole overlap matrix: the rows of exactly the included B cells, each with its overlaps |
| Hntr.CoarseRegridderNests | slib/icebin/modele/hntr.cpp:231-241 | the atmosphere grid of make_hntrA and its ocean grid are nested 2:1, in longitude and in sine of latitude |
| HntrSweeps.EastWestStep | slib/icebin/modele/hntr.cpp:90-113 | one iteration of the east-west sweep extends the tiling by one B column |
| HntrSweeps.EastWestTiles | slib/icebin/modele/hntr.cpp:84-115 | the parts of all B columns tile the globe: summed over all B columns, every A column counts exactly once, with indices taken around the date line, for any offsets |
| HntrSweeps.NorthSouthStep | slib/icebin/modele/hntr.cpp:147-164 | one iteration of the north-south sweep extends the tiling by one B row |
| HntrSweeps.NorthSouthTiles | slib/icebin/modele/hntr.cpp:143-166 | the parts of all B rows tile the sphere from pole to pole |
| HntrSweeps.WrapPeriod | slib/icebin/modele/hntr.hpp:230-231 | the wrapped column number lies in grid A and repeats after a full turn |
| Sweeps.RowsTelescope | slib/icebin/modele/hntr.cpp:84-168 | the integrals over linked B cells telescope to the integral between the outermost edges |
| HntrIntegrals.ColumnWidth | slib/icebin/modele/hntr.hpp:233-237 | the fractions F of every B column add up to imA / imB, for any offsets |
| HntrIntegrals.RowExtent | slib/icebin/modele/hntr.hpp:225-227 | the extents G of every B row add up to SINB(JB) - SINB(JB-1) |
| HntrIntegrals.CellRanges | slib/icebin/modele/hntr.hpp:212-229 | the loops of matrix() visit at least one A cell and stay inside the rows of grid A |
| HntrIntegrals.EastWestIsOverlap | slib/icebin/modele/hntr.hpp:233-235 | F is the geometric overlap of the two columns, if the first A edge does not lie east of the first B edge |
| HntrIntegrals.EastWestProper | slib/icebin/modele/hntr.cpp:84-115 | no fraction is negative if and only if the first A edge does not lie east of the first B edge |
| HntrIntegrals.EastWestPositive | slib/icebin/modele/hntr.cpp:84-115 | no empty overlap is visited if and only if the first A edge lies west of the first B edge |
| HntrIntegrals.NorthSouthIsOverlap | slib/icebin/modele/hntr.hpp:225-227 | G is the geometric overlap of the two rows in sine of latitude |
| HntrIntegrals.NorthSouthPositive | slib/icebin/modele/hntr.cpp:143-166 | every row overlap that is visited is positive |
| HntrIntegrals.CellsConserve | slib/icebin/modele/hntr.hpp:204-244 | the integrals of any field over all B cells add up to its integral over all A cells: both tilings and an exchange of two sums |
| HntrIntegrals.NestedColumn | slib/icebin/modele/hntr.cpp:231-241 | on nested grids a fine column lies in exactly one coarse column, with its full width |
| HntrIntegrals.NestedRow | slib/icebin/modele/hntr.cpp:231-241 | on nested grids a fine row lies in exactly one coarse row |
| HntrConservation.RegridBalance | slib/icebin/modele/hntr.hpp:205-244 | for all inputs, what B holds plus what the cells of weight 0 lose is the integral over A; regrid conserves exactly if that loss is 0 |
| HntrConservation.RegridConserves | slib/icebin/modele/hntr.hpp:363-380 | conservation: for non-negative weights the area-weighted integral over B equals that over A, cells with the missing-data value included, if the first A edge does not lie east of the first B edge or (imA - 1) (imB - 1) <= 1 |
| HntrConservation.ConservesExactly | slib/icebin/modele/hntr.cpp:84-115 | regrid conserves every field with non-negative weights if and only if the first A edge does not lie east of the first B edge or (imA - 1) (imB - 1) <= 1 |
| HntrConservation.NegativePartLoses | slib/icebin/modele/hntr.cpp:84-115 | for all other pairs of grids: a field with non-negative weights that is not conserved |
| HntrOffsets.FirstNetSign | slib/icebin/modele/hntr.cpp:84-115 | if the first A edge lies east of the first B edge, the parts that the last B column has of A column 1, all turns taken together, are negative if and only if (imA - 1) (imB - 1) > 1 |
| HntrConservation.EmptyCell | slib/icebin/modele/hntr.hpp:377-380 | a B cell of weight 0 loses nothing; in the last B column this needs the condition on the grids |
| HntrConservation.LongOffsetLoses | slib/icebin/modele/hntr.cpp:84-115 | an instance with positive weights, an A offset of more than a turn: exactly the constant fields are conserved |
| HntrOverlap.CellWeightIs | slib/icebin/modele/hntr.hpp:267-276 | WEIGHT of a B cell is imA / imB times its sine extent and positive, so finishB never divides by 0, for any offsets |
| HntrOverlap.CellEntriesTotal | slib/icebin/modele/hntr.hpp:273-281 | every row of the overlap matrix adds up to the area of its B cell (to 1 for the scaled matrix) |
| HntrOverlap.CellEntriesAct | slib/icebin/modele/hntr.hpp:265-281 | a row of the overlap matrix applied to any field over A, times WEIGHT, is the area of the B cell times the integral of the field over it |
| HntrMeans.OverlapRegrids | slib/icebin/modele/hntr.hpp:204-244 | the overlap matrix regrids: applied to A it gives, in every included B cell, its area times the value that regrid gives for equal weights, and 0 elsewhere |
| HntrOverlap.NestedOverlap | slib/icebin/modele/hntr.hpp:286-293 | on nested grids the overlap matrix joins every included fine cell with its parent, by its whole area |
| HntrOverlap.RowsNest | slib/icebin/modele/hntr.cpp:126-141 | equal latitudes give equal row edges, so the rows of the two grids nest |
| Indexing.Indexer.MakeStrides | pylib/icebin/ibgrid.py:64-69 | the stride of every dimension is the number of index values below it |
| Indexing.Indexer.TupleToIndex | pylib/icebin/ibgrid.py:71-75 | the loop over the dimensions computes the mixed-radix value of the tuple, whatever the order of the strides |
| Indexing.Indexer.IndexToTuple | pylib/icebin/ibgrid.py:77-87 | the loop stores the digits of the index, with the base added in all dimensions but the fastest |
| Indexing.TupleRoundTrip | pylib/icebin/ibgrid.py:71-87 | for a tuple in the box, index_to_tuple undoes tuple_to_index if and only if the fastest dimension has base 0 |
| Indexing.IndexRoundTrip | pylib/icebin/ibgrid.py:71-87 | for an index in range, tuple_to_index undoes index_to_tuple, inside the box, if and only if the fastest dimension has base 0 |
| Indexing.DeriveIndexingE | slib/icebin/GCMRegridder.cpp:38-55 | the derived indexing has the dimensions of A and then HC, and a valid stride order |
| Indexing.DerivedStrideOrder | slib/icebin/GCMRegridder.cpp:47-52 | if HC has the largest stride, the derived order is HC followed by the order of A if and only if A is column-major |
| Indexing.DerivedComposes | slib/icebin/GCMRegridder.cpp:38-55 | the derived E index is the (A, HC) index of the A index, if HC has the smallest stride or A is column-major |
| Indexing.AgreesExactly | slib/icebin/GCMRegridder.cpp:36-57 | with more than one cell in every dimension, the derived index is the (A, HC) index of the A index on all tuples if and only if HC has the smallest stride or A is column-major |
| Indexing.ValuesFixTheOrder | pylib/icebin/ibgrid.py:57-70 | two indexings of the same box give every tuple the same index if and only if their stride orders are equal |
| Indexing.RowMajorDisagrees | slib/icebin/GCMRegridder.cpp:47-52 | a row-major A under a column-major (A, HC): the two indices differ |
| VerticalInterp.Linterp | slib/icebin/IceRegridder_L0.cpp:71-93 | two neighbouring classes whose weights add up to 1 and reproduce the elevation; fails exactly above the highest class (or with fewer than two); a weight is negative exactly below the lowest class |
| VerticalInterp.Nearest | slib/icebin/IceRegridder_L0.cpp:43-67 | a class at minimal distance, the lowest one of those |
| ExchangeGrid.GvAp | slib/icebin/IceRegridder_L0.cpp:192-214 | the loop yields the Ur matrix of the atmosphere grid |
| ExchangeGrid.GvI | slib/icebin/IceRegridder_L0.cpp:177-189 | the loop yields the Ur matrix of the ice grid |
| ExchangeGrid.ElevationEntries | slib/icebin/IceRegridder_L0.cpp:121-152 | the entries of one unmasked exchange cell in both interpolation styles, or the error, exactly for elevations out of bounds |
| ExchangeGrid.GvEp | slib/icebin/IceRegridder_L0.cpp:100-155 | the loop yields the Ur matrix of the elevation grid; it fails exactly if there are no classes or an unmasked cell lies out of bounds |
| ExchangeGrid.ElevationRoundTrip | slib/icebin/IceRegridder_L0.cpp:134-148 | an elevation index lies in the elevation grid and index_to_tuple gives back its atmosphere cell and class |
| RegridMatrices.ApplyUr | slib/icebin/RegridMatrices_Dynamic.cpp:74-98 | a Ur matrix applied to a field gives, at every unmasked exchange cell, its area times its interpolated value |
| RegridMatrices.ShareSum | slib/icebin/IceRegridder_L0.cpp:121-152 | the shares of every unmasked exchange cell add up to 1 on each grid and in both styles |
| RegridMatrices.UrScaleAt | slib/icebin/RegridMatrices_Dynamic.cpp:94-98 | the row sums of all Ur matrices of a sheet are the same areas, so it does not matter which one provides the scaling |
| RegridMatrices.UrProductForm | slib/icebin/RegridMatrices_Dynamic.cpp:94-98 | the meaning of a product of Ur matrices: an area-weighted inner product of the two interpolated fields over the exchange cells |
| RegridMatrices.AEvIConserves | slib/icebin/RegridMatrices_Dynamic.cpp:50-151 | compute_AEvI conserves for both settings of scale and correctA, if no stored row has weight 0 |
| RegridMatrices.IvAEConserves | slib/icebin/RegridMatrices_Dynamic.cpp:153-252 | compute_IvAE without smoothing conserves, likewise |
| RegridMatrices.EvAConserves | slib/icebin/RegridMatrices_Dynamic.cpp:254-332 | compute_EvA conserves for EvA and AvE, likewise |
| RegridMatrices.MutualTransposes | slib/icebin/RegridMatrices_Dynamic.cpp:74-98 | the unscaled uncorrected matrices AvI and IvA, EvI and IvE, EvA and AvE are transposes of each other, in both styles |
| RegridProperties.OneConserves | slib/icebin/RegridMatrices_Dynamic.cpp:100-147 | IvA and IvE conserve for every x, all settings and all area ratios; AvI and EvI for positive area ratios, EvI if no ice lies below the lowest class |
| RegridProperties.CrossConserves | slib/icebin/RegridMatrices_Dynamic.cpp:289-329 | AvE and EvA conserve for every x and all settings with positive area ratios, EvA if no ice lies below the lowest class |
| RegridProperties.ConstantsPreserved | slib/icebin/RegridMatrices_Dynamic.cpp:131-147 | a scaled uncorrected matrix maps a constant to itself on every row that has weight |
| RegridProperties.CorrectedConstants | slib/icebin/RegridMatrices_Dynamic.cpp:101-125 | with correctA, AvI and EvI map a constant c to the value that times the area ratio of the row is c, so they keep it if and only if the ratio is 1 |
| RegridProperties.CellElevation | slib/icebin/IceRegridder_L0.cpp:121-145 | interpolating the class elevations at an exchange cell gives its elevation |
| RegridProperties.LinearMean | slib/icebin/IceRegridder_L0.cpp:121-145 | Z_INTERP: an exchange cell takes its value from the two classes of its atmosphere cell that enclose max(elevmaskI, 0), or the lowest two below them, with the weights that reproduce it |
| RegridProperties.NearestMean | slib/icebin/IceRegridder_L0.cpp:146-151 | ELEV_CLASS_INTERP: an exchange cell takes the value of the class of its atmosphere cell that lies nearest to max(elevmaskI, 0), the lower one of two that are equally near |
| RegridProperties.IvEReproducesElevation | slib/icebin/RegridMatrices_Dynamic.cpp:153-252 | scaled uncorrected unsmoothed IvE in Z_INTERP style maps the class elevations to max(elevmaskI, 0) on every ice cell with overlaps, extrapolation included |
| RegridProperties.IvEGivesNearestClass | slib/icebin/RegridMatrices_Dynamic.cpp:153-252 | in ELEV_CLASS_INTERP style scaled uncorrected IvE maps the class elevations to the one nearest to max(elevmaskI, 0) |
| RegridProperties.PositiveProduct | slib/icebin/RegridMatrices_Dynamic.cpp:74-98 | without ice below the lowest class all entries of the unscaled matrices are positive |
| RegridProperties.AllRowsPositive | slib/icebin/RegridMatrices_Dynamic.cpp:121-147 | without ice below the lowest class every stored row has positive weight, so that scaling never divides by 0 |
| RegridProperties.EvAIsLocal | slib/icebin/RegridMatrices_Dynamic.cpp:254-332 | no stored entry of EvA or AvE joins an elevation cell with a different atmosphere cell |
| RegridProperties.ShareIsLocal | slib/icebin/IceRegridder_L0.cpp:115-152 | every share of an exchange cell belongs to its own atmosphere cell, as index_to_tuple sees it |
| MatrixValues.CoveredIs | slib/icebin/IceRegridder_L0.cpp:177-214 | the area that unmasked exchange cells cover of an atmosphere or ice cell is the summed area of those inside it |
| MatrixValues.ProductValue | slib/icebin/RegridMatrices_Dynamic.cpp:74-98 | a coefficient of an unscaled product is the area that its two cells have in common: each exchange cell counts with its area and both shares |
| MatrixValues.AEvIValues | slib/icebin/RegridMatrices_Dynamic.cpp:100-147 | AvI and EvI in every setting: wM is the covered area of the rows, times the ratio with correctA, Mw that of the ice cells; with scale on a value times wM is the common area, with scale off it is that area |
| MatrixValues.IvAEValues | slib/icebin/RegridMatrices_Dynamic.cpp:153-252 | IvA and IvE in every setting: wM is the covered area of the ice cells, Mw that of the columns, times the ratio with correctA, and the values are the common areas, times the ratio of the column, over wM if scaled |
| MatrixValues.XvAEValues | slib/icebin/RegridMatrices_Dynamic.cpp:153-252 | XvA and XvE likewise: wM is the area of the exchange cells and the values are area times share |
| MatrixValues.EvAValues | slib/icebin/RegridMatrices_Dynamic.cpp:289-329 | EvA and AvE in every setting: wM and Mw are covered areas, times the ratios with correctA, and the values are the common areas, times the ratio of the column, over wM if scaled |
| MatrixValues.MatricesKeepConstants | slib/icebin/RegridMatrices_Dynamic.cpp:100-329 | with scale on and correctA off all of these matrices map a constant to itself on every row with weight |
| AreaRatios.SApvA | slib/icebin/IceRegridder.cpp:41-48 | one diagonal entry per atmosphere cell, which times the projected area is the native area |
| AreaRatios.SEpvE | slib/icebin/IceRegridder.cpp:52-65 | one diagonal entry for every class of every atmosphere cell, which times the projected area of the cell is its native area |
| AreaRatios.RatioOfClass | slib/icebin/IceRegridder.cpp:52-65 | every elevation class has the ratio of its atmosphere cell |
| AreaRatios.CorrectedPart | slib/icebin/IceRegridder.cpp:37-66 | a corrected weight is the same part of the native area as the uncorrected one is of the projected area |
| AreaRatios.NoProjection | slib/icebin/IceRegridder.cpp:106-116 | without a projection correctA changes no matrix and no weight: AvI, EvI, IvA, IvE, EvA and AvE are the same with it and without it, scaled or not |
| AreaRatios.AreasAgree | slib/icebin/IceRegridder.cpp:37-66 | what sApvA and sEpvE hold agrees: every elevation cell has the positive ratio of its own atmosphere cell |
| AreaRatios.CorrectionCancels | slib/icebin/RegridMatrices_Dynamic.cpp:289-317 | the scaled EvA and AvE do not depend on correctA: every entry joins cells of the same ratio |
| E1vE0.TupleList.Consolidate | slib/icebin/e1ve0.cpp:32-52 | in place: afterwards indices rise strictly, no new index appears, and the list denotes the same matrix |
| E1vE0.StoredValueIsCoefficient | slib/icebin/e1ve0.cpp:32-52 | in a consolidated list every stored value is the coefficient itself |
| E1vE0.SortSame | slib/icebin/e1ve0.cpp:38-39 | sorting by index keeps the matrix |
| E1vE0.ComputeE1vE0c | slib/icebin/e1ve0.cpp:55-106 | the loops over the ice sheets yield the consolidated correction: per sheet E1uX (XvE0 - XvE1), scaled by the summed weights of all sheets |
| E1vE0.ExchangeTotal | slib/icebin/e1ve0.cpp:82-88 | the weighted total of an elevation field is the weighted total of its exchange cell values |
| E1vE0.SheetTotal | slib/icebin/e1ve0.cpp:82-93 | what one sheet's correction adds to the total |
| E1vE0.CorrectedTotal | slib/icebin/e1ve0.cpp:78-101 | the E1-weighted total of (I + E1vE0c) x is the total over the exchange cells of wX1 (XvE0 x), plus an explicit drift from rows whose stored weight is not their sum |
| E1vE0.NoDrift | slib/icebin/e1ve0.cpp:82-88 | the drift is 0 if the stored row weights are the row sums |
| CorrectionValues.CorrectedGains | slib/icebin/e1ve0.cpp:78-101 | the weight of an elevation cell times what the correction adds there is the sum over the sheets of E1uX (XvE0 x - XvE1 x) |
| CorrectionValues.ExchangeValue | slib/icebin/e1ve0.cpp:82-88 | XvE x is, at every exchange cell, what x (times the ratio with correctA) is worth there, and 0 outside the ice |
| CorrectionValues.CorrectedValue | slib/icebin/e1ve0.cpp:60-101 | for ice that moves, grows or retreats: the weight of an elevation cell times what the correction adds there sums over the exchange cells of all sheets their area, times the share of the elevation cell now, times the worth of the field before less its worth now |
| CouplingRuns.Sparsify | slib/icebin/GCMCoupler.cpp:404-450 | elevation indices are made sparse in entries and weights, exchange indices stay |
| CouplingRuns.SparsifyKeepsSums | slib/icebin/GCMCoupler.cpp:404-450 | weights that were row or column sums stay row or column sums |
| CouplingRuns.SparsifyMeans | slib/icebin/GCMCoupler.cpp:404-450 | coefficients and weights of dense elevation cell j are found at sparse cell dims[j], and all other cells are empty |
| CouplingRuns.GCMCoupler.Couple | slib/icebin/GCMCoupler.cpp:453-519 | a coupling step: the time span moves on, the new exchange matrices are kept for the next step, and if ice runs the result is the consolidated correction between the two |
| CouplingRuns.ProperDivisible | slib/icebin/e1ve0.cpp:95-101 | with positive matrices whose stored rows have weight nothing the program divides by is 0 |
| CouplingRuns.StepTotal | slib/icebin/GCMCoupler.cpp:487-515 | after any step of any run whose matrices carry their own sums, the total of the field is that of the exchange cell values before the step, in the new weights |
| CouplingRuns.RunTotal | slib/icebin/GCMCoupler.cpp:487-515 | over every such run in which the exchange cell weights stay the same the total of the elevation field is the same after every step, extrapolation included |
| CouplingRuns.CarriedIsTotal | slib/icebin/e1ve0.cpp:60-101 | with unchanged exchange cell weights the exchange cell values carried over a step total like the field before it; only own column sums are needed |
| CouplingRuns.ProperRunDivisible | slib/icebin/e1ve0.cpp:95-101 | a run of such positive matrices never divides by 0 |
| CouplingRuns.ExchangeMatrixSums | slib/icebin/RegridMatrices_Dynamic.cpp:200-240 | the unscaled XvE carries its own column sums always, and its own row sums if correctA is off |
| CouplingRuns.ExchangeMatrixProper | slib/icebin/RegridMatrices_Dynamic.cpp:153-252 | with positive area ratios and no ice below the lowest class, XvE never leads to a division by 0, with correctA or without |
| CouplingRuns.SameMaskSameWeights | slib/icebin/IceRegridder_L0.cpp:115-152 | as long as the ice mask stays, so do the weights of the exchange cells |
| CouplingRuns.SurfaceRunConserves | slib/icebin/GCMCoupler.cpp:453-519 | ice surfaces that rise and fall through the classes, step after step, leave the total unchanged while the mask stays and correctA is off; ice below the lowest class is extrapolated |
| CouplingRuns.SurfaceRunDivisible | slib/icebin/GCMCoupler.cpp:453-519 | if no ice lies below the lowest class such a run never divides by 0 |
| CouplingRuns.UnchangedMeansZero | slib/icebin/e1ve0.cpp:78-105 | if the exchange matrices did not change, every coefficient of the correction is 0 |
| CouplingRuns.E1vE0IsLocal | slib/icebin/modele/GCMCoupler_ModelE.cpp:800-811 | no entry of E1vE0c joins elevation cells of different atmosphere cells, so the locality error cannot occur |
| CorrectedRuns.CorrectedRatioDrifts | slib/icebin/IceCoupler.cpp:465-469 | one exchange cell whose ice changes class, with correctA: the total stays if and only if its area ratio is 1 or both classes hold the same value |
| CorrectedRuns.RisingSheetDrifts | slib/icebin/IceCoupler.cpp:465-469 | the same for the exchange matrices of a real ice sheet whose only cell rises by one class |
| CorrectedRuns.MatrixCarriesRatio | slib/icebin/RegridMatrices_Dynamic.cpp:153-252 | every entry of XvE with correctA joins an exchange cell and an elevation cell of the same area ratio, and its row sums are ratio times stored weight |
| CorrectedRuns.SheetDriftIs | slib/icebin/e1ve0.cpp:60-101 | the drift of one sheet is the sum over elevation cells of (ratio - 1) (Mw0 - Mw1) x |
| CorrectedRuns.StepKeepsExactly | slib/icebin/e1ve0.cpp:60-101 | with unchanged exchange cell weights and matrices that carry ratios, a step keeps the total of every field if and only if at every elevation cell the sum over the sheets of (ratio - 1) (Mw0 - Mw1) is 0 |
| CorrectedRuns.CorrectedStepKeepsExactly | slib/icebin/IceCoupler.cpp:465-469 | the setting of the coupler: that condition decides for any number of ice sheets with an unchanged ice mask and correctA |
| CorrectedRuns.OneSheetKeepsExactly | slib/icebin/IceCoupler.cpp:465-469 | for one ice sheet: if and only if every elevation cell has an area ratio of 1 or keeps its area |
| CorrectedRuns.CorrectedRunConserves | slib/icebin/GCMCoupler.cpp:453-519 | over whole runs with correctA the total never changes if no step shifts anything |
| CorrectedRuns.CorrectedStepDivisible | slib/icebin/IceCoupler.cpp:465-469 | if no ice lies below the lowest class such a step never divides by 0 |
| TopoChain.ComputeScaledAOmvAOp | slib/icebin/modele/topo.cpp:50-81 | a diagonal of reciprocals of continent fractions on the land cells; fails exactly if an ice-bearing cell has an ocean mask other than 0 or 1 |
| TopoChain.ComputeDimAOm | slib/icebin/modele/topo.cpp:93-98 | the ice-bearing cells that the climate model takes for land, in order |
| TopoChain.WAOmAt | slib/icebin/modele/topo.cpp:84-109 | the weight of a land cell is magnified by its continent fraction, and 0 where the ice model has open ocean |
| TopoChain.ComputeEOmvAOm | slib/icebin/modele/topo.cpp:211-239 | exactly the entries in land columns are kept, and dimEOm is the set of their rows |
| TopoChain.RawEOvEA.Add | slib/icebin/modele/topo.cpp:135-164 | one overlap adds, for every class with weight, an entry weighted by the ocean class; refuses exactly the overlaps below 1e-8 |
| TopoChain.ComputeAAmvEAm | slib/icebin/modele/topo.cpp:242-347 | the factors, the weights and their product, scaled or not; fails exactly for an unrounded mask or a stray overlap |
| ChainValues.ChainValue | slib/icebin/modele/topo.cpp:326-333 | a coefficient of the scaled AAmvEAm: the area that a class takes up in the land cells of an atmosphere cell (each counts with its area times the share of the class in the ice of the cell, none where the ice model has open ocean), over the area of all its land cells |
| ChainValues.FractionValue | slib/icebin/modele/topo.cpp:702-731 | the class fractions read from it are these area-weighted shares |
| ChainValues.LandAreaPositive | slib/icebin/modele/topo.cpp:326-333 | the land area of an atmosphere cell with a land cell is positive |
| ChainValues.AtmosphereWeight | slib/icebin/modele/topo.cpp:284-295 | wAAm of an atmosphere cell adds up the weights of its land cells |
| ChainValues.ClassWeightIs | slib/icebin/modele/topo.cpp:297-307 | wEOm: every class of a land cell has the share of its weight that it has in its ice |
| ChainValues.AtmosphereClassWeight | slib/icebin/modele/topo.cpp:309-323 | wEAm: every class of an atmosphere cell adds up the weights that the class has in its land cells |
| TopoProperties.ChainRowSums | slib/icebin/modele/topo.cpp:326-333 | a row of the scaled AAmvEAm adds up to 1 if and only if the ice model has some continent in every ocean cell of it that the climate model takes for land |
| TopoProperties.OneCellIsComplete | slib/icebin/modele/topo.cpp:326-333 | an instance: one half-covered ocean cell meets all conditions, and its row adds up to 1 |
| TopoProperties.ChainTotals | slib/icebin/modele/topo.cpp:277-323 | the totals of wAAm, wAOm, wEOm and wEAm are equal |
| TopoProperties.ChainIsLocal | slib/icebin/modele/topo.cpp:135-164 | every entry of AAmvEAm joins an atmosphere cell with one of its own elevation classes |
| TopoProperties.UnscaledIsWeighted | slib/icebin/modele/topo.cpp:334-342 | the unscaled matrix is wM times the scaled one |
| TopoProperties.MergedIsIceInput | slib/icebin/modele/merge_topo.cpp:401-466 | what local ice sheets and global ice are merged into is a positive local input for the chain |
| TopoProperties.EvAIsLocalMatrix | slib/icebin/modele/merge_topo.cpp:401-425 | the unscaled EvA of an ice sheet joins every ocean cell with positive weight to its own classes only |
| TopoProperties.HntrGivesOverlap | slib/icebin/modele/topo.cpp:284-291 | the overlaps in the chain are those that Hntr finds for nested grids, clipped to the land cells |
| TopoProperties.ReadFractions | slib/icebin/modele/topo.cpp:702-731 | fhc holds the coefficient of every cell and class; the non-local error is raised exactly for entries out of place |
| TopoProperties.FractionsAddUp | slib/icebin/modele/topo.cpp:702-731 | for a local matrix the fractions of a cell add up to its row sum |
| TopoProperties.FractionsAddUpToOne | slib/icebin/modele/topo.cpp:702-731 | read from the scaled AAmvEAm, the class fractions of an atmosphere cell with complete land add up to 1 |
| GlobalChunks.CountIce | modele/global_ec.cpp:880-884 | counts the ice cells in the block of one ocean cell |
| GlobalChunks.NiceCounts | modele/global_ec.cpp:875-890 | what a scan counts at an ocean cell is the number of ice grid cells with ice that lie in it, or nothing where the ocean grid has no ice |
| GlobalChunks.ScanChunk | modele/global_ec.cpp:875-890 | the double loop with its goto stops where the specification of the scan does |
| GlobalChunks.MakeChunks | modele/global_ec.cpp:863-893 | consecutive half-open ranges from the first ocean cell to past the last |
| GlobalChunks.ScanStops | modele/global_ec.cpp:875-890 | a scan stays below the chunk size and stops at the cell that would reach it |
| GlobalChunks.ChunkMakingEnds | modele/global_ec.cpp:863-893 | the loop over chunks ends if and only if no icy ocean cell holds a whole chunk of ice by itself |
| GlobalChunks.SmallBlocksEnd | modele/global_ec.cpp:863-893 | blocks smaller than the chunk size are enough for that |
| GlobalChunks.ChunkOfCell | modele/global_ec.cpp:863-893 | every ocean cell lies in exactly one chunk |
| GlobalChunks.ChunkSizes | modele/global_ec.cpp:880-885 | every chunk holds fewer ice cells than the chunk size, and none but the last could take one more ocean cell |
| GlobalChunks.MarkIce | modele/global_ec.cpp:845-851 | the ice cells of one ocean cell get their elevation, nothing else changes |
| GlobalChunks.RunChunk | modele/global_ec.cpp:818-861 | the mask of a chunk shows exactly the ice under the icy ocean cells of its range; the endless outer loop is left |
| GlobalChunks.ChunkMasksPartition | modele/global_ec.cpp:818-861 | every ice cell under an icy ocean cell is shown, with its elevation, by exactly one chunk, and no other cell by any |
| GlobalChunks.AllIceProcessed | modele/global_ec.cpp:842-851 | all ice is shown if and only if the ocean grid has ice wherever the ice grid has |
| CombineChunks.Combine | modele/combine_global_ec.cpp:155-250 | weights are added, inverted, and the entries of all chunks appended, scaled or not; fails exactly if AvE does not pass the locality check |
| CombineChunks.AvEPassesCheck | modele/combine_global_ec.cpp:229-245 | on a grid of 12960 atmosphere cells, the classes being the largest stride, every AvE passes the locality check |
| CombineChunks.PlainMatrices | modele/global_ec.cpp:521-630 | the six unscaled uncorrected matrices of a chunk are products of Ur matrices with their own sums |
| CombineChunks.ChunksSplitIce | modele/global_ec.cpp:818-893 | the masks of the chunks that are made split the ice of one run |
| CombineChunks.ChunkedIsMonolithic | modele/combine_global_ec.cpp:185-245 | the concatenated matrix has the coefficients of the matrix made in one run and acts like it |
| CombineChunks.CombinedWeights | modele/combine_global_ec.cpp:155-173 | the added weights are the weights of the matrix made in one run |
| CombineChunks.CombinedRowSums | modele/combine_global_ec.cpp:216-228 | with scale on, every row that has weight adds up to 1 |
| MergeTopo.UpdateCells | slib/icebin/modele/merge_topo.cpp:255-284 | every cell is updated by its own gains |
| MergeTopo.UpdateAccounts | slib/icebin/modele/merge_topo.cpp:255-284 | the ocean area falls by the new continent, ice area and elevation rise by what the sheets bring, and the volume below the ice top by the new ice at its elevation; the cell becomes land if and only if it was all ocean and less than half is left, and then its ice fraction and elevation are those of the ice model over its land part |
| MergeTopo.UpdateKeepsFractions | slib/icebin/modele/merge_topo.cpp:255-284 | land never becomes ocean, the fractions of a cell keep adding up to 1, and no ocean cell that gained land is left below half ocean |
| MergeTopo.FillEnclosed | slib/icebin/modele/merge_topo.cpp:291-313 | the in-place raster pass fills exactly the cells that were enclosed before it, as if all were filled at once |
| MergeTopo.EnclosedExactly | slib/icebin/modele/merge_topo.cpp:291-303 | the cells that are filled: off the edges of the grid, all ocean to the climate model but not to the ice model, the cells im before and after and the two beside being land |
| MergeTopo.OnePassIsEnough | slib/icebin/modele/merge_topo.cpp:291-313 | afterwards no cell is enclosed: one pass is a fixpoint |
| MergeTopo.FillingKeepsFractions | slib/icebin/modele/merge_topo.cpp:305-311 | enclosed cells become land with the ice fraction and elevation of the ice model over its land part, all others stay; land never becomes ocean and the fractions keep adding up to 1 |
| ElevationMerge.MergeClasses | slib/icebin/modele/merge_topo.cpp:375-466 | entries, class elevations and origins of local and global ice are stacked, the global ones behind an offset |
| ElevationMerge.LocalClassStays | slib/icebin/modele/merge_topo.cpp:401-430 | local classes keep their index and elevation |
| ElevationMerge.StackedClass | slib/icebin/modele/merge_topo.cpp:433-452 | a stacked global class is class nhc_local + ihc of its cell and carries hcdefs_base[ihc] |
| ElevationMerge.ClassesDoNotCollide | slib/icebin/modele/merge_topo.cpp:433-446 | local and stacked classes never share an index |
| ElevationMerge.GlobalAloneOverruns | slib/icebin/modele/merge_topo.cpp:433-435 | with global ice alone the offset is added all the same, and the last class is numbered past the end of the merged grid |
| ElevationMerge.SquashECs | slib/icebin/modele/merge_topo.cpp:470-527 | strictly increasing distinct elevations, the same ones as before, and every entry moved to the class of its elevation |
| ElevationMerge.SquashKeepsSums | slib/icebin/modele/merge_topo.cpp:507-520 | for every column, ocean cell and elevation the summed value stays the same |
| MergedElevations.StackInBounds | slib/icebin/modele/merge_topo.cpp:401-459 | with local ice the stacked matrix fits its own elevation grid, as squashing demands |
| MergedElevations.StackHoldsAllIce | slib/icebin/modele/merge_topo.cpp:401-459 | for every column, ocean cell and elevation the stack holds what all local ice sheets and the global ice hold there together |
| MergedElevations.ComputeMerged | slib/icebin/modele/merge_topo.cpp:375-466 | stacked, or stacked and squashed: the result holds all ice at every cell and elevation, exactly the given elevations occur, and locality is kept |
| MergedElevations.SquashedIsLocal | slib/icebin/modele/merge_topo.cpp:507-520 | a renumbered matrix stays positive and joins cells to their own classes only |
| ElevationMerge.ChangedIndexing | slib/icebin/modele/merge_topo.cpp:364-372 | changing the number of classes keeps a valid indexing |
| Domains.DomainDecomposer.constructor | slib/icebin/modele/GCMCoupler_ModelE.cpp:79-92 | every latitude row gets the rank whose range it lies in |
| Domains.DomainDecomposer.GetDomain | slib/icebin/modele/GCMCoupler_ModelE.hpp:73-79 | for any class of cell (i, j) the rank of row j, which is the rank whose range of rows holds j |
| Domains.DomainOfCell | slib/icebin/modele/GCMCoupler_ModelE.hpp:73-79 | the index of any class of cell (i, j) goes to the rank of row j |
| Domains.SameRank | slib/icebin/modele/GCMCoupler_ModelE.hpp:73-79 | all elevation classes of an atmosphere cell go to the rank of that cell |
| Domains.OneRank | slib/icebin/modele/GCMCoupler_ModelE.cpp:631-646 | every element of the output goes to exactly one rank |
| Domains.KeptSums | slib/icebin/modele/GCMCoupler_ModelE.cpp:631-646 | for its own cells a rank gets all weights and values, repeated indices included |
| Multivec.VectorMultivec.Add | slib/icebin/multivec.cpp:7-12 | appends one element to the parallel lists |
| Multivec.Concatenate | slib/icebin/multivec.cpp:14-33 | the elements of all vectors in order; fails exactly for different numbers of variables |
| Multivec.VectorMultivec.ToDenseScale | slib/icebin/multivec.cpp:35-50 | the inverse summed weight of every cell; fails exactly for an index out of range |
| Multivec.ToDense | slib/icebin/multivec.cpp:55-81 | summed value times scale where a cell occurs, the fill value elsewhere |
| Multivec.SplitVector | slib/icebin/modele/GCMCoupler_ModelE.cpp:606-647 | every rank gets the elements of its own cells, in order |
| Multivec.SplitCorrection | slib/icebin/modele/GCMCoupler_ModelE.cpp:649-663 | every rank gets the tuples of its own rows |
| Multivec.KeptCoefficients | slib/icebin/modele/GCMCoupler_ModelE.cpp:649-663 | a rank's tuples hold all coefficients of its own rows and none of the others |
| Multivec.ApplyToA | slib/icebin/modele/GCMCoupler_ModelE.cpp:855-898 | touched cells hold their weighted mean, all others are unchanged; fails exactly for a wrong number of variables |
| Multivec.ApplyToE | slib/icebin/modele/GCMCoupler_ModelE.cpp:899-942 | the same, with all classes of a touched atmosphere cell cleared first |
| Multivec.AppliedHoldsMeans | slib/icebin/modele/GCMCoupler_ModelE.cpp:855-942 | what both write are the weighted means of the touched cells |
| Multivec.MeanTimesWeight | slib/icebin/multivec.cpp:35-81 | a mean times the summed weight of its cell is the sum of its values |
| Multivec.AppliedTotal | slib/icebin/modele/GCMCoupler_ModelE.cpp:855-942 | applying conserves: the summed weights of the cells times the means written add up to all values of the output |
| Multivec.RankAppliesA | slib/icebin/modele/GCMCoupler_ModelE.cpp:838-948 | on its own cells a rank writes what the undivided output would give, and it changes no others |
| Multivec.RankAppliesE | slib/icebin/modele/GCMCoupler_ModelE.cpp:838-948 | the same for elevation cells |
| Polygons.ComputeArea | pylib/icebin/ibgrid.py:118-124 | half the sum of the cross products of all edges; fails exactly without vertices |
| Polygons.ComputeCentroid | pylib/icebin/ibgrid.py:126-140 | the first moments over the area; fails exactly without vertices or area |
| Polygons.CentroidIsMean | pylib/icebin/ibgrid.py:126-140 | the centroid of a triangle is the mean of its corners |
| Polygons.RightTriangle | pylib/icebin/ibgrid.py:118-124 | a right triangle, listed anticlockwise, has half the area of its rectangle |
| Polygons.BasisPlane | pylib/icebin/element_l1.py:27-52 | the plane that is 1 at one vertex and 0 at the other two; fails exactly for a degenerate triangle |
| Polygons.AccumulatedIsIntegral | pylib/icebin/element_l1.py:68-92 | the edge terms of integrate_subelement add up to area and first moments: the corner terms cancel around the polygon |
| Polygons.IntegrateSubelement | pylib/icebin/element_l1.py:55-93 | the loop computes the integral of the basis plane; fails exactly for a degenerate triangle or no vertices |
| Polygons.IntegralAtCentroid | pylib/icebin/element_l1.py:55-93 | the integral is the signed area times the plane at the centroid |
| Polygons.BasisIntegralsAddUp | pylib/icebin/element_l1.py:117-146 | the three basis integrals add up to the area of the polygon |
| Polygons.ComputeAvI | pylib/icebin/element_l1.py:96-147 | the matrix maps values at the vertices to the sums, over the exchange cells of an atmosphere cell and the vertices of their elements, of basis integral times value; weightsA and weightsI are its row and column sums; fails exactly for a degenerate element or an empty polygon |
| Polygons.CoefficientIs | pylib/icebin/element_l1.py:128-141 | every coefficient is the sum, over the exchange cells of atmosphere cell base + a, of the integrals of the basis functions that are 1 at vertex base + v |
| Polygons.VertexWeights | pylib/icebin/element_l1.py:146-147 | weightsI of a vertex adds up these over all atmosphere cells |
| Polygons.OverlapWeights | pylib/icebin/element_l1.py:103-105 | weightsA is the area of each atmosphere cell that the exchange cells cover |
| Polygons.LinearFieldsExact | pylib/icebin/element_l1.py:96-147 | AvI integrates linear fields exactly: from their values at the vertices it gives their volume over every atmosphere cell |

## Left out

- Hntr.Hntr.Regrid: mean_polar on a grid of a single row, where the program never returns, is not modelled.
- HntrConservation.RegridConserves: asks for non-negative weights, as regrid's callers pass; RegridBalance does not.
- ExchangeGrid.GvI: only the exchange grid is the interpolation grid; the branch for gridG == 'I' multiplies by whole ice cells and is not used for the six matrices.
- RegridMatrices.IvAEConserves: the smoothing matrix is not part of this model.
- RegridMatrices.AEvIConserves: the form AvX, EvX of compute_AEvI is not modelled; XvA and XvE are.
- E1vE0.ComputeE1vE0c: std::sort is taken as a stable sort by index; the order of equal indices does not matter for the result over exact reals.
- CouplingRuns.GCMCoupler.Couple: logging, the calendar and the processes other than the root are left out; what the ice couplers return is a parameter, and matrices restored as empty from a restart file are not modelled.
- CouplingRuns.SurfaceRunConserves: the ice mask must stay, because otherwise the exchange cell weights change; StepTotal holds without that. A run that divides by 0 is not covered; SurfaceRunDivisible says when none does.
- TopoProperties.ReadFractions: the averaging at the south pole, ghost classes and sea-land classes that make_topoA adds afterwards are not modelled.
- CombineChunks.Combine: the compressed weight vectors of the program may repeat an index; here they are added up.
- MergeTopo.UpdateCells: how the gains are accumulated over the ice sheets (slib/icebin/modele/merge_topo.cpp:178-251), ZLAND_MIN and ZLAND_MAX and the sanity checks are not modelled; the arrays are kept as one array of records.
- Domains.DomainDecomposer.constructor: the table of ranks is 0-based on both sides; the program allocates it with base 1 and writes one place before it.
- MergedElevations.ComputeMerged: merging global ice alone, where the offset overruns the grid and squashing would read past its table, is not covered.
- Multivec.SplitVector: the four vectors of a GCMInput are split one at a time.
- Multivec.ApplyToE: elevation indices have the class as the largest stride, as get_domain assumes.
- Polygons.ComputeAvI: elements are triangles; numpy's solver is taken as exact.
- Floating point rounding, NaN and infinities as values, and integer overflow.
- sin and projections: row edges come from any increasing sine, area ratios from any positive areas.
- NetCDF, Fortran, MPI transport, restart files, logging, plotting and command lines.
- compute_XAmvGp and compute_GpvXAm, which the program declares not conservative, and filter_cellsA and filter_cellsB.
- The mismatched grid option of the chunked generation; AAmvEAm is modelled from its inputs on.
