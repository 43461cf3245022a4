# Distance ladder: outlier rejection and redshift corrections

This project is a Dafny model of two parts of the distance-ladder fitting code.

**Single-kappa clipping** (`single_kappa_clipping`). It repeatedly fits the Cepheid, anchor, Milky Way and Hubble-flow supernova tables. After each fit it finds the worst residual. If that residual reaches kappa times the standard deviation of the residuals, the loop moves that row to a table of excluded rows and fits again.

**Redshift corrections** applied to the tables before the fit:
- the Redshift Leavitt Bias on Cepheid periods;
- the grid-interpolated K-corrections of Anderson (2022) for Cepheid Wesenheit magnitudes and TRGB magnitudes, including how the grids are built from Table A1;
- the two earlier K-corrections based on linear fits in redshift.

Modules:

| module | file | contents |
|---|---|---|
| `Results` | `results.dfy` | `Option`, `Result` and the error cases |
| `Sequences` | `sequences.dfy` | first-index search, the model of `list.index` and `np.where` |
| `Tables` | `tables.dfy` | rows, groups, the partition of tables, moving a row to the excluded tables |
| `KappaClipping` | `clipping.dfy` | the residuals, the worst residual, the block dispatch, the clipping loop |
| `CorrectionGrid` | `grid.dfy` | the axes and the five-dimensional grids of `interpolate_function` |
| `Corrections` | `corrections.dfy` | the RLB correction, the clamps and the grid K-corrections |
| `LegacyCorrections` | `legacy.dfy` | `old_K_corr_Cep` and `old_K_corr_TRGB` |

The model's inputs stand in for everything the code cannot see:
- The distance-ladder fit is a function parameter `fit: Partition -> FitResult`. It returns `y`, the named parameter estimates and the design matrix.
- The square root inside `np.std` is a parameter `sqrt` that returns non-negative reals.
- `log10` and `10**` are parameters.
- scipy's `RegularGridInterpolator` is a parameter `makeInterp: Grid -> Interp`, applied to the grid the source hands it.
- The settings `kappa`, `include_Cepheids`, `include_MW` and `fit_aB` are a `Config` value. `R` and `E(B-V)` are fields of the correction setups.

A table is a sequence of rows, and a row's position stands for its pandas index. That holds when each input table is indexed 0, 1, …, n-1, and the source keeps it so by resetting the index after every drop. The source corrects its DataFrames in place; each correction here returns the corrected partition. `single_kappa_clipping` likewise reassigns the entries of the caller's dictionary of tables and returns that dictionary; the returned `Split.active` stands for that mutated dictionary.

## Model

| member | source | states |
|---|---|---|
| Sequences.FirstIndex | code/outliers_rejection.py:77 | `list(errors).index(worst)`: the position returned holds the value and no earlier position does; `None` exactly when the value is absent |
| Tables.Remove | code/outliers_rejection.py:84-85 | `drop(index).reset_index`: rows before the dropped one keep their position and later rows move up by one |
| Tables.RemoveInsertRoundTrip | code/outliers_rejection.py:84-85 | putting the dropped row back at its position gives the original table |
| Tables.RemoveMultiset | code/outliers_rejection.py:82-85 | a drop loses exactly the dropped row |
| Tables.MoveRow | code/outliers_rejection.py:82-104 | the row is dropped from its active table and appended to the excluded table of the same group; no other table changes |
| Tables.MoveRowConserves | code/outliers_rejection.py:82-104 | a move conserves, per group, the multiset of active plus excluded rows, and the excluded tables only grow at their end |
| Tables.ConservedCounts | code/outliers_rejection.py:136-148 | conservation of rows implies conservation of row counts per group |
| KappaClipping.Parameters | code/outliers_rejection.py:52-55 | the parameter vector keeps the estimates in order and skips `H0` and `chi2/dof` |
| KappaClipping.ParametersKeepEntry | code/outliers_rejection.py:53-55 | every estimate not named `H0` or `chi2/dof` is appended at the next position |
| KappaClipping.ParametersOnlyKept | code/outliers_rejection.py:53-55 | every entry of the vector is the value of a kept estimate, namely the one with as many kept estimates before it as the entry's position |
| KappaClipping.DotOrderIndependent | code/outliers_rejection.py:58 | the matrix-vector product summed from the back equals the sum from the front |
| KappaClipping.Residuals | code/outliers_rejection.py:58 | `y - L q` entry by entry |
| KappaClipping.Magnitudes | code/outliers_rejection.py:58-60 | the first pass keeps the signed residuals; later passes take absolute values |
| KappaClipping.Variance | code/outliers_rejection.py:59 | the population variance is non-negative |
| KappaClipping.Std | code/outliers_rejection.py:59 | `np.std` of the residuals is defined exactly when there is at least one, and is non-negative |
| KappaClipping.ConstantVariance | code/outliers_rejection.py:59 | residuals that all equal one value have that value as mean and zero variance |
| KappaClipping.MaxOf | code/outliers_rejection.py:68 | `np.max`: an upper bound of the block that occurs in it |
| KappaClipping.ClassWorst | code/outliers_rejection.py:61-73 | the worst of the two class maxima bounds every scanned residual and is one of them, or the 0 of a disabled class; it fails exactly on an empty block, including `errors[-0:]` being the whole vector, and then always with `EmptyBlock` |
| KappaClipping.CountsOfBlocks | code/outliers_rejection.py:62-70 | the block sizes are the lengths of the tables the loop may clip and 0 for the others, so they agree with the configuration |
| KappaClipping.PassOf | code/outliers_rejection.py:58-73 | a pass fails with `MalformedFit` exactly on an ill-shaped fit; on a well-shaped one it succeeds exactly when both class maxima exist and otherwise fails with `EmptyBlock`; its residuals are `y - L q`, signed on the first pass and absolute later, its standard deviation is that of the signed residuals, and its worst value is the class maximum |
| KappaClipping.Evaluate | code/outliers_rejection.py:51-73 | a pass fits the active tables; its block sizes are those of the active tables and fit inside the residual vector |
| KappaClipping.DispatchAsWritten | code/outliers_rejection.py:79-104 | the branch chain as written: a row it selects lies in a clippable table and sits at the global index it came from |
| KappaClipping.FirstSupernovaNeverMoved | code/outliers_rejection.py:98 | as written, the first supernova row is matched by no branch; the corrected dispatch moves it |
| KappaClipping.Dispatch | code/outliers_rejection.py:79-104 | the corrected branch chain: a row it selects lies in a clippable table at the given global index |
| KappaClipping.DispatchCovers | code/outliers_rejection.py:79-104 | every row of every clippable table is selected by its own global index |
| KappaClipping.DispatchAsWrittenAgrees | code/outliers_rejection.py:79-104 | the two dispatches agree on every index except the first supernova row |
| KappaClipping.Selected | code/outliers_rejection.py:77-104 | with the supernova test corrected to `>=` (`TargetAsWritten` is the test as written): it fails with `WorstNotFound` exactly when the worst value is not among the errors, as `list.index` raises; a chosen row is a valid row of a clippable table at the first position holding the worst value |
| KappaClipping.SelectedInTable | code/outliers_rejection.py:79-104 | a selected row exists in its clippable active table, so the drop at that position is defined |
| KappaClipping.SelectedNoneOutside | code/outliers_rejection.py:79-104 | when no row is selected, no row of any clippable active table sits at the first position holding the worst value |
| KappaClipping.Step | code/outliers_rejection.py:79-104 | one move conserves rows, leaves the non-clippable tables alone and shrinks the clippable rows by one |
| KappaClipping.Decide | code/outliers_rejection.py:76-128 | with the corrected dispatch (the pass as written is compared in `DecideAsWrittenStops`, `DecideAsWrittenStays` and `DecideAsWrittenMoves`): the loop stops exactly when `worst >= kappa std` fails; a move is always the selected row, which exists in its clippable table (`DecideMovesSelected` and `DecideSelectionFails` give the converse); when no row is selected, the signed first pass is followed by a refit on absolute residuals (`Again`) and a later pass ends with `NoProgress` |
| KappaClipping.DecideMovesSelected | code/outliers_rejection.py:76-104 | a continuing pass that selects a row moves exactly that row |
| KappaClipping.DecideSelectionFails | code/outliers_rejection.py:76-77 | a continuing pass whose worst value cannot be located fails with `WorstNotFound`, as `list.index` raises |
| KappaClipping.ClipFrom | code/outliers_rejection.py:76-128 | the loop over any judge, used with the corrected `Decide` (`RunAsWritten` is the loop as written): a failing first pass is its error and a stopping one returns the input after one fit; it conserves rows and only appends excluded rows; every move removes one clippable row; it makes one fit more than it moves rows, two more after an `Again`; its final state passes the stop test; the non-clippable tables are untouched |
| KappaClipping.ClipFromTotal | code/outliers_rejection.py:76-128 | under a judge that fails, if at all, only with one fault `f`, refits without a move only on the signed first pass and moves only existing clippable rows, the loop ends with tables or with `f`: each move takes one clippable row away |
| KappaClipping.ClipFromMoves | code/outliers_rejection.py:79-104 | a first pass that moves a row gives a run with at least one move, and that row ends among the excluded rows of its group |
| KappaClipping.InitialSplit | code/outliers_rejection.py:41-48 | the active tables are the input; the excluded tables start empty, except that the supernova table starts as the out-of-window supernovae when `fit_aB` is set |
| KappaClipping.ClipFromSupernovae | code/outliers_rejection.py:47-48 | the out-of-window supernovae stay at the head of the excluded supernova table; without `fit_aB` the supernova tables are untouched |
| KappaClipping.Reported | code/outliers_rejection.py:135-148 | a count is reported exactly for the groups the loop can clip |
| KappaClipping.ClipFromReported | code/outliers_rejection.py:135-148 | the reported counts, with the out-of-window supernovae subtracted, add up to the number of moves |
| KappaClipping.SingleKappaClipping | code/outliers_rejection.py:11-151 | with the corrected dispatch (`RunAsWritten` is the loop as written): a failing first fit fails the call; a first fit that stops returns the input unchanged after one fit; otherwise the result conserves the input rows, its active tables pass the stop test, and the supernova and reported-count facts hold; `SingleKappaClippingTotal` states when the call ends, and `SingleKappaClippingMoves` that a selected row is clipped |
| KappaClipping.SingleKappaClippingTotal | code/outliers_rejection.py:76-128 | when every pass ends in a decision or in numpy's error on an emptied block (`EmptyBlock`), the call ends with tables or with `EmptyBlock`: the refit loop cannot run forever |
| KappaClipping.ExactFitResiduals | code/outliers_rejection.py:51-58 | a fit with zero observations, no parameters and empty design rows leaves every residual `y - L q` at 0 |
| KappaClipping.ExactFitWorst | code/outliers_rejection.py:58-77 | with Cepheids and supernovae enabled, a pass of that fit that gets past `np.max` has a non-empty Cepheid family and finds the worst value first at position 0 |
| KappaClipping.ExactFitPass | code/outliers_rejection.py:62-104 | with every class enabled, each pass of that fit over any tables stops, moves a row, or fails on an emptied block |
| KappaClipping.ExactFitFollowable | code/outliers_rejection.py:62-104 | so the hypothesis of `SingleKappaClippingTotal` holds for that fit, whatever the square root and `kappa`, in the configuration with every class enabled |
| KappaClipping.ExactFitEnds | code/outliers_rejection.py:76-128 | with every class enabled, a run on that fit ends with tables or with `EmptyBlock` |
| KappaClipping.SingleKappaClippingMoves | code/outliers_rejection.py:76-104 | when the first fit selects a row, a call that ends well has moved at least one row, and that row is among the excluded rows of its group |
| KappaClipping.KappaArgumentIgnored | code/outliers_rejection.py:11 | the result does not depend on the `kappa` argument; the configured kappa is used |
| KappaClipping.StoppedBound | code/outliers_rejection.py:76 | when the loop stops, every scanned residual lies below kappa standard deviations |
| KappaClipping.TargetAsWritten | code/outliers_rejection.py:77-104 | the row the loop as written selects: the first position holding the worst value, through the strict supernova test; the row exists in its clippable table |
| KappaClipping.PassAsWritten | code/outliers_rejection.py:76-128 | one pass as written: a failing fit is its error, it ends exactly when `worst >= kappa std` fails, and a pass that goes on conserves rows |
| KappaClipping.SelectedAsWritten | code/outliers_rejection.py:79-104 | off the first supernova row, the corrected and the as-written selections agree |
| KappaClipping.DecideAsWrittenStops | code/outliers_rejection.py:76 | the corrected decision stops exactly when the pass as written stops |
| KappaClipping.DecideMissingWorst | code/outliers_rejection.py:76-77 | when the worst value is not among the errors, the decision fails with `WorstNotFound` exactly when the loop goes on |
| KappaClipping.DecideAsWrittenStays | code/outliers_rejection.py:76-128 | off the first supernova row, a decision that moves nothing (`Again` or `NoProgress`) matches a pass as written that returns the tables unchanged |
| KappaClipping.DecideAsWrittenMoves | code/outliers_rejection.py:79-104 | off the first supernova row, the row the corrected decision moves is the row the pass as written moves |
| KappaClipping.PassesAsWritten | code/outliers_rejection.py:106-128 | every pass of the loop as written refits the tables it is given and conserves rows |
| KappaClipping.RunAsWritten | code/outliers_rejection.py:76-128 | the `while` loop as written, bounded by fuel: a first pass that stops or fails ends it at once, and a loop that ends does so on a pass that stops |
| KappaClipping.FixedPointNeverStops | code/outliers_rejection.py:76-128 | a loop whose pass returns its own input never reaches an end, whatever the fuel |
| KappaClipping.AsWrittenRepeats | code/outliers_rejection.py:98-104 | as written, a pass whose worst residual is the first supernova changes nothing |
| KappaClipping.AsWrittenNeverStops | code/outliers_rejection.py:76-128 | as written, the loop then never ends |
| KappaClipping.CorrectedMovesFirstSupernova | code/outliers_rejection.py:98 | the corrected loop moves that supernova |
| CorrectionGrid.Dedup | code/relativistic_corrections.py:50-54 | `drop_duplicates`: no repeated value, and the same set of values |
| CorrectionGrid.DedupDistinct | code/relativistic_corrections.py:50-54 | a column without repeats is its own axis |
| CorrectionGrid.DedupIdempotent | code/relativistic_corrections.py:50-54 | deduplicating twice changes nothing |
| CorrectionGrid.DedupFirstAppearance | code/relativistic_corrections.py:50-54 | axis values keep the order of their first appearance in the column |
| CorrectionGrid.CellOf | code/relativistic_corrections.py:64-68 | `np.where` on each axis: the cell's indices hold the row's coordinates, and no cell exists exactly when a coordinate is missing from its axis |
| CorrectionGrid.Fill | code/relativistic_corrections.py:57-74 | only cells inside the grid's shape are written |
| CorrectionGrid.FillLastWrite | code/relativistic_corrections.py:62-74 | a cell holds the band value of the last row written to it |
| CorrectionGrid.FillUntouched | code/relativistic_corrections.py:57-59 | a cell no row reaches keeps the 0 of `np.zeros` |
| CorrectionGrid.TableRowsHaveCells | code/relativistic_corrections.py:50-68 | every row of the table finds its cell in axes built from that table |
| CorrectionGrid.GridHoldsEveryRow | code/relativistic_corrections.py:57-74 | when no two rows share a cell, each row's band value is in the grid at its cell |
| CorrectionGrid.BuildGrids | code/relativistic_corrections.py:57-59 | the H and V grids exist exactly for Cepheids |
| CorrectionGrid.InterpolateFunction | code/relativistic_corrections.py:76-83 | the I interpolator is built on the F814WK grid; the H and V interpolators exist exactly for Cepheids and are built on the F160WK and F555WK grids |
| Corrections.RLBCorrection | code/relativistic_corrections.py:19-23 | each Cepheid and anchor period loses `log10(1+z)` with every other column kept; the other tables are unchanged |
| Corrections.RLBTwice | code/relativistic_corrections.py:22 | applied twice, the correction shifts the period twice |
| Corrections.Clamp | code/relativistic_corrections.py:133-160 | the result lies in the range; a warning is raised exactly when the input is outside it; an input inside is kept |
| Corrections.ClampNearest | code/relativistic_corrections.py:133-160 | the clamped value is the point of the range nearest to the input |
| Corrections.ClampIdempotent | code/relativistic_corrections.py:133-160 | clamping again changes nothing and warns about nothing |
| Corrections.ClampPoint | code/relativistic_corrections.py:133-160 | Teff, logg, [Fe/H] and z end inside Table A1's ranges; unclamped ones are unchanged; E(B-V) is passed through |
| Corrections.LoggClampFree | code/relativistic_corrections.py:124-146 | with logg from equation 21 of Anderson (2022), logg needs no clamping exactly when 0.1909/0.8808 <= log P <= 2.1909/0.8808 |
| Corrections.CepheidPoint | code/relativistic_corrections.py:122-132 | [Fe/H] and z come from the row and E(B-V) from the setup; logg follows equation 21 of Anderson (2022) and Teff equation 20 |
| Corrections.KCorrCep | code/relativistic_corrections.py:118-121 | the combined correction is the H band less `R` times the V-I difference, so it is the H band alone when `R` is 0 or V equals I |
| Corrections.CepheidRow | code/relativistic_corrections.py:118-161 | `mW` loses `H - R (V - I)` at the clamped point and no other column changes |
| Corrections.CepheidRowInRange | code/relativistic_corrections.py:133-161 | a row inside every range is corrected at its own point and draws no warning |
| Corrections.CepheidRowWarningsExact | code/relativistic_corrections.py:133-160 | a row warns for each clamped parameter and for nothing else, with the value before clamping |
| Corrections.TableWarningsExact | code/relativistic_corrections.py:127-160 | a table's warnings are exactly those of its rows |
| Corrections.CepheidWarningsExact | code/relativistic_corrections.py:127-160 | each warning of a Cepheid table names a row and one of its clamped parameters, and every clamped parameter is reported |
| Corrections.InterpolatedKCorrCep | code/relativistic_corrections.py:113-172 | the interpolators come from the cache or are built for Cepheids; Cepheids, anchors and, with `include_MW`, the Milky Way rows are corrected; the TRGB and supernova tables are unchanged |
| Corrections.CepheidCacheReuse | code/relativistic_corrections.py:113-115 | passing back the returned interpolators gives the same result as building them again |
| Corrections.LoadInterpolators | code/relativistic_corrections.py:113-115 | cached interpolators are used as given; without them they are built for Cepheids |
| Corrections.TRGBPoint | code/relativistic_corrections.py:215-225 | only z is clamped; Teff, logg, [Fe/H] and E(B-V) are used as given |
| Corrections.TRGBRow | code/relativistic_corrections.py:225 | `m` loses the I-band correction and no other column changes |
| Corrections.TRGBWarningsExact | code/relativistic_corrections.py:215-224 | a TRGB row warns exactly when its z lies outside [0, 0.03] |
| Corrections.InterpolatedKCorrTRGB | code/relativistic_corrections.py:210-233 | only the first interpolator is read; the TRGB and TRGB anchor tables are corrected and the others are unchanged |
| Corrections.TRGBCacheReuse | code/relativistic_corrections.py:210-212 | passing back the returned interpolators gives the same result as building them again |
| Corrections.CepheidAndTRGBCommute | code/relativistic_corrections.py:164-233 | the Cepheid and TRGB K-corrections change disjoint tables, so applying them in either order gives the same tables |
| LegacyCorrections.LerpBetween | code/relativistic_corrections.py:263-265 | inside a segment the interpolated line stays between the end values |
| LegacyCorrections.FindSegment | code/relativistic_corrections.py:262-268 | the first segment whose left end is at or below z and whose right end is above it, or none |
| LegacyCorrections.InterpolateAsWritten | code/relativistic_corrections.py:248-276 | the value comes from a segment holding z, or is the first node below the range and the node before the last otherwise |
| LegacyCorrections.Interpolate | code/relativistic_corrections.py:248-276 | corrected: the value comes from a segment holding z, or is the first node below the range and the last node otherwise; it agrees with the code as written wherever a segment holds z or z lies below the first node |
| LegacyCorrections.InterpolateInSegment | code/relativistic_corrections.py:262-266 | within a segment both versions agree and the slope and intercept lie between the node values |
| LegacyCorrections.InterpolateAtInnerNode | code/relativistic_corrections.py:262-266 | at every node but the last, the node's own slope and intercept are returned |
| LegacyCorrections.InterpolateBelow | code/relativistic_corrections.py:269-271 | below the first node, the first node's values are returned |
| LegacyCorrections.InterpolateAbove | code/relativistic_corrections.py:272-274 | at or above the last node, the code as written returns the node before the last |
| LegacyCorrections.CepheidReferences | code/relativistic_corrections.py:279-293 | tables exist exactly for W, F555W, F814W and F160W, all on the five reference redshifts |
| LegacyCorrections.AsWrittenJumpsAtLastNode | code/relativistic_corrections.py:272-274 | for W the slope jumps from about 0.31e-3 to 1.07e-3 at z = 0.0245 |
| LegacyCorrections.LegacyCepheidRow | code/relativistic_corrections.py:300-309 | `mW` gains `(m logP + c) z (V-I) - 0.105 z (V-I)` and no other column changes |
| LegacyCorrections.LegacyCepheidRowCorrected | code/relativistic_corrections.py:300-309 | the same row update with the corrected interpolation |
| LegacyCorrections.LegacyMWRow | code/relativistic_corrections.py:313-317 | the Milky Way result goes into a column `MW` and `mW` is kept |
| LegacyCorrections.LegacyKCorrCep | code/relativistic_corrections.py:279-319 | an unknown filter fails exactly when some row would be corrected, and otherwise changes nothing; with a known filter each Cepheid and anchor row is `LegacyCepheidRow` of itself and, with `include_MW`, each Milky Way row is `LegacyMWRow` of itself; the Milky Way magnitudes and the TRGB and supernova tables are unchanged |
| LegacyCorrections.LegacyKCorrCepCorrected | code/relativistic_corrections.py:279-319 | the corrected version fails under the same condition; with a known filter each Cepheid, anchor and, with `include_MW`, Milky Way row is `LegacyCepheidRowCorrected` of itself; the TRGB and supernova tables are unchanged |
| LegacyCorrections.MWCorrectedLikeOthers | code/relativistic_corrections.py:311-317 | the value the code as written stores in the `MW` column is the corrected Milky Way magnitude |
| LegacyCorrections.LegacyCepheidZeroRedshift | code/relativistic_corrections.py:300-304 | a Cepheid at zero redshift is unchanged |
| LegacyCorrections.TRGBCoefficients | code/relativistic_corrections.py:332-340 | coefficients exist exactly for V, I and H |
| LegacyCorrections.LegacyTRGBRow | code/relativistic_corrections.py:347-352 | `m` gains `(a + b z) z (V-I)` and no other column changes |
| LegacyCorrections.LegacyTRGBInverse | code/relativistic_corrections.py:347-352 | taking the colour term of each corrected row back off recovers both TRGB tables |
| LegacyCorrections.LegacyKCorrTRGB | code/relativistic_corrections.py:332-353 | nothing is returned for an unknown filter; otherwise each TRGB and TRGB anchor row is `LegacyTRGBRow` of itself and the other tables are unchanged |
| LegacyCorrections.LegacyTRGBNeutral | code/relativistic_corrections.py:347-349 | a TRGB row at zero redshift or zero colour is unchanged |

## Left out

- The distance-ladder fit (`fit_distance_ladder`, `break_P2`) is not part of this model. It is the parameter `fit`, and only its first three results are read.
- A fit whose `y`, design matrix and parameter vector do not conform ends a pass with `MalformedFit`. numpy would raise or broadcast in that case. `MalformedFit` also covers a `y` shorter than the Cepheid, anchor, Milky Way and supernova rows together, where numpy's slices would silently overlap or come out short.
- The square root of `np.std` is the parameter `sqrt`. The standard deviation is the population one. An empty residual vector has none (`None`, numpy's NaN), and the loop then stops because every comparison with NaN is false.
- `np.log10` and `10**` are the parameters `log10` and `pow10`, because their values are transcendental.
- scipy's `RegularGridInterpolator` is the parameter `makeInterp`. Its multilinear interpolation and its bounds error are not modelled.
- Printing, the `outliers/` directory, the CSV files and the progress messages are left out. A printed warning is returned as a `Warning` value, and a count printed at the end is the value of `Reported`.
- Floating point is modelled as exact reals.
- Tables are positional: the model assumes each input DataFrame is indexed 0 to n-1. With any other index, `iloc` and `drop(index=...)` in the loop would address different rows, and the warnings of the K-corrections would print the label instead of the position.
- `ClipFrom`: when the worst position lies in no clippable table on a pass after the first, it ends with `NoProgress`, where the source would refit the same tables forever. This happens, for example, when the worst residual falls in the TRGB rows between the Cepheid and supernova blocks. After the signed first pass the same case moves nothing and refits with absolute residuals, as the source does. The guard against a move outside the tables never fires for `Decide`: its contract states that a row it moves exists in its clippable table.
- SingleKappaClipping: that the call ends with tables or `EmptyBlock` is promised only when every pass ends in a decision or `EmptyBlock`, because the fit is a parameter: a fit whose pass finds no entry equal to the worst value ends the call with `WorstNotFound`, as `list.index` raises there, and one whose worst value lies first outside the clippable rows after the first pass ends it with `NoProgress`, where the source refits forever. `ExactFitFollowable` shows that the condition holds for a fit with every class enabled.
- `np.max` of an empty block raises in numpy. It is the error `EmptyBlock`. A value that `list.index` does not find is the error `WorstNotFound`.
- The legacy Cepheid correction with an unknown filter prints an error and then fails on the first row it corrects. It is the error `UnknownFilter` exactly when there is such a row.
- `InterpolatedKCorrCep` requires cached interpolators to hold H and V. The source unpacks three functions from them and would fail later without them.
- `RLBCorrection` does not touch the Milky Way Cepheids, exactly as the source.
- `MWCorrectedLikeOthers`: stated only below the last reference redshift, because above it the two interpolations differ by the second finding below.
- `InterpolateAsWritten`: its own contract states only where its result comes from. The values it takes are stated by `InterpolateInSegment`, `InterpolateAtInnerNode`, `InterpolateBelow` and `InterpolateAbove`.

## Findings

| source | as written | input that shows it | evidently intended | confidence | as-written member | corrected member |
|---|---|---|---|---|---|---|
| code/outliers_rejection.py:98 | `index_worst > len(y)-N_SN` | `fit_aB` on and the worst residual on the first supernova row (global index `len(y) - N_SN`): no branch moves a row, the refit gives the same residuals, and the loop never ends | `index_worst >= len(y)-N_SN` | high, not executed | KappaClipping.DispatchAsWritten, KappaClipping.FirstSupernovaNeverMoved, KappaClipping.AsWrittenNeverStops | KappaClipping.Dispatch, KappaClipping.DispatchCovers, KappaClipping.CorrectedMovesFirstSupernova |
| code/relativistic_corrections.py:273-274 | at or above the last reference redshift, `m_ref[-2]` and `c_ref[-2]` | filter `W`, z = 0.0245: slope 1.07e-3, while just below it the slope is near 0.31e-3 | the last node's values, mirroring the first node below the range | low, not executed | LegacyCorrections.InterpolateAsWritten, LegacyCorrections.AsWrittenJumpsAtLastNode | LegacyCorrections.Interpolate, LegacyCorrections.InterpolateAbove |
| code/relativistic_corrections.py:315 | Milky Way Cepheids write `Cepheids_MW.loc[i, 'MW']` | `include_MW` on and any Milky Way row with non-zero colour term: its `mW` is left uncorrected and a new column `MW` appears | write `mW`, like the other two tables | medium, not executed | LegacyCorrections.LegacyMWRow, LegacyCorrections.LegacyKCorrCep | LegacyCorrections.LegacyKCorrCepCorrected, LegacyCorrections.MWCorrectedLikeOthers |
