# Sensitivity optimisation and run summary of cta-lstchain, in Dafny

This project models two pieces of cta-lstchain, the analysis chain of the
first Large-Sized Telescope of CTA.

**Sensitivity from Monte-Carlo events** (`lstchain/mc/sensitivity.py`):
- Diffuse protons are counted in a background ring whose inner and outer
  half-rings have equal area (`ring_containment`).
- For every energy bin, a grid of gammaness and theta² cuts
  (`bin_definition`) is scanned.
- Each cell counts the weighted and raw gammas and protons that pass its
  masks.
- The Li & Ma excess matching 5σ is raised to two floors: a minimum
  excess, and 5 % of the background.
- The sensitivity in percent of the reference flux is then
  `excess / n_on · 100`.
- A cell with too few events, or with a non-finite or non-positive
  sensitivity, is marked +∞.
- `nanargmin` then picks the best cut of each bin (`find_best_cuts_sens`).
- `sensitivity` repeats the counting with cuts that are given per bin.
- It then keeps the gamma-like events that pass their bin's cuts.
- The simple estimator `nex / sqrt(nbg · alpha)` is modelled too
  (`calculate_sensitivity`).

**Run summary of one night** (`lstchain/scripts/lstchain_create_run_summary.py`):
- The parsed R0 run objects are sorted.
- The files of one stream give the run numbers and the subrun counts of
  each run.
- The first event of a run gives its reference time, which is either the
  UCTS timestamp or the run start.

Organisation:
- `Numeric` holds IEEE doubles as values (`Finite`, `PosInf`, `NegInf`,
  `NaN`) with numpy's division by zero.
- `RingContainment` holds the ring.
- `Significance` holds the floors, the two Li & Ma floor loops, the simple
  estimator and the invalid-cell test.
- `Binning` holds the cut grids.
- `EventSelection` holds the masks, counts and weighted sums.
- `CutQuantities` holds the per-cell quantities that both optimisation
  paths are specified by.
- `CutOptimizer` holds `find_best_cuts_sens`, as methods over 3-D arrays.
- `FixedCuts` holds the per-bin path of `sensitivity` and the survivor
  table.
- `ResultTable` holds the zipped results table.
- `RunSummary` holds the run-summary script.

The source file contains unresolved merge-conflict markers, so it has two
versions of several constants. Those constants are parameters here:
- The background floor is `0.05 · n_bg · alpha` in the upstream per-bin
  function `calculate_sensitivity_lima_ebin` (sensitivity.py:307). It is
  `0.05 · n_bg / 5` in the grid function (sensitivity.py:201, 227) and in
  the HEAD per-bin function `calculate_sensitivity_lima_1d`
  (sensitivity.py:275-276). This is `FloorParams.background`
  (`ScaledByAlpha` or `DividedBy(d)`).
- The minimum background and raw counts are 10 (sensitivity.py:579-580,
  852-853) or 5 (sensitivity.py:585-586). This is `Limits`.
- The minimum excess (10) and the systematic fraction (0.05) are fields of
  `FloorParams`.

Code that cannot be seen, or that is not logic, becomes a parameter:
- The Li & Ma solver (gammapy's `excess_matching_significance`) is a
  function parameter, `ExcessSolver`.
- The per-event rate weights are fields of the events.
- The energy edges `E` are given.
- The observation time is a field of `Sample`.
- Square roots are witnesses (`IsSqrt`).
- π cancels, so ring areas are kept divided by π.

Choices where the two merge sides disagree:
- The survivor filter compares `10**mc_energy` of the HEAD side, taken as
  the event's true energy, with the edges.
- The grid path calls `calculate_sensitivity_lima`, which takes `alpha` as
  the scalar `1 / noff`.
- The per-bin path calls `calculate_sensitivity_lima_1d` with the scalar
  `alpha = 1/noff` on the HEAD side (sensitivity.py:844). The upstream side
  calls `calculate_sensitivity_lima_ebin` with an array of `1/noff`
  (sensitivity.py:847-849). The two functions differ only in the floor
  rule: `DividedBy(5)` for HEAD and `ScaledByAlpha` for upstream.
  `CalculateSensitivityLimaEbin` takes an alpha array and a `FloorParams`,
  so it covers both. The HEAD solver call passes no `n_on`; a solver that
  ignores its first argument models it.

## Model

| member | source | states |
|---|---|---|
| RingContainment.RingFor | lstchain/mc/sensitivity.py:363-364 | the inner limit is `R - Δ`; the outer limit is chosen so that the inner half-ring `R² - r_low²` and the outer half-ring `r_high² - R²` have equal area |
| RingContainment.AreaIsTwiceInnerBand | lstchain/mc/sensitivity.py:366-372 | the ring area (over π) is the sum of the two half-rings, which is twice the inner one |
| RingContainment.RingGeometry | lstchain/mc/sensitivity.py:363-372 | for `0 < Δ ≤ R` the area is positive, `0 ≤ r_low < R` and the outer radius is beyond `R` |
| RingContainment.RingAreaPositive | lstchain/mc/sensitivity.py:366 | a half-width in `(0, R]` gives a positive area |
| RingContainment.Contained | lstchain/mc/sensitivity.py:374 | the ring mask on `θ²`: `θ² ≥ 0`, above the square of a non-negative lower limit and below the outer limit's square (its meaning in radii is ContainedIffBetweenRadii) |
| RingContainment.ContainedIffBetweenRadii | lstchain/mc/sensitivity.py:374 | the containment test on squares holds exactly when `r_low < sqrt(θ²) < r_high`, both strict, for any square-root witnesses |
| RingContainment.AreaRatio | lstchain/mc/sensitivity.py:499 | the ratio times the ring area is the on-region `t` (π cancelling); it is non-negative for `t ≥ 0` |
| Numeric.Div | lstchain/mc/sensitivity.py:314 | numpy division: exact for a non-zero divisor; +inf, -inf or NaN by the sign of the dividend for a zero divisor |
| Significance.Floored | lstchain/mc/sensitivity.py:299-307 | the floored excess is at least the solver's value, the minimum excess and the background floor, and equals one of them (their maximum): values are only raised |
| Significance.FlooredMonotoneInBackground | lstchain/mc/sensitivity.py:305-307 | for a fixed solver value, more background never lowers the floored excess: only the background floor moves |
| Significance.FlooredExcessMonotoneInBackground | lstchain/mc/sensitivity.py:299-307 | if the solver asks for no less excess from more background, the excess after both floors does not decrease with the background either |
| Significance.BackgroundFloorMonotone | lstchain/mc/sensitivity.py:226-227 | both floor rules (`·alpha` and `/d`) grow with the background |
| Significance.PercentOfReference | lstchain/mc/sensitivity.py:314 | `s · n_on = 100 · excess` when `n_on ≠ 0`; +inf for no signal and a positive excess; NaN for `0/0` |
| Significance.PercentOfReferenceDecreasing | lstchain/mc/sensitivity.py:314 | a positive excess over more signal gives a lower, still positive, sensitivity |
| Significance.SimpleSensitivity | lstchain/mc/sensitivity.py:147-164 | `calculate_sensitivity`: a negative radicand `nbg · alpha` gives NaN; a positive excess over a positive radicand with square root `root` gives a finite positive `s` with `s · nex = 500 · root` |
| Significance.SimpleSensitivityCases | lstchain/mc/sensitivity.py:161-162 | `5 / (nex / sqrt(b)) · 100` is finite and positive with `s · nex = 500 · sqrt(b)` for positive excess and radicand; +inf with no excess; 0 with no background; NaN for a negative radicand |
| Significance.PositiveCase | lstchain/mc/sensitivity.py:161-162 | positive excess and radicand: `s > 0`, `s · nex = 500 · sqrt(b)` and `s² · nex² = 250000 · b` |
| Significance.NoExcessCase | lstchain/mc/sensitivity.py:161-162 | zero excess over a positive radicand gives +inf |
| Significance.NoBackgroundCase | lstchain/mc/sensitivity.py:161-162 | positive excess over a zero radicand gives 0 |
| Significance.NegativeRadicandCase | lstchain/mc/sensitivity.py:161-162 | a negative radicand gives NaN |
| Significance.SimpleSensitivityDecreasing | lstchain/mc/sensitivity.py:161-162 | a larger excess gives a lower simple sensitivity |
| Significance.MarkCell | lstchain/mc/sensitivity.py:590-598 | a marked cell is +inf or unchanged; a finite result is positive and meets the background and raw-count minima; an accepted cell is kept |
| Significance.CalculateSensitivityLimaEbin | lstchain/mc/sensitivity.py:299-314 | each bin's excess is the solver's value raised to the two floors, in place; the sensitivity is the percent of reference of that excess |
| Significance.CalculateSensitivityLima | lstchain/mc/sensitivity.py:217-231 | the same over the (energy, gammaness, theta²) grid, in a triple loop |
| Binning.Linspace | lstchain/mc/sensitivity.py:337-338 | `np.linspace` has `num` values |
| Binning.LinspaceEndpoints | lstchain/mc/sensitivity.py:337-338 | the first value is `start`; with two or more values the last is `stop` |
| Binning.LinspaceEvenlySpaced | lstchain/mc/sensitivity.py:337-338 | consecutive values differ by `(stop - start) / (num - 1)` |
| Binning.LinspaceIncreasing | lstchain/mc/sensitivity.py:337-338 | an increasing range gives a strictly increasing grid |
| Binning.LinspaceBounds | lstchain/mc/sensitivity.py:337-338 | every grid value lies between the endpoints |
| Binning.BinDefinition | lstchain/mc/sensitivity.py:319-345 | `gb` gammaness cuts from 0 to 1 and `tb` theta² cuts from 0.005 to 0.05 deg², both strictly increasing and within range |
| EventSelection.Count | lstchain/mc/sensitivity.py:566-569 | a mask keeps no more events than the table holds |
| EventSelection.WeightSum | lstchain/mc/sensitivity.py:559-563 | `np.sum` of the rate weights under a mask: the weights of the selected events, added in table order (bounds in WeightSumNonNegative and WeightSumImplied) |
| EventSelection.MembersSpec | lstchain/mc/sensitivity.py:976-978 | the kept row positions are exactly the rows passing the mask, in ascending order, and there are `Count` of them |
| EventSelection.CountImplied | lstchain/mc/sensitivity.py:566-569 | a mask implied by another counts no more |
| EventSelection.WeightSumImplied | lstchain/mc/sensitivity.py:559-563 | with non-negative weights, such a mask also sums to no more |
| EventSelection.WeightSumNonNegative | lstchain/mc/sensitivity.py:559-563 | non-negative weights give a non-negative sum |
| EventSelection.GammaCutMonotone | lstchain/mc/sensitivity.py:559-569 | the raw gamma count and weighted sum do not increase with the gammaness cut and do not decrease with the theta² cut |
| EventSelection.ProtonCutMonotone | lstchain/mc/sensitivity.py:562-570 | the ring proton count and weighted sum do not increase with the gammaness cut |
| EventSelection.CutWithinBin | lstchain/mc/sensitivity.py:559-573 | a cut keeps between zero and the whole bin's count and weighted sum |
| EventSelection.GammaEfficiencyInUnitInterval | lstchain/mc/sensitivity.py:572 | the cut gamma rate over the bin rate is finite and in `[0, 1]` when the bin rate is positive |
| CutQuantities.FinalGamma | lstchain/mc/sensitivity.py:559-564 | `final_gamma`: the weighted gamma sum under the cell's energy, gammaness and theta² mask, times the observation time (monotone by FinalGammaMonotone) |
| CutQuantities.FinalHadrons | lstchain/mc/sensitivity.py:562-565 | `final_hadrons`: the weighted proton sum under the cell's energy, gammaness and ring mask, times the observation time and the area ratio of the theta² cut (monotone by FinalHadronsMonotone) |
| CutQuantities.PreGamma | lstchain/mc/sensitivity.py:567-568 | `pre_gamma`: the number of gamma events under the cell's mask |
| CutQuantities.PreHadrons | lstchain/mc/sensitivity.py:569-570 | `pre_hadrons`: the number of proton events under the cell's ring mask; it does not depend on the theta² cut |
| CutQuantities.GammaPerBin | lstchain/mc/sensitivity.py:572 | `ngamma_per_ebin`: the weighted gamma sum of the whole energy bin, times the observation time (CutWithinBin bounds the cell sums by it) |
| CutQuantities.HadronPerBin | lstchain/mc/sensitivity.py:573 | `nhadron_per_ebin`: the same for protons |
| CutQuantities.CellExcess | lstchain/mc/sensitivity.py:543-544 | the cell's excess is at least the solver's value for `n_on = final_gamma`, `n_off = final_hadrons · noff`, `alpha = 1/noff`, at least the minimum excess and at least the background floor |
| CutQuantities.MarkedSensitivity | lstchain/mc/sensitivity.py:590-598 | a cell's sensitivity after the acceptance test is +inf or a positive finite value |
| CutQuantities.ResultRow | lstchain/mc/sensitivity.py:618-645 | the reported row of a cut: the cuts, `final_gamma` and `final_hadrons`, both per minute, the floored excess and marked sensitivity, the two efficiencies against the bin totals, and the raw counts after the cut on true energy (its `eff_gamma` is bounded by GammaEfficiencyBounded) |
| CutQuantities.MarkedSensitivityMeaning | lstchain/mc/sensitivity.py:590-598 | a cell's marked sensitivity is +inf or finite; it is finite exactly when the raw sensitivity is finite and positive and the background and raw counts meet the minima, and then it is unchanged |
| CutQuantities.FinalGammaMonotone | lstchain/mc/sensitivity.py:566-569 | `final_gamma` and `pre_gamma` do not increase with the gammaness cut and do not decrease with the theta² cut |
| CutQuantities.FinalHadronsMonotone | lstchain/mc/sensitivity.py:562-570 | `final_hadrons` is non-negative, does not increase with the gammaness cut and does not decrease with the theta² cut; `pre_hadrons` does not increase with the gammaness cut (and does not depend on theta²) |
| CutQuantities.AreaRatioMonotone | lstchain/mc/sensitivity.py:499 | the area ratio is non-negative and grows with the theta² cut |
| CutQuantities.GammaEfficiencyBounded | lstchain/mc/sensitivity.py:626 | the reported `eff_gamma` is finite and in `[0, 1]` when the bin rate and the observation time are positive |
| CutOptimizer.FillGrid | lstchain/mc/sensitivity.py:556-573 | every grid cell holds `final_gamma`, `final_hadrons`, `pre_gamma` and `pre_hadrons` of its masks; the per-bin totals are set when both cut grids are non-empty |
| CutOptimizer.FillEnergyBin | lstchain/mc/sensitivity.py:556-573 | one energy bin's planes are filled; the other cells are unchanged |
| CutOptimizer.FillRow | lstchain/mc/sensitivity.py:557-573 | one gammaness row of one energy bin is filled; the other cells are unchanged |
| CutOptimizer.MarkInvalidCells | lstchain/mc/sensitivity.py:590-598 | every cell becomes `MarkCell` of its old value and its counts |
| CutOptimizer.NanAsInf | lstchain/mc/sensitivity.py:617 | the `nanargmin` key is never NaN and equals the value when that is not NaN |
| CutOptimizer.NanArgmin | lstchain/mc/sensitivity.py:617 | a cell is found exactly when the plane holds a non-NaN value; it is the first cell in row-major order of least key |
| CutOptimizer.AllInfiniteArgminIsFirst | lstchain/mc/sensitivity.py:617 | a plane of +inf cells yields cell `(0, 0)` with +inf |
| CutOptimizer.ArgminIsBestCut | lstchain/mc/sensitivity.py:617-619 | over marked sensitivities the `nanargmin` cell minimises the bin's sensitivity, with ties going to the first cell in row-major order |
| CutOptimizer.SensitivityGrid | lstchain/mc/sensitivity.py:556-598 | the grids hold each cell's counts, its floored excess for `n_off = final_hadrons · noff` and `alpha = 1/noff`, and its marked sensitivity |
| CutOptimizer.BestCutRow | lstchain/mc/sensitivity.py:616-645 | a bin with a non-empty cut grid gets the best cut and that cut's result row; an empty grid raises |
| CutOptimizer.FindBestCutsSensitivity | lstchain/mc/sensitivity.py:524-645 | it fails exactly when there is an energy bin and an empty cut grid; otherwise row `i` is the result row of a best cut of bin `i` on `bin_definition(gb, tb)` |
| FixedCuts.FillBins | lstchain/mc/sensitivity.py:826-841 | each bin holds `final_gamma`, `final_hadrons` (with the area ratio of its own theta² cut), `pre_gamma`, `pre_hadrons` and the bin totals for its cuts |
| FixedCuts.FillBin | lstchain/mc/sensitivity.py:827-841 | bin `i` is filled; the other bins are unchanged |
| FixedCuts.MarkInvalidBins | lstchain/mc/sensitivity.py:855-861 | every bin's sensitivity becomes `MarkCell` of its old value and its counts |
| FixedCuts.FixedCutSensitivity | lstchain/mc/sensitivity.py:812-901 | row `i` is the result row of bin `i` with cuts `gcut[i]`, `tcut[i]` |
| FixedCuts.CollectRows | lstchain/mc/sensitivity.py:877-901 | the loop over bins assembles each bin's result row from the arrays |
| FixedCuts.SelectSurvivors | lstchain/mc/sensitivity.py:973-984 | the survivor table is the bin-by-bin concatenation of the events passing each bin's energy and gammaness cut and whose table theta² column (`scale` times the deg² value) is below the bin's cut |
| FixedCuts.SurvivorsSpec | lstchain/mc/sensitivity.py:975-984 | a row is in the survivor table exactly when it passes some bin's cuts |
| FixedCuts.SurvivorsDistinct | lstchain/mc/sensitivity.py:975-984 | with strictly increasing edges, no row appears twice |
| FixedCuts.CorrectedSurvivorsSpec | lstchain/mc/sensitivity.py:975-984 | in like units a row survives exactly when, for some bin, its true energy is inside the bin, its gammaness is above `gcut[i]` and its deg² theta² is below `tcut[i]` |
| FixedCuts.SurvivorUnitMismatch | lstchain/mc/sensitivity.py:976-982 | for any column scale below 1/2, an event at 0.1 deg² survives a 0.05 deg² cut as written and is dropped in like units |
| ResultTable.Zip | lstchain/mc/sensitivity.py:653 | `zip` has as many rows as its shortest column, and row `i` holds the `i`-th entries |
| ResultTable.PrefixTo | lstchain/mc/sensitivity.py:653 | `E[:stop]` is a prefix of `E`; its length is `min(stop, |E|)` for `stop ≥ 0` and `max(0, |E| + stop)` for a negative stop |
| ResultTable.AsWrittenTable | lstchain/mc/sensitivity.py:653 | the table as written has `min(max(|E| - 2, 0), |E| - 1, |bins|)` rows, and row `i` holds `E[i]`, `E[i + 1]` and `bins[i]` |
| ResultTable.CorrectedTable | lstchain/mc/sensitivity.py:653 | one row per energy bin, holding its edges and its result |
| ResultTable.AsWrittenTableDropsLastBin | lstchain/mc/sensitivity.py:653 | the table as written has `|E| - 2` rows, equal to the first rows of the corrected table; the last bin is missing |
| ResultTable.AsWrittenTableOneBin | lstchain/mc/sensitivity.py:653 | for edges `[10, 100]` the table as written is empty; the corrected one has the bin |
| ResultTable.CorrectedTableContiguous | lstchain/mc/sensitivity.py:653 | the corrected rows are non-empty bins that tile the edge range without gaps |
| RunSummary.InsertRun | lstchain/scripts/lstchain_create_run_summary.py:73-75 | inserting into a sorted list keeps it sorted and adds exactly that element |
| RunSummary.GetListOfRuns | lstchain/scripts/lstchain_create_run_summary.py:73-75 | the result is sorted and a permutation of the parsed run objects |
| RunSummary.SortedUnique | lstchain/scripts/lstchain_create_run_summary.py:73-75 | two sorted permutations of the same objects are equal, so the order of the file listing does not matter |
| RunSummary.StreamRuns | lstchain/scripts/lstchain_create_run_summary.py:83-86 | the run numbers of a stream's objects, in list order, are no more than the objects (StreamRunsCounts gives the counts) |
| RunSummary.StreamRunsCounts | lstchain/scripts/lstchain_create_run_summary.py:83-86 | the filtered run numbers hold one entry per object of the stream, and each run as often as it has objects of that stream |
| RunSummary.MatchingPositive | lstchain/scripts/lstchain_create_run_summary.py:83-86 | a run has a positive count exactly when some object of the stream has it |
| RunSummary.AddOneSpec | lstchain/scripts/lstchain_create_run_summary.py:85-87 | adding a value to a tally keeps keys strictly increasing and counts positive; it raises that value's count and the total by one |
| RunSummary.AddOneCounts | lstchain/scripts/lstchain_create_run_summary.py:85-87 | adding a value raises only that value's count, and the total, by one |
| RunSummary.Unique | lstchain/scripts/lstchain_create_run_summary.py:85-87 | `np.unique(..., return_counts=True)`, built by adding the values one by one to a sorted tally (its meaning is UniqueSpec) |
| RunSummary.UniqueSpec | lstchain/scripts/lstchain_create_run_summary.py:85-87 | `np.unique(..., return_counts=True)` gives strictly increasing keys whose counts are the multiplicities and add up to the length |
| RunSummary.CountOfKey | lstchain/scripts/lstchain_create_run_summary.py:85-87 | a key's recorded count is its entry's count |
| RunSummary.CountOfNonKey | lstchain/scripts/lstchain_create_run_summary.py:85-87 | a value that is not a key has count zero |
| RunSummary.TotalIsSum | lstchain/scripts/lstchain_create_run_summary.py:85-89 | the counts column sums to the tally's total |
| RunSummary.GetRunsAndSubruns | lstchain/scripts/lstchain_create_run_summary.py:78-89 | the run and count columns have the same length |
| RunSummary.GetRunsAndSubrunsSpec | lstchain/scripts/lstchain_create_run_summary.py:78-89 | runs are strictly increasing; each count is the number of files of that stream and run, and at least 1; a run is listed exactly when the stream has a file of it; the counts add up to the stream's files |
| RunSummary.GetRunsAndSubrunsCounts | lstchain/scripts/lstchain_create_run_summary.py:83-89 | the ordering, per-run count and total parts of the above |
| RunSummary.GetRunsAndSubrunsMembership | lstchain/scripts/lstchain_create_run_summary.py:83-86 | the membership part of the above |
| RunSummary.FirstTrue | lstchain/scripts/lstchain_create_run_summary.py:134 | `np.where(status)[0][0]` is the first true index, and fails exactly when there is none |
| RunSummary.FirstIndexOf | lstchain/scripts/lstchain_create_run_summary.py:135 | the first index holding the value, which fails exactly when the value is absent |
| RunSummary.ReadCounters | lstchain/scripts/lstchain_create_run_summary.py:122-167 | an `event_id ≠ 1` raises; the module index is the first active module; the module id is where the expected ids hold that index; the run start is the run date in ns; bit 2 set takes the UCTS timestamp as reference with source `"ucts"`, otherwise `ucts_timestamp = -1`, reference = run start, source `"run_start"` |
| RunSummary.ReadCountersSucceeds | lstchain/scripts/lstchain_create_run_summary.py:131-157 | a result is returned exactly when the event is the first one and every lookup finds its entry |

## Left out

- `process_mc` and `read_sim_par` (sensitivity.py:38-144) is HDF5 and pandas I/O plus trigonometric coordinate transforms. The events are given as tables of `Event`.
- The spectral reweighting `(E/E0)^(α−Γ)` and the spectral models (`crab_hegra`, `crab_magic`, `proton_bess`) use real powers. Each event's rate weight is given.
- `n_sim_bin`, the effective area `eff_area` and the flux sensitivity `sens_flux` are not modelled. They are powers, square roots and unit conversions of quantities the model does compute.
- `np.logspace` energy edges and astropy units are not modelled. The edges are an input.
- `ring_containment`'s radius and half-width are hard-coded (0.4 and 0.2 or 0.3 deg). Here they are the `Sample`'s ring.
- The Li & Ma solver is a foreign library call. It is the `ExcessSolver` function parameter, and no property of its result is assumed.
- Floating-point rounding and signed zero are not modelled. Reals are exact.
- The solver's result is a real. A NaN or infinite excess from gammapy is not modelled.
- `noff = 0` is excluded by a precondition. The source would divide by zero in `1/noff`.
- The DataFrame and unit assembly, the prints and the commented-out plots are not modelled. The row contents are modelled as `BinResult` and `TableRow`.
- The efficiency-target mode (`sensitivity_gamma_efficiency`) is not defined in the modelled file.
- `FindBestCutsSensitivity`: with an empty cut grid (`gb` or `tb` 0) the model reports failure. The source raises in `nanargmin` for such a bin.
- `FillGrid`: the source leaves an uninitialised array for the per-bin totals when a cut grid is empty. The model leaves those cells unconstrained.
- `parse_r0_filename` (lstchain/paths.py) is not part of this model. A run object is `(tel_id, run, subrun, stream)`, assumed to sort lexicographically in that order.
- `combine_counters` is not part of this model. `ReadCounters` returns the reference module's raw PPS and 10 MHz counters.
- The run date's `Time(...).unix_tai` rounding, the file glob and the protozfits reading are not modelled. `ReadCounters` takes the first event, the camera configuration and the rounded TAI seconds.
- argparse, `Table.write` and `main` of the run summary are not modelled.
- `ReadCounters` reports an empty CDTS timestamp array, or a module index past the counter arrays, as an error. The source would raise an `IndexError` there.

## Findings

| source | as written | input that shows it | evidently intended | confidence | as-written member | corrected member |
|---|---|---|---|---|---|---|
| lstchain/mc/sensitivity.py:141-143, 976-982 | the survivor filter compares the event table's theta² column, stored in rad² (`angdist2 = (... * u.rad)**2`), with the cuts `tcut[i]`, which are in deg², like the theta² returned for the counting loops | an event at 0.1 deg² (about 3.0e-5 rad²) in a bin with a 0.05 deg² cut passes the filter | compare like units, e.g. the deg² theta² of the counting loops | not executed; depending on how pandas and astropy combine the column and the cut, the comparison may instead raise a unit error | FixedCuts.SurvivorUnitMismatch | FixedCuts.CorrectedSurvivorsSpec |
| lstchain/mc/sensitivity.py:653 (also 910, 939) | the results table zips `E[:E.shape[0]-2]` with `E[1:]` and the per-bin columns, so it has one row fewer than there are energy bins | edges `[10, 100]` (one bin): the table is empty | lower edges `E[:-1]`, one row per bin | not executed | ResultTable.AsWrittenTableOneBin, ResultTable.AsWrittenTableDropsLastBin | ResultTable.CorrectedTable, ResultTable.CorrectedTableContiguous |
