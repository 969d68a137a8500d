# Coordinate exchange for split-plot designs, in Dafny

This project models the core of `src/optimal_splitk/doe.py`, an engine that
builds optimal split-plot experimental designs by coordinate exchange. It
covers four parts:

- **Model matrix.** `x2fx` expands a design matrix `Y` (one row per run, one
  column per encoded factor column) into the model matrix `X` of a polynomial
  model. The model is given as a table of per-column exponents.
- **Candidates.** `generate_coordinates` gives each factor its candidate
  settings:
  - the grid -1, 0, 1 for a continuous factor;
  - the effect coding for a categorical factor;
  - a caller-supplied set, when one is given, returned unchanged.
- **Exchange.** `optimize` is the exchange itself:
  - it computes the block geometry of each stratification level (`alphas`,
    `betas`) and each factor's first column (`col_start`);
  - each sweep scans every factor and every block of that factor's level;
  - the scan writes every candidate into the block and asks the criterion
    about each candidate that differs from the block's initial coordinate;
  - an accepted candidate is spliced into `X` at once;
  - the best candidate is written back into the block;
  - the loop stops after the first sweep that accepted nothing, or after
    `max_it` sweeps.
- **Driver.** `doe` normalises the variance ratios. It then runs the exchange
  from one starting design after another until `n_tries` runs have finished
  without a `LinAlgError`. It records each finished run's metric and keeps the
  design of the strictly best one.

`Y` and `X` are two-dimensional arrays that the methods of module `Exchange`
overwrite in place. Every method is proved to compute exactly a function of
module `ExchangeSpec` over design values (`seq<seq<real>>`). The properties
the source relies on are lemmas about those functions, in `ExchangeLemmas`:

- the search space is closed;
- `X` stays the model matrix of `Y`;
- the sweeps are bounded;
- nothing moves when the criterion never accepts.

The criterion (`optim`) is an abstract oracle with five operations:
`preinit`, `init`, `update`, `resync` and `metric`. `update` accepts with a new
state, rejects with a new state, or fails. A failure is the `except` branch
and keeps the old state. `init`, `resync` and `metric` may raise `LinAlgError`;
that outcome is the value `Singular`.

Files, in dependency order: `wrappers.dfy`, `matrices.dfy`, `geometry.dfy`,
`coordinates.dfy`, `model_matrix.dfy`, `criterion.dfy`, `exchange_spec.dfy`,
`exchange_lemmas.dfy`, `exchange.dfy`, `driver.dfy`.

## Model

| member | source | states |
|---|---|---|
| Geometry.Alphas | src/optimal_splitk/doe.py:158 | one block count per plot level; entry `l` is the product of the plot sizes at level `l` and above |
| Geometry.Betas | src/optimal_splitk/doe.py:159 | one block height per level plus one; entry `l` is the product of the plot sizes below level `l` |
| Geometry.Width | src/optimal_splitk/doe.py:164-166 | a factor takes at least one column, and L - 1 columns when categorical with L > 1 levels |
| Geometry.ColStart | src/optimal_splitk/doe.py:162-166 | `col_start` starts at 0, has one entry more than there are factors, and each entry is the previous one plus that factor's width |
| Geometry.BlockCountTimesHeight | src/optimal_splitk/doe.py:158-159 | for every level, `alphas[level] * betas[level]` is the number of runs, the product of all plot sizes |
| Geometry.BlockInBounds | src/optimal_splitk/doe.py:191-199 | every block `grp*jmp .. (grp+1)*jmp` with `grp < alphas[level]` lies inside the design's rows |
| Geometry.BlocksDisjoint | src/optimal_splitk/doe.py:199 | two different blocks of one level share no row |
| Geometry.BlocksTileRows | src/optimal_splitk/doe.py:191-199 | every run lies in block `r / jmp` of each level, and that block is one of the level's blocks |
| Geometry.ColumnRangesDisjoint | src/optimal_splitk/doe.py:162-166 | a factor's column range ends no later than any later factor's starts, and no later than the total width |
| Coordinates.GenerateCoordinates | src/optimal_splitk/doe.py:86-97 | a non-empty override is returned verbatim; otherwise a continuous factor gets exactly [[-1],[0],[1]], and a factor with L > 1 levels gets its effect coding: L rows of width L - 1 |
| Coordinates.EffectCoding | src/optimal_splitk/doe.py:91-92 | L levels give L rows of width L - 1, the last of them all -1 |
| Coordinates.EffectCodingRows | src/optimal_splitk/doe.py:91-92 | row k < L - 1 of the effect coding is the k-th unit vector and the last row is all -1 |
| Coordinates.EffectCodesDistinct | src/optimal_splitk/doe.py:91-92 | the effect-coded rows are pairwise distinct |
| Coordinates.ThreeLevelCoding | src/optimal_splitk/doe.py:91-92 | a three-level factor gets [1, 0], [0, 1], [-1, -1] |
| Coordinates.GeneratedWidth | src/optimal_splitk/doe.py:86-92 | generated coordinates have exactly the width `col_start` gives the factor |
| Coordinates.CoordinateSets | src/optimal_splitk/doe.py:169-172 | one candidate set per factor: generated, or built from that factor's override |
| ModelMatrix.Pow | src/optimal_splitk/doe.py:46-50 | the power 0 is 1 and the power 1 is the value itself, so the plain product used for exponent 1 agrees with `**` |
| ModelMatrix.Monomial | src/optimal_splitk/doe.py:44-50 | a column with exponent 0 contributes nothing to a term's product, as the skipped `term[j] == 0` case |
| ModelMatrix.Expand | src/optimal_splitk/doe.py:42-51 | the model matrix has one row per run and one column per term; by definition entry (r, t) is term t's product on run r |
| ModelMatrix.InterceptColumn | src/optimal_splitk/doe.py:43-51 | a term whose exponents are all zero has the value 1 on every run |
| ModelMatrix.MainEffectColumn | src/optimal_splitk/doe.py:46-48 | a term with exponent 1 for column k and 0 elsewhere reproduces column k |
| ModelMatrix.ExpandSlice | src/optimal_splitk/doe.py:216 | the model matrix of a range of runs is the same range of the full model matrix |
| ModelMatrix.MultiplyColumn | src/optimal_splitk/doe.py:45-50 | every entry of the running product is multiplied by the run's value in column j raised to the exponent |
| ModelMatrix.TermColumn | src/optimal_splitk/doe.py:44-50 | the running product of one term, from ones, is the term's monomial on every run |
| ModelMatrix.SetColumn | src/optimal_splitk/doe.py:51 | column t of `X` takes the product and every other column is unchanged |
| ModelMatrix.X2fx | src/optimal_splitk/doe.py:42-52 | a fresh matrix with one row per run and one column per term, equal to the model matrix of those runs |
| Matrices.WithBlock | src/optimal_splitk/doe.py:208 | a block write keeps the number of rows and every row's length |
| Matrices.Splice | src/optimal_splitk/doe.py:233 | replacing a range of rows keeps the number of rows; inside the range each row is the new row, outside it the old one |
| Matrices.WithBlockAt | src/optimal_splitk/doe.py:208 | after a block write, a cell holds the coordinate inside the block and its old value outside |
| Matrices.WithBlockTwice | src/optimal_splitk/doe.py:206-208 | writing a second candidate into the same block erases the first |
| Matrices.WithBlockSame | src/optimal_splitk/doe.py:238 | writing into a block the coordinate every row already holds changes nothing |
| Matrices.CellBeside | src/optimal_splitk/doe.py:208 | a block write leaves every cell outside the block's rows and columns unchanged |
| Matrices.CellInside | src/optimal_splitk/doe.py:208 | after a block write, every row of the block holds the coordinate |
| Matrices.WriteRow | src/optimal_splitk/doe.py:208 | one row's columns take the coordinate; every other cell is unchanged |
| Matrices.WriteBlock | src/optimal_splitk/doe.py:208 | the design becomes the old design with the block holding the coordinate |
| Matrices.CopyRow | src/optimal_splitk/doe.py:233 | one row of `X` takes the matching row of `Xi`; every other row is unchanged |
| Matrices.SpliceRows | src/optimal_splitk/doe.py:233 | `X` becomes the old `X` with the block's rows replaced by those of `Xi` |
| Matrices.RowSlice | src/optimal_splitk/doe.py:202 | the copied initial coordinate is the first row's cell in the factor's columns |
| ExchangeSpec.BlockFits | src/optimal_splitk/doe.py:191-199 | every block of a factor is non-empty, lies inside the design's rows, and the factor's columns lie inside its width |
| ExchangeSpec.ScanStep | src/optimal_splitk/doe.py:206-235 | one candidate of the scan keeps the model matrix's row count and the coordinate's width |
| ExchangeSpec.ScanFrom | src/optimal_splitk/doe.py:206-235 | the remaining candidates of the scan keep the model matrix's row count and the coordinate's width |
| ExchangeSpec.InitCoord | src/optimal_splitk/doe.py:202 | the initial coordinate has the factor's width |
| ExchangeSpec.BlockScan | src/optimal_splitk/doe.py:202-235 | the scan of one block keeps the model matrix's row count and yields a coordinate of the factor's width |
| ExchangeSpec.AfterBlock | src/optimal_splitk/doe.py:238 | writing the best coordinate back keeps the design's shape |
| ExchangeSpec.Next | src/optimal_splitk/doe.py:197-238 | one block scan keeps the design's shape and the model matrix's row count |
| ExchangeSpec.BlocksFrom | src/optimal_splitk/doe.py:191-238 | the scans of a factor's blocks keep the design's shape and the model matrix's row count |
| ExchangeSpec.SweepFrom | src/optimal_splitk/doe.py:184-238 | a sweep over the factors keeps the design's shape and the model matrix's row count |
| ExchangeSpec.Sweep | src/optimal_splitk/doe.py:177-238 | a whole sweep keeps the design's shape and the model matrix's row count |
| ExchangeSpec.Iterate | src/optimal_splitk/doe.py:175-244 | a sweep loop that did not raise keeps the design's shape and the model matrix's row count |
| ExchangeSpec.Exchange | src/optimal_splitk/doe.py:152-249 | the whole of `optimize`; a run that does not raise returns a design of the layout's shape |
| ExchangeLemmas.ScanChoosesCandidate | src/optimal_splitk/doe.py:202-235 | the scan ends with `best_coord` equal to the initial coordinate exactly when nothing was accepted, and otherwise with a candidate of the factor; without acceptance `X` is untouched |
| ExchangeLemmas.SpliceBlockRows | src/optimal_splitk/doe.py:216-233 | splicing the recomputed block rows into the model matrix of the previous candidate gives the model matrix of the new candidate |
| ExchangeLemmas.ScanKeepsModelMatrix | src/optimal_splitk/doe.py:208-238 | throughout the scan, `X` is the model matrix of the design with the block holding `best_coord` |
| ExchangeLemmas.ScanUnderFailingCriterion | src/optimal_splitk/doe.py:219-223 | when every update raises, the scan leaves the criterion state, `X` and `best_coord` exactly as they were |
| ExchangeLemmas.ScanWithoutAcceptance | src/optimal_splitk/doe.py:229-235 | when the criterion never accepts, the scan accepts nothing |
| ExchangeLemmas.WrittenBlockHolds | src/optimal_splitk/doe.py:238 | after writing a candidate back, every row of the block holds that candidate |
| ExchangeLemmas.OtherFactorUntouched | src/optimal_splitk/doe.py:198-208 | writing into one factor's block leaves every other factor's cells unchanged |
| ExchangeLemmas.OtherGroupUntouched | src/optimal_splitk/doe.py:199-208 | writing into one block leaves the cells of the factor's other blocks unchanged |
| ExchangeLemmas.OtherBlockHolds | src/optimal_splitk/doe.py:238 | writing into one block keeps every other uniform block uniform and inside its candidate set |
| ExchangeLemmas.WithBlockKeepsValid | src/optimal_splitk/doe.py:238 | writing a candidate into a block of a valid design keeps the design valid |
| ExchangeLemmas.BlockScanPreserves | src/optimal_splitk/doe.py:202-238 | one block scan keeps the design valid and `X` its model matrix; `updated` is set exactly when the coordinate changed, and a scan that accepted nothing changes neither `Y` nor `X` |
| ExchangeLemmas.BlocksMonotone | src/optimal_splitk/doe.py:235 | once a factor's block scans have set `updated`, it stays set |
| ExchangeLemmas.SweepMonotone | src/optimal_splitk/doe.py:235 | once a sweep has set `updated`, it stays set |
| ExchangeLemmas.BlocksPreserve | src/optimal_splitk/doe.py:191-238 | the scans of a factor's blocks keep the design valid and `X` its model matrix |
| ExchangeLemmas.SweepPreserves | src/optimal_splitk/doe.py:184-238 | a sweep keeps the design valid and `X` its model matrix |
| ExchangeLemmas.BlocksUnchanged | src/optimal_splitk/doe.py:191-238 | block scans that did not set `updated` leave `Y` and `X` as they were |
| ExchangeLemmas.SweepUnchanged | src/optimal_splitk/doe.py:177-238 | a sweep that did not set `updated` leaves `Y` and `X` as they were |
| ExchangeLemmas.BlocksWithoutAcceptance | src/optimal_splitk/doe.py:229-235 | when the criterion never accepts, block scans do not set `updated` |
| ExchangeLemmas.SweepWithoutAcceptance | src/optimal_splitk/doe.py:229-235 | when the criterion never accepts, a sweep does not set `updated` |
| ExchangeLemmas.SweepsBounded | src/optimal_splitk/doe.py:175-242 | the loop runs at most `max_it` sweeps; a converged loop stopped after a sweep, and an unconverged one ran all `max_it`; the first sweep ends the loop, converged, exactly when it accepted nothing |
| ExchangeLemmas.IterateStep | src/optimal_splitk/doe.py:241-244 | a sweep that updated, followed by a successful resynchronisation, leaves the rest of the loop keeping the design valid and `X` its model matrix |
| ExchangeLemmas.IterateLast | src/optimal_splitk/doe.py:241-242 | the sweep that ends the loop, or an exhausted `max_it`, leaves a valid design with `X` its model matrix |
| ExchangeLemmas.IteratePreserves | src/optimal_splitk/doe.py:175-244 | the sweep loop keeps the design valid and `X` its model matrix |
| ExchangeLemmas.CellsInCoordinateSets | src/optimal_splitk/doe.py:197-198 | every run of a valid design holds, in each factor's columns, one of that factor's candidates |
| ExchangeLemmas.ExchangeClosed | src/optimal_splitk/doe.py:152-249 | starting from a valid design, `optimize` returns a valid design: every block uniform, every value a candidate |
| ExchangeLemmas.IterateWithoutAcceptance | src/optimal_splitk/doe.py:175-242 | when the criterion never accepts, the loop stops after exactly one sweep with `Y` and `X` unchanged |
| ExchangeLemmas.ExchangeWithoutAcceptance | src/optimal_splitk/doe.py:152-249 | when the criterion never accepts, `optimize` returns its starting design |
| Exchange.TryCandidate | src/optimal_splitk/doe.py:206-235 | writing one candidate and consulting the criterion leaves `Y`, `X`, the state and `best_coord` exactly as one scan step of the specification says |
| Exchange.ScanBlock | src/optimal_splitk/doe.py:197-238 | the in-place scan of one block yields the specification's state, `X` and acceptance, with `Y` holding the best coordinate in the block |
| Exchange.ScanFactor | src/optimal_splitk/doe.py:186-238 | the loop over a factor's blocks yields the specification's state, `Y`, `X` and `updated` |
| Exchange.SweepDesign | src/optimal_splitk/doe.py:177-238 | one in-place sweep yields the specification's sweep |
| Exchange.SweepLoop | src/optimal_splitk/doe.py:175-244 | the in-place loop raises exactly when the specification's loop does, and otherwise ends with its state, `Y` and `X` |
| Exchange.Optimize | src/optimal_splitk/doe.py:152-249 | `optimize` raises exactly when the specified exchange does; otherwise `Y` ends as its design and the metric is its metric |
| Driver.NormalizeRatios | src/optimal_splitk/doe.py:320-326 | no ratios give all ones; one ratio fewer than levels gets 1 prepended; otherwise the ratios pass unchanged exactly when they number as many as the levels and start with 1 |
| Driver.NormalizeRatiosAsWritten | src/optimal_splitk/doe.py:320-326 | the prepend branch as written always raises; every other case agrees with the intended normalisation |
| Driver.PrependedRatioRaises | src/optimal_splitk/doe.py:323 | plot sizes [2, 3] with ratios [0.5] raise as written, where [1, 0.5] was intended |
| Driver.BestIndex | src/optimal_splitk/doe.py:351-353 | the index the strict `>` update keeps holds the greatest metric and is the earliest with it |
| Driver.Attempts | src/optimal_splitk/doe.py:339-347 | there is one run per start tried |
| Driver.AttemptsAt | src/optimal_splitk/doe.py:339-347 | the k-th run is the exchange from the k-th start |
| Driver.Finished | src/optimal_splitk/doe.py:345-360 | no more runs finish than were attempted |
| Driver.FinishedStep | src/optimal_splitk/doe.py:345-360 | a run that finished is appended to the finished runs; a run that raised `LinAlgError` leaves them unchanged |
| Driver.FinishedCounts | src/optimal_splitk/doe.py:345-360 | the finished runs are as many as the attempts that did not raise |
| Driver.FinishedPrefix | src/optimal_splitk/doe.py:333-360 | the runs finished after fewer attempts are a prefix of those finished after more |
| Driver.Metrics | src/optimal_splitk/doe.py:350 | the metrics list holds each finished run's metric, in order |
| Driver.SuccessesValid | src/optimal_splitk/doe.py:333-360 | from valid starting designs, every finished run returns a valid design |
| Driver.ZeroDesign | src/optimal_splitk/doe.py:308 | the empty design has one row per run and one column per factor |
| Driver.Attempt | src/optimal_splitk/doe.py:345-347 | one attempt returns exactly the exchange from its start, or `Singular` when it raises |
| Driver.NextAttempt | src/optimal_splitk/doe.py:345-360 | the attempt on start d is the next run, and it joins the finished runs exactly when it did not raise |
| Driver.Tracked | src/optimal_splitk/doe.py:350-353 | the loop state after the finished runs: `metrics` holds their metrics, and `best_Y`/`best_metric` come from the earliest run with the greatest metric, or are the zero design and no metric before any run finished |
| Driver.TrackStep | src/optimal_splitk/doe.py:350-353 | storing one more finished run keeps `best_Y` and `best_metric` at the earliest greatest metric |
| Driver.Record | src/optimal_splitk/doe.py:350-353 | `metrics[i]` takes the new metric and every other slot keeps its value; `best_Y` is replaced exactly when the metric is strictly greater (or nothing was kept yet) |
| Driver.Select | src/optimal_splitk/doe.py:314-365 | an outcome exists exactly when `n_tries` runs finished; it holds their metrics in order and the design of the earliest run with the greatest metric (the zero design when `n_tries` is 0) |
| Driver.SelectTracked | src/optimal_splitk/doe.py:333-360 | the tracked loop state after `n_tries` finished runs is the selected outcome |
| Driver.RetryStep | src/optimal_splitk/doe.py:339-360 | one pass advances the count of finished runs by at most one and keeps the metrics and the best design tracked; slots past `i` are untouched, and a run that raised `LinAlgError` leaves the whole `metrics` array unchanged |
| Driver.Retry | src/optimal_splitk/doe.py:333-360 | the retry loop returns the selection over the runs that finished |
| Driver.Doe | src/optimal_splitk/doe.py:305-365 | refused ratios are reported; otherwise the result is the selection over the finished exchange runs under the criterion's pre-state |

## Left out

- The criterion's numerics (`Doptim`, the internals of `optim.init`, `optim.update` and `optim.metric`) are floating-point linear algebra. They are abstract function values in `Criterion.Criterion`.
- The recomputation of `state.Minv` after a sweep that changed the design (line 244) is the abstract `resync` call. It may raise, like the original.
- `encode_model`, `encode_design`, `decode_design` and `initialize_single` are not part of this model. The random, already encoded starting designs are the `starts` parameter of `Driver.Doe`. The returned best design is the encoded one; decoding it is not modelled.
- Driver.Doe: the criterion's `preinit` receives the encoded model only, not the pair of raw and encoded model.
- Driver.Retry: the source's retry loop never ends when every attempt raises. The model takes a finite sequence of starts and returns `OutOfStarts` when it runs out.
- Exceptions other than `LinAlgError` are not modelled. An exception in `update` is the `Failed` verdict, whatever its kind.
- `numba.njit`, `CACHE`, `tqdm`, the progress bar and `it_callback` are compilation hints and progress reporting. They do not affect the result.
- Exchange.Optimize: the explicit `col_start` argument is not modelled; `col_start` is always the one computed from the factors, as it is in every call from `doe`.
- Exchange.SweepLoop and Exchange.Optimize: when the result is `Singular`, the contract says nothing about `y`. In the source a raise at line 244 leaves `Y` as the last sweep wrote it. `doe` discards that attempt, so nothing observes the difference.
- Exchange.Optimize: the layout must be well formed, and the source checks none of its four conditions. The same requirement holds for Driver.Attempt and Driver.Doe.
  - Every plot size must be at least 1. A zero plot size gives a design with no rows, and the source then behaves in one of two ways. When `max_it >= 1` and some factor's level has a zero plot size below it but none at or above it (plot sizes [0, 2] with a level-1 factor), that factor has a block, and `Y[runs.start, cols]` at src/optimal_splitk/doe.py:202 raises `IndexError`. When no factor's level has a block (plot sizes [2, 0], where `alphas` is [0, 0]), every scan is empty, the loop stops after one sweep with nothing updated, and `optimize` returns the empty design unchanged. The model excludes every zero plot size.
  - Every factor level must be below the number of plot sizes. When `max_it >= 1`, a level equal to it gets past `betas[level]` at line 187 and raises `IndexError` at `alphas[level]` at line 191; a larger level raises at line 187. With `max_it = 0` the loop at line 175 never runs and nothing raises. `doe` catches only `LinAlgError` (line 359), so these errors escape. The model excludes these error paths.
  - Candidate coordinates supplied as overrides must have the factor's encoded width.
  - No model term may be wider than the design.
- Coordinates.CoordinateSets: there must be at least as many overrides as factors. With fewer, `zip` at src/optimal_splitk/doe.py:170 drops the factors past the last override, and when `max_it >= 1` the source raises `IndexError` at line 197 on the first of those factors that has a block to scan. The model excludes that error path.
- ModelMatrix.Pow: exponents are natural numbers. Negative exponents are not modelled.
- Design values and metrics are exact reals, so rounding is not modelled. NaN and infinite metrics are not modelled either. "No best metric yet" (`-inf` in the source) is `None`, so the first finished run always becomes the best.
- The exchange is not proved to improve the metric. That depends on the criterion, which is abstract.

## Findings

| source | as written | input that shows it | evidently intended | confidence | as-written member | corrected member |
|---|---|---|---|---|---|---|
| src/optimal_splitk/doe.py:323 | `np.concatenate(np.array([1]), ratios)` passes `ratios` as the axis argument, so the call raises | `plot_sizes` [2, 3], `ratios` [0.5] | prepend 1 to the ratios, giving [1, 0.5] | not executed | Driver.PrependedRatioRaises | Driver.NormalizeRatios |
