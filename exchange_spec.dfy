/** What `optimize` (src/optimal_splitk/doe.py) computes, as functions over
    design values: the candidate scan of one block, one sweep over every factor
    and block, the sweep loop, and the whole exchange with its final metric. The
    methods of module `Exchange` are proved to compute exactly these; the lemmas
    here state what the source promises about them. */
module ExchangeSpec {
  import opened Matrices
  import opened Geometry
  import opened ModelMatrix
  import opened Criterion
  import opened Coordinates
  import opened Wrappers

  /** The fixed structure of one optimisation: plot sizes (level 0 first), the
      factors, each factor's candidate coordinates, and the encoded model. */
  datatype Layout = Layout(plotSizes: seq<nat>, factors: seq<Factor>, coords: seq<Matrix>, model: Model)

  /** The layout `optimize` works with: the candidate coordinates are those of
      `generate_coordinates`, from the per-factor overrides when given. */
  function LayoutOf(plotSizes: seq<nat>, factors: seq<Factor>, model: Model, overrides: Option<seq<Matrix>>): Layout
    requires overrides.Some? ==> |overrides.value| >= |factors|
  {
    Layout(plotSizes, factors, CoordinateSets(factors, overrides), model)
  }

  /** Total number of encoded design columns. */
  function Cols(lay: Layout): nat {
    ColStart(lay.factors)[|lay.factors|]
  }

  /** A layout the exchange can run on: every plot size at least 1, every factor
      level an existing level, one candidate set per factor whose coordinates
      have the factor's encoded width, and no model term wider than the design. */
  ghost predicate WellFormed(lay: Layout) {
    && (forall k :: 0 <= k < |lay.plotSizes| ==> lay.plotSizes[k] >= 1)
    && (forall i :: 0 <= i < |lay.factors| ==> lay.factors[i].level < |lay.plotSizes|)
    && |lay.coords| == |lay.factors|
    && (forall i, k :: 0 <= i < |lay.coords| && 0 <= k < |lay.coords[i]| ==>
          |lay.coords[i][k]| == Width(lay.factors[i]))
    && (forall t :: 0 <= t < |lay.model| ==> |lay.model[t]| <= Cols(lay))
  }

  /** A design of the layout's shape: one row per run, one column per encoded column. */
  ghost predicate Shaped(lay: Layout, ys: Matrix) {
    |ys| == Runs(lay.plotSizes) && IsRect(ys, Cols(lay))
  }

  /** `jmp`: the number of consecutive runs one block of factor `i` spans. */
  function Jump(lay: Layout, i: nat): nat
    requires i < |lay.factors| && lay.factors[i].level < |lay.plotSizes|
  {
    Betas(lay.plotSizes)[lay.factors[i].level]
  }

  /** The first run of block `g` of factor `i`. */
  function BlockLo(lay: Layout, i: nat, g: nat): nat
    requires i < |lay.factors| && lay.factors[i].level < |lay.plotSizes|
  {
    g * Jump(lay, i)
  }

  /** One past the last run of block `g` of factor `i`. */
  function BlockHi(lay: Layout, i: nat, g: nat): nat
    requires i < |lay.factors| && lay.factors[i].level < |lay.plotSizes|
  {
    (g + 1) * Jump(lay, i)
  }

  /** `alphas[level]`: the number of blocks of factor `i`. */
  function Groups(lay: Layout, i: nat): nat
    requires i < |lay.factors| && lay.factors[i].level < |lay.plotSizes|
  {
    Alphas(lay.plotSizes)[lay.factors[i].level]
  }

  /** `col_start[i]`: the first column of factor `i`. */
  function Col(lay: Layout, i: nat): nat
    requires i < |lay.factors|
  {
    ColStart(lay.factors)[i]
  }

  /** Block `g` of factor `i` (rows `g*jmp .. (g+1)*jmp`, columns
      `col .. col+width`) lies inside the design. */
  lemma BlockFits(lay: Layout, i: nat, g: nat)
    requires WellFormed(lay) && i < |lay.factors| && g < Groups(lay, i)
    ensures Jump(lay, i) >= 1
    ensures BlockLo(lay, i, g) < BlockHi(lay, i, g) <= Runs(lay.plotSizes)
    ensures Col(lay, i) + Width(lay.factors[i]) <= Cols(lay)
  {
    var level := lay.factors[i].level;
    ProdPositive(lay.plotSizes[..level]);
    BlockInBounds(lay.plotSizes, level, g);
    ColumnRangesDisjoint(lay.factors, i, |lay.factors|);
  }

  lemma ShapedCovers(lay: Layout, ys: Matrix)
    requires WellFormed(lay) && IsRect(ys, Cols(lay))
    ensures Covers(ys, lay.model)
  {}

  // ---------------------------------------------------------------------------
  // The candidate scan of one block

  /** The bookkeeping of one block scan: the criterion state, the running model
      matrix, the best coordinate so far and whether any candidate was accepted. */
  datatype ScanState<S> = ScanState(state: S, xs: Matrix, best: seq<real>, accepted: bool)

  /** Candidate `k` of the scan of block `g` of factor `i`, for the design `ys`
      as it was before the block was touched and its initial coordinate `init`.
      A candidate equal to `init` is skipped; any other is written into the
      block, the block's model-matrix rows are recomputed and the criterion is
      asked. An accepted candidate becomes the best one and its rows are spliced
      into the model matrix at once, so later candidates are judged against it;
      a rejection keeps the returned state; a failure keeps the old state. */
  ghost function ScanStep<P, S>(lay: Layout, crit: Criterion<P, S>, ys: Matrix, i: nat, g: nat,
                                init: seq<real>, k: nat, acc: ScanState<S>): (res: ScanState<S>)
    requires WellFormed(lay) && Shaped(lay, ys) && i < |lay.factors| && g < Groups(lay, i)
    requires k < |lay.coords[i]| && |acc.xs| == |ys| && |acc.best| == Width(lay.factors[i])
    ensures |res.xs| == |ys| && |res.best| == Width(lay.factors[i])
  {
    var cand := lay.coords[i][k];
    if cand == init then acc
    else
      BlockFits(lay, i, g);
      var lo, hi := BlockLo(lay, i, g), BlockHi(lay, i, g);
      var trial := WithBlock(ys, lo, hi, Col(lay, i), cand);
      ShapedCovers(lay, trial[lo..hi]);
      var xi := Expand(trial[lo..hi], lay.model);
      match crit.update(acc.state, acc.xs, xi, lay.factors[i].level, g)
      case Accept(s) => ScanState(s, Splice(acc.xs, lo, xi), cand, true)
      case Reject(s) => acc.(state := s)
      case Failed => acc
  }

  /** The scan of block `g` of factor `i` from candidate `k` on: every remaining
      candidate in order (the loop over `possible_coords`). */
  ghost function ScanFrom<P, S>(lay: Layout, crit: Criterion<P, S>, ys: Matrix, i: nat, g: nat,
                                init: seq<real>, k: nat, acc: ScanState<S>): (res: ScanState<S>)
    requires WellFormed(lay) && Shaped(lay, ys) && i < |lay.factors| && g < Groups(lay, i)
    requires k <= |lay.coords[i]| && |acc.xs| == |ys| && |acc.best| == Width(lay.factors[i])
    ensures |res.xs| == |ys| && |res.best| == Width(lay.factors[i])
    decreases |lay.coords[i]| - k
  {
    if k == |lay.coords[i]| then acc
    else ScanFrom(lay, crit, ys, i, g, init, k + 1, ScanStep(lay, crit, ys, i, g, init, k, acc))
  }

  /** The initial coordinate of block `g` of factor `i`: its first row's cell. */
  ghost function InitCoord(lay: Layout, ys: Matrix, i: nat, g: nat): (c: seq<real>)
    requires WellFormed(lay) && Shaped(lay, ys) && i < |lay.factors| && g < Groups(lay, i)
    ensures |c| == Width(lay.factors[i])
  {
    BlockFits(lay, i, g);
    Cell(ys, BlockLo(lay, i, g), Col(lay, i), Width(lay.factors[i]))
  }

  /** The whole scan of block `g` of factor `i`. */
  ghost function BlockScan<P, S>(lay: Layout, crit: Criterion<P, S>, st: S, ys: Matrix, xs: Matrix,
                                 i: nat, g: nat): (res: ScanState<S>)
    requires WellFormed(lay) && Shaped(lay, ys) && |xs| == |ys| && i < |lay.factors| && g < Groups(lay, i)
    ensures |res.xs| == |ys| && |res.best| == Width(lay.factors[i])
  {
    var init := InitCoord(lay, ys, i, g);
    ScanFrom(lay, crit, ys, i, g, init, 0, ScanState(st, xs, init, false))
  }

  /** The design after the block scan: the block holds the best coordinate. */
  ghost function AfterBlock(lay: Layout, ys: Matrix, i: nat, g: nat, best: seq<real>): (ys': Matrix)
    requires WellFormed(lay) && Shaped(lay, ys) && i < |lay.factors| && g < Groups(lay, i)
    requires |best| == Width(lay.factors[i])
    ensures Shaped(lay, ys')
  {
    BlockFits(lay, i, g);
    WithBlock(ys, BlockLo(lay, i, g), BlockHi(lay, i, g), Col(lay, i), best)
  }

  // ---------------------------------------------------------------------------
  // Sweeps

  /** The state one sweep threads through its blocks. */
  datatype Pass<S> = Pass(state: S, ys: Matrix, xs: Matrix, updated: bool)

  /** A design of the layout's shape with a model matrix of as many rows. */
  ghost predicate Fits(lay: Layout, ys: Matrix, xs: Matrix) {
    WellFormed(lay) && Shaped(lay, ys) && |xs| == |ys|
  }

  /** The pass after scanning block `g` of factor `i`: the block holds the best
      coordinate, the model matrix and state are the scan's, and `updated` is
      set once the scan accepted. */
  ghost function Next<P, S>(lay: Layout, crit: Criterion<P, S>, i: nat, g: nat, p: Pass<S>): (q: Pass<S>)
    requires Fits(lay, p.ys, p.xs) && i < |lay.factors| && g < Groups(lay, i)
    ensures Fits(lay, q.ys, q.xs)
  {
    var b := BlockScan(lay, crit, p.state, p.ys, p.xs, i, g);
    Pass(b.state, AfterBlock(lay, p.ys, i, g, b.best), b.xs, p.updated || b.accepted)
  }

  /** The scans of the blocks of factor `i` from block `g` on, in increasing
      order (the inner loop over `range(alphas[level])`). */
  ghost function BlocksFrom<P, S>(lay: Layout, crit: Criterion<P, S>, i: nat, g: nat, p: Pass<S>): (res: Pass<S>)
    requires Fits(lay, p.ys, p.xs) && i < |lay.factors| && g <= Groups(lay, i)
    ensures Fits(lay, res.ys, res.xs)
    decreases Groups(lay, i) - g
  {
    if g == Groups(lay, i) then p
    else BlocksFrom(lay, crit, i, g + 1, Next(lay, crit, i, g, p))
  }

  /** One sweep from factor `i` on: the factors in order, each with all its
      blocks; `updated` records whether any block scan accepted a candidate. */
  ghost function SweepFrom<P, S>(lay: Layout, crit: Criterion<P, S>, i: nat, p: Pass<S>): (res: Pass<S>)
    requires Fits(lay, p.ys, p.xs) && i <= |lay.factors|
    ensures Fits(lay, res.ys, res.xs)
    decreases |lay.factors| - i
  {
    if i == |lay.factors| then p
    else SweepFrom(lay, crit, i + 1, BlocksFrom(lay, crit, i, 0, p))
  }

  /** A whole sweep. */
  ghost function Sweep<P, S>(lay: Layout, crit: Criterion<P, S>, st: S, ys: Matrix, xs: Matrix): (res: Pass<S>)
    requires Fits(lay, ys, xs)
    ensures Fits(lay, res.ys, res.xs)
  {
    SweepFrom(lay, crit, 0, Pass(st, ys, xs, false))
  }

  /** The outcome of the sweep loop: final state, design and model matrix, how
      many sweeps ran, and whether the loop stopped on a sweep without change. */
  datatype Run<S> = Run(state: S, ys: Matrix, xs: Matrix, sweeps: nat, converged: bool)

  /** The sweep loop with `fuel` sweeps left after `done` sweeps: stop after a
      sweep that accepted nothing, otherwise resynchronise the criterion from the
      full model matrix (which may raise) and go on. */
  ghost function Iterate<P, S>(lay: Layout, crit: Criterion<P, S>, st: S, ys: Matrix, xs: Matrix,
                               fuel: nat, done: nat): (res: Fallible<Run<S>>)
    requires Fits(lay, ys, xs)
    ensures res.Done? ==> Fits(lay, res.value.ys, res.value.xs)
    decreases fuel
  {
    if fuel == 0 then Done(Run(st, ys, xs, done, false))
    else
      var p := Sweep(lay, crit, st, ys, xs);
      if !p.updated then Done(Run(p.state, p.ys, p.xs, done + 1, true))
      else
        match crit.resync(p.state, p.xs)
        case Singular => Singular
        case Done(s) => Iterate(lay, crit, s, p.ys, p.xs, fuel - 1, done + 1)
  }

  /** The whole exchange from the initial design `ys`: build the model matrix,
      initialise the criterion state, run at most `maxIt` sweeps and compute the
      metric; any `LinAlgError` on the way makes it `Singular`. */
  ghost function Exchange<P, S>(lay: Layout, crit: Criterion<P, S>, pre: P, ys: Matrix, maxIt: nat): (res: Fallible<(Matrix, real)>)
    requires WellFormed(lay) && Shaped(lay, ys)
    ensures res.Done? ==> Shaped(lay, res.value.0)
  {
    ShapedCovers(lay, ys);
    var xs := Expand(ys, lay.model);
    match crit.init(pre, ys, xs)
    case Singular => Singular
    case Done(st) =>
      match Iterate(lay, crit, st, ys, xs, maxIt, 0)
      case Singular => Singular
      case Done(run) =>
        match crit.metric(run.state, run.ys, run.xs)
        case Singular => Singular
        case Done(m) => Done((run.ys, m))
  }

  // ---------------------------------------------------------------------------
  // Valid designs

  /** Block `g` of factor `i` holds one coordinate in every row, and that
      coordinate is one of the factor's candidates. */
  ghost predicate BlockHolds(lay: Layout, ys: Matrix, i: nat, g: nat)
    requires WellFormed(lay) && Shaped(lay, ys) && i < |lay.factors| && g < Groups(lay, i)
  {
    BlockFits(lay, i, g);
    var lo, hi, col, w := BlockLo(lay, i, g), BlockHi(lay, i, g), Col(lay, i), Width(lay.factors[i]);
    && Cell(ys, lo, col, w) in lay.coords[i]
    && forall r :: lo <= r < hi ==> Cell(ys, r, col, w) == Cell(ys, lo, col, w)
  }

  /** A design the exchange may start from and keeps: every block of every factor
      is uniform and holds a candidate coordinate. */
  ghost predicate ValidDesign(lay: Layout, ys: Matrix) {
    WellFormed(lay) && Shaped(lay, ys) && AllBlocksHold(lay, ys)
  }

  /** Every block of every factor holds one of the factor's candidates. */
  ghost predicate AllBlocksHold(lay: Layout, ys: Matrix)
    requires WellFormed(lay) && Shaped(lay, ys)
  {
    forall i, g :: 0 <= i < |lay.factors| && 0 <= g < Groups(lay, i) ==> BlockHolds(lay, ys, i, g)
  }

  /** The model matrix is that of the design. */
  ghost predicate Consistent(lay: Layout, ys: Matrix, xs: Matrix)
    requires WellFormed(lay) && Shaped(lay, ys)
  {
    ShapedCovers(lay, ys);
    xs == Expand(ys, lay.model)
  }

  /** A valid design together with its model matrix: the state the exchange
      starts from and keeps between block scans. */
  ghost predicate Coherent(lay: Layout, ys: Matrix, xs: Matrix) {
    ValidDesign(lay, ys) && Consistent(lay, ys, xs)
  }
}
