/** `optimize` (src/optimal_splitk/doe.py) as the in-place algorithm it is: the
    design `Y` and the model matrix `X` are two-dimensional arrays that the
    candidate scan overwrites block by block and row range by row range. Every
    method is proved to compute exactly the corresponding function of
    `ExchangeSpec`, whose properties `ExchangeLemmas` proves. */
module Exchange {
  import opened Matrices
  import opened Geometry
  import opened ModelMatrix
  import opened Criterion
  import opened ExchangeSpec
  import opened Wrappers

  /** The two buffers of one optimisation: the design `y`, one row per run and
      one column per encoded column, and a separate model matrix `x` with one
      row per run and one column per model term. */
  ghost predicate Buffers(lay: Layout, y: array2<real>, x: array2<real>) {
    && WellFormed(lay)
    && y != x
    && y.Length0 == Runs(lay.plotSizes) && y.Length1 == Cols(lay)
    && x.Length0 == y.Length0 && x.Length1 == |lay.model|
  }

  /** One candidate `k` of the scan of block `g` of factor `i`: write it into
      the block, and unless it is the initial coordinate, compute the block's
      model-matrix rows and ask the criterion; on acceptance splice the rows into
      `x`. `ys` is the design as it was before the block was touched; `y` holds
      it, or it with the previous candidate written into the block. */
  method TryCandidate<P, S>(lay: Layout, crit: Criterion<P, S>, y: array2<real>, x: array2<real>, i: nat, g: nat,
                            ghost ys: Matrix, init: seq<real>, k: nat, st: S, best: seq<real>, accepted: bool)
    returns (st': S, best': seq<real>, accepted': bool)
    requires Buffers(lay, y, x) && i < |lay.factors| && g < Groups(lay, i) && k < |lay.coords[i]|
    requires Shaped(lay, ys) && |best| == Width(lay.factors[i])
    requires Rows(y) == ys || (k > 0 && Rows(y) == AfterBlock(lay, ys, i, g, lay.coords[i][k - 1]))
    modifies y, x
    ensures Rows(y) == AfterBlock(lay, ys, i, g, lay.coords[i][k])
    ensures ScanState(st', Rows(x), best', accepted')
         == ScanStep(lay, crit, ys, i, g, init, k, ScanState(st, old(Rows(x)), best, accepted))
  {
    BlockFits(lay, i, g);
    var lo, hi, col := BlockLo(lay, i, g), BlockHi(lay, i, g), Col(lay, i);
    var cand := lay.coords[i][k];
    ghost var y0 := Rows(y);
    WriteBlock(y, lo, hi, col, cand);
    if y0 != ys {
      WithBlockTwice(ys, lo, hi, col, lay.coords[i][k - 1], cand);
    }
    st', best', accepted' := st, best, accepted;
    if cand != init {
      var xi := X2fx(y, lo, hi, lay.model);
      match crit.update(st, Rows(x), Rows(xi), lay.factors[i].level, g)
      case Accept(s) =>
        SpliceRows(x, lo, xi);
        st', best', accepted' := s, cand, true;
      case Reject(s) =>
        st' := s;
      case Failed =>
    }
  }

  /** The scan of block `g` of factor `i`: remember the block's initial
      coordinate, try every candidate in order, then write the best one back. */
  method ScanBlock<P, S>(lay: Layout, crit: Criterion<P, S>, y: array2<real>, x: array2<real>, i: nat, g: nat, st: S)
    returns (st': S, accepted: bool)
    requires Buffers(lay, y, x) && i < |lay.factors| && g < Groups(lay, i)
    modifies y, x
    ensures Shaped(lay, old(Rows(y))) && |old(Rows(x))| == |old(Rows(y))|
    ensures var b := BlockScan(lay, crit, st, old(Rows(y)), old(Rows(x)), i, g);
      && st' == b.state && accepted == b.accepted && Rows(x) == b.xs
      && Rows(y) == AfterBlock(lay, old(Rows(y)), i, g, b.best)
  {
    ghost var ys, xs := Rows(y), Rows(x);
    BlockFits(lay, i, g);
    var lo, hi, col, w := BlockLo(lay, i, g), BlockHi(lay, i, g), Col(lay, i), Width(lay.factors[i]);
    var init := RowSlice(y, lo, col, w);
    var best := init;
    st', accepted := st, false;
    ghost var target := BlockScan(lay, crit, st, ys, xs, i, g);
    for k := 0 to |lay.coords[i]|
      invariant Rows(y) == ys || (k > 0 && Rows(y) == AfterBlock(lay, ys, i, g, lay.coords[i][k - 1]))
      invariant |best| == w && x.Length0 == |ys|
      invariant ScanFrom(lay, crit, ys, i, g, init, k, ScanState(st', Rows(x), best, accepted)) == target
    {
      ghost var acc := ScanState(st', Rows(x), best, accepted);
      st', best, accepted := TryCandidate(lay, crit, y, x, i, g, ys, init, k, st', best, accepted);
      assert ScanFrom(lay, crit, ys, i, g, init, k, acc)
          == ScanFrom(lay, crit, ys, i, g, init, k + 1, ScanStep(lay, crit, ys, i, g, init, k, acc));
    }
    ghost var y0 := Rows(y);
    WriteBlock(y, lo, hi, col, best);
    if y0 != ys {
      WithBlockTwice(ys, lo, hi, col, lay.coords[i][|lay.coords[i]| - 1], best);
    }
  }

  /** The inner loop over the blocks of factor `i` (`for grp in range(alphas[level])`). */
  method ScanFactor<P, S>(lay: Layout, crit: Criterion<P, S>, y: array2<real>, x: array2<real>, i: nat, st: S, updated: bool)
    returns (st': S, updated': bool)
    requires Buffers(lay, y, x) && i < |lay.factors|
    modifies y, x
    ensures Fits(lay, old(Rows(y)), old(Rows(x)))
    ensures var res := BlocksFrom(lay, crit, i, 0, Pass(st, old(Rows(y)), old(Rows(x)), updated));
      st' == res.state && Rows(y) == res.ys && Rows(x) == res.xs && updated' == res.updated
  {
    ghost var p0 := Pass(st, Rows(y), Rows(x), updated);
    st', updated' := st, updated;
    for g := 0 to Groups(lay, i)
      invariant Fits(lay, Rows(y), Rows(x))
      invariant BlocksFrom(lay, crit, i, g, Pass(st', Rows(y), Rows(x), updated')) == BlocksFrom(lay, crit, i, 0, p0)
    {
      ghost var p := Pass(st', Rows(y), Rows(x), updated');
      var accepted;
      st', accepted := ScanBlock(lay, crit, y, x, i, g, st');
      updated' := updated' || accepted;
      assert Pass(st', Rows(y), Rows(x), updated') == Next(lay, crit, i, g, p);
      assert BlocksFrom(lay, crit, i, g, p) == BlocksFrom(lay, crit, i, g + 1, Next(lay, crit, i, g, p));
    }
  }

  /** One sweep: the loop over all factors, each with all its blocks; `updated`
      tells whether any candidate was accepted. */
  method SweepDesign<P, S>(lay: Layout, crit: Criterion<P, S>, y: array2<real>, x: array2<real>, st: S)
    returns (st': S, updated: bool)
    requires Buffers(lay, y, x)
    modifies y, x
    ensures Fits(lay, old(Rows(y)), old(Rows(x)))
    ensures var res := Sweep(lay, crit, st, old(Rows(y)), old(Rows(x)));
      st' == res.state && Rows(y) == res.ys && Rows(x) == res.xs && updated == res.updated
  {
    ghost var target := Sweep(lay, crit, st, Rows(y), Rows(x));
    st', updated := st, false;
    for i := 0 to |lay.factors|
      invariant Fits(lay, Rows(y), Rows(x))
      invariant SweepFrom(lay, crit, i, Pass(st', Rows(y), Rows(x), updated)) == target
    {
      ghost var p := Pass(st', Rows(y), Rows(x), updated);
      st', updated := ScanFactor(lay, crit, y, x, i, st', updated);
      assert SweepFrom(lay, crit, i, p) == SweepFrom(lay, crit, i + 1, BlocksFrom(lay, crit, i, 0, p));
    }
  }

  /** The sweep loop (`for it in range(max_it)`): sweep; stop after a sweep
      without acceptance, otherwise recompute the criterion state from the full
      model matrix, which may raise. Returns the final state. */
  method SweepLoop<P, S>(lay: Layout, crit: Criterion<P, S>, y: array2<real>, x: array2<real>, st: S, maxIt: nat)
    returns (r: Fallible<S>)
    requires Buffers(lay, y, x)
    modifies y, x
    ensures Fits(lay, old(Rows(y)), old(Rows(x)))
    ensures var e := Iterate(lay, crit, st, old(Rows(y)), old(Rows(x)), maxIt, 0);
      && (r.Singular? <==> e.Singular?)
      && (r.Done? ==> r.value == e.value.state && Rows(y) == e.value.ys && Rows(x) == e.value.xs)
  {
    ghost var outcome := Iterate(lay, crit, st, Rows(y), Rows(x), maxIt, 0);
    var cur := st;
    for it := 0 to maxIt
      invariant Fits(lay, Rows(y), Rows(x))
      invariant Iterate(lay, crit, cur, Rows(y), Rows(x), maxIt - it, it) == outcome
    {
      ghost var ys, xs, before := Rows(y), Rows(x), cur;
      var updated;
      cur, updated := SweepDesign(lay, crit, y, x, cur);
      if !updated {
        assert outcome == Done(Run(cur, Rows(y), Rows(x), it + 1, true));
        return Done(cur);
      }
      var synced := crit.resync(cur, Rows(x));
      if synced.Singular? {
        assert outcome == Singular;
        return Singular;
      }
      cur := synced.value;
      assert Iterate(lay, crit, before, ys, xs, maxIt - it, it) == Iterate(lay, crit, cur, Rows(y), Rows(x), maxIt - it - 1, it + 1);
    }
    assert outcome == Done(Run(cur, Rows(y), Rows(x), maxIt, false));
    return Done(cur);
  }

  /** `optimize(Y, model, plot_sizes, factors, optim, prestate, max_it,
      default_coords=overrides)`: build the model matrix, initialise the
      criterion, run the sweep loop and compute the metric. `y` ends as the
      optimised design; a `LinAlgError` anywhere is `Singular`. */
  method Optimize<P, S>(y: array2<real>, model: Model, plotSizes: seq<nat>, factors: seq<Factor>,
                        crit: Criterion<P, S>, pre: P, maxIt: nat, overrides: Option<seq<Matrix>>)
    returns (metric: Fallible<real>)
    requires overrides.Some? ==> |overrides.value| >= |factors|
    requires WellFormed(LayoutOf(plotSizes, factors, model, overrides))
    requires y.Length0 == Runs(plotSizes) && y.Length1 == Cols(LayoutOf(plotSizes, factors, model, overrides))
    modifies y
    ensures var e := Exchange(LayoutOf(plotSizes, factors, model, overrides), crit, pre, old(Rows(y)), maxIt);
      && (metric.Singular? <==> e.Singular?)
      && (metric.Done? ==> Rows(y) == e.value.0 && metric.value == e.value.1)
  {
    var lay := LayoutOf(plotSizes, factors, model, overrides);
    assert Rows(y)[0..y.Length0] == Rows(y);
    var x := X2fx(y, 0, y.Length0, model);
    var start := crit.init(pre, Rows(y), Rows(x));
    if start.Singular? {
      return Singular;
    }
    var last := SweepLoop(lay, crit, y, x, start.value, maxIt);
    if last.Singular? {
      return Singular;
    }
    metric := crit.metric(last.value, Rows(y), Rows(x));
  }
}
