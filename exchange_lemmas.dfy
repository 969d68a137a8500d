/** What the exchange of src/optimal_splitk/doe.py guarantees, proved about the
    functions of `ExchangeSpec`: the search space is closed, the model matrix
    stays that of the design, a scan without acceptance changes nothing, and the
    sweep loop is bounded. */
module ExchangeLemmas {
  import opened Matrices
  import opened Geometry
  import opened ModelMatrix
  import opened Criterion
  import opened ExchangeSpec

  // ---------------------------------------------------------------------------
  // One block scan

  /** The scan ends with `best` equal to the block's initial coordinate exactly
      when no candidate was accepted, and otherwise with one of the factor's
      candidates; without an acceptance the model matrix is untouched. */
  lemma {:induction false} ScanChoosesCandidate<P, S>(lay: Layout, crit: Criterion<P, S>, ys: Matrix, i: nat, g: nat,
                                                       init: seq<real>, k: nat, acc: ScanState<S>)
    requires WellFormed(lay) && Shaped(lay, ys) && i < |lay.factors| && g < Groups(lay, i)
    requires k <= |lay.coords[i]| && |acc.xs| == |ys| && |acc.best| == Width(lay.factors[i])
    requires acc.accepted <==> acc.best != init
    requires acc.best == init || acc.best in lay.coords[i]
    ensures var res := ScanFrom(lay, crit, ys, i, g, init, k, acc);
      && (res.accepted <==> res.best != init)
      && (res.best == init || res.best in lay.coords[i])
      && (acc.accepted ==> res.accepted)
      && (!res.accepted ==> res.xs == acc.xs)
    decreases |lay.coords[i]| - k
  {
    if k < |lay.coords[i]| {
      var cand := lay.coords[i][k];
      if cand == init {
        ScanChoosesCandidate(lay, crit, ys, i, g, init, k + 1, acc);
      } else {
        BlockFits(lay, i, g);
        var lo, hi := BlockLo(lay, i, g), BlockHi(lay, i, g);
        var trial := WithBlock(ys, lo, hi, Col(lay, i), cand);
        ShapedCovers(lay, trial[lo..hi]);
        var xi := Expand(trial[lo..hi], lay.model);
        match crit.update(acc.state, acc.xs, xi, lay.factors[i].level, g)
        case Accept(s) =>
          ScanChoosesCandidate(lay, crit, ys, i, g, init, k + 1, ScanState(s, Splice(acc.xs, lo, xi), cand, true));
        case Reject(s) =>
          ScanChoosesCandidate(lay, crit, ys, i, g, init, k + 1, acc.(state := s));
        case Failed =>
          ScanChoosesCandidate(lay, crit, ys, i, g, init, k + 1, acc);
      }
    }
  }

  /** Splicing the recomputed rows of a block into a model matrix that matched the
      block's previous coordinate gives the model matrix of the new coordinate. */
  lemma SpliceBlockRows(ys: Matrix, model: Model, n: nat, lo: nat, hi: nat, col: nat, a: seq<real>, b: seq<real>)
    requires IsRect(ys, n) && (forall t :: 0 <= t < |model| ==> |model[t]| <= n)
    requires lo <= hi <= |ys| && |a| == |b| && col + |a| <= n
    ensures Covers(WithBlock(ys, lo, hi, col, a), model) && Covers(WithBlock(ys, lo, hi, col, b), model)
    ensures Covers(WithBlock(ys, lo, hi, col, b)[lo..hi], model)
    ensures Splice(Expand(WithBlock(ys, lo, hi, col, a), model), lo, Expand(WithBlock(ys, lo, hi, col, b)[lo..hi], model))
         == Expand(WithBlock(ys, lo, hi, col, b), model)
  {
    var ya, yb := WithBlock(ys, lo, hi, col, a), WithBlock(ys, lo, hi, col, b);
    ExpandSlice(yb, model, lo, hi);
    var lhs := Splice(Expand(ya, model), lo, Expand(yb[lo..hi], model));
    var rhs := Expand(yb, model);
    forall r | 0 <= r < |ys| ensures lhs[r] == rhs[r] {
      if !(lo <= r < hi) {
        assert ya[r] == ys[r] == yb[r];
      }
    }
  }

  /** The model matrix stays that of the design with the block holding the best
      coordinate so far: rows are replaced only by those of an accepted candidate. */
  lemma {:induction false} ScanKeepsModelMatrix<P, S>(lay: Layout, crit: Criterion<P, S>, ys: Matrix, i: nat, g: nat,
                                                       init: seq<real>, k: nat, acc: ScanState<S>)
    requires WellFormed(lay) && Shaped(lay, ys) && i < |lay.factors| && g < Groups(lay, i)
    requires k <= |lay.coords[i]| && |acc.xs| == |ys| && |acc.best| == Width(lay.factors[i])
    requires Consistent(lay, AfterBlock(lay, ys, i, g, acc.best), acc.xs)
    ensures var res := ScanFrom(lay, crit, ys, i, g, init, k, acc);
      Consistent(lay, AfterBlock(lay, ys, i, g, res.best), res.xs)
    decreases |lay.coords[i]| - k
  {
    if k < |lay.coords[i]| {
      var cand := lay.coords[i][k];
      if cand == init {
        ScanKeepsModelMatrix(lay, crit, ys, i, g, init, k + 1, acc);
      } else {
        BlockFits(lay, i, g);
        var lo, hi := BlockLo(lay, i, g), BlockHi(lay, i, g);
        var trial := WithBlock(ys, lo, hi, Col(lay, i), cand);
        ShapedCovers(lay, trial[lo..hi]);
        var xi := Expand(trial[lo..hi], lay.model);
        match crit.update(acc.state, acc.xs, xi, lay.factors[i].level, g)
        case Accept(s) =>
          SpliceBlockRows(ys, lay.model, Cols(lay), lo, hi, Col(lay, i), acc.best, cand);
          ScanKeepsModelMatrix(lay, crit, ys, i, g, init, k + 1, ScanState(s, Splice(acc.xs, lo, xi), cand, true));
        case Reject(s) =>
          ScanKeepsModelMatrix(lay, crit, ys, i, g, init, k + 1, acc.(state := s));
        case Failed =>
          ScanKeepsModelMatrix(lay, crit, ys, i, g, init, k + 1, acc);
      }
    }
  }

  /** A criterion whose update always fails (raises) leaves the scan's state,
      model matrix and best coordinate exactly as they were. */
  lemma {:induction false} ScanUnderFailingCriterion<P, S>(lay: Layout, crit: Criterion<P, S>, ys: Matrix, i: nat, g: nat,
                                                            init: seq<real>, k: nat, acc: ScanState<S>)
    requires WellFormed(lay) && Shaped(lay, ys) && i < |lay.factors| && g < Groups(lay, i)
    requires k <= |lay.coords[i]| && |acc.xs| == |ys| && |acc.best| == Width(lay.factors[i])
    requires forall s, a, b, l, h :: crit.update(s, a, b, l, h) == Failed
    ensures ScanFrom(lay, crit, ys, i, g, init, k, acc) == acc
    decreases |lay.coords[i]| - k
  {
    if k < |lay.coords[i]| {
      ScanUnderFailingCriterion(lay, crit, ys, i, g, init, k + 1, acc);
    }
  }

  /** A criterion that never accepts leaves a scan that had accepted nothing
      without acceptance. */
  lemma {:induction false} ScanWithoutAcceptance<P, S>(lay: Layout, crit: Criterion<P, S>, ys: Matrix, i: nat, g: nat,
                                                        init: seq<real>, k: nat, acc: ScanState<S>)
    requires WellFormed(lay) && Shaped(lay, ys) && i < |lay.factors| && g < Groups(lay, i)
    requires k <= |lay.coords[i]| && |acc.xs| == |ys| && |acc.best| == Width(lay.factors[i])
    requires forall s, a, b, l, h :: !crit.update(s, a, b, l, h).Accept?
    requires !acc.accepted
    ensures !ScanFrom(lay, crit, ys, i, g, init, k, acc).accepted
    decreases |lay.coords[i]| - k
  {
    if k < |lay.coords[i]| {
      var cand := lay.coords[i][k];
      if cand == init {
        ScanWithoutAcceptance(lay, crit, ys, i, g, init, k + 1, acc);
      } else {
        BlockFits(lay, i, g);
        var lo, hi := BlockLo(lay, i, g), BlockHi(lay, i, g);
        var trial := WithBlock(ys, lo, hi, Col(lay, i), cand);
        ShapedCovers(lay, trial[lo..hi]);
        var xi := Expand(trial[lo..hi], lay.model);
        match crit.update(acc.state, acc.xs, xi, lay.factors[i].level, g)
        case Accept(s) =>
          assert false;
        case Reject(s) =>
          ScanWithoutAcceptance(lay, crit, ys, i, g, init, k + 1, acc.(state := s));
        case Failed =>
          ScanWithoutAcceptance(lay, crit, ys, i, g, init, k + 1, acc);
      }
    }
  }

  // ---------------------------------------------------------------------------
  // Writing one block keeps the design valid

  /** After writing a candidate into block `g` of factor `i`, that block holds
      the candidate in every row. */
  lemma WrittenBlockHolds(lay: Layout, ys: Matrix, i: nat, g: nat, coord: seq<real>)
    requires WellFormed(lay) && Shaped(lay, ys) && i < |lay.factors| && g < Groups(lay, i)
    requires coord in lay.coords[i] && |coord| == Width(lay.factors[i])
    ensures BlockHolds(lay, AfterBlock(lay, ys, i, g, coord), i, g)
  {
    BlockFits(lay, i, g);
    var ys' := AfterBlock(lay, ys, i, g, coord);
    var lo, hi, col := BlockLo(lay, i, g), BlockHi(lay, i, g), Col(lay, i);
    forall r | lo <= r < hi ensures Cell(ys', r, col, |coord|) == coord {
      CellInside(ys, lo, hi, col, coord, r);
    }
  }

  /** Writing into block `g` of factor `i` leaves the cells of any other
      factor `i'` as they were: the two factors' columns are disjoint. */
  lemma OtherFactorUntouched(lay: Layout, ys: Matrix, i: nat, g: nat, coord: seq<real>, i': nat, r: nat)
    requires WellFormed(lay) && Shaped(lay, ys) && i < |lay.factors| && g < Groups(lay, i)
    requires |coord| == Width(lay.factors[i])
    requires i' < |lay.factors| && i' != i && r < |ys|
    ensures Col(lay, i') + Width(lay.factors[i']) <= Cols(lay)
    ensures Cell(AfterBlock(lay, ys, i, g, coord), r, Col(lay, i'), Width(lay.factors[i']))
         == Cell(ys, r, Col(lay, i'), Width(lay.factors[i']))
  {
    BlockFits(lay, i, g);
    ColumnRangesDisjoint(lay.factors, i', |lay.factors|);
    if i < i' { ColumnRangesDisjoint(lay.factors, i, i'); } else { ColumnRangesDisjoint(lay.factors, i', i); }
    CellBeside(ys, BlockLo(lay, i, g), BlockHi(lay, i, g), Col(lay, i), coord, r, Col(lay, i'), Width(lay.factors[i']));
  }

  /** Writing into block `g` of factor `i` leaves the cells of another block
      `g'` of the same factor as they were: the two blocks share no row. */
  lemma OtherGroupUntouched(lay: Layout, ys: Matrix, i: nat, g: nat, coord: seq<real>, g': nat, r: nat)
    requires WellFormed(lay) && Shaped(lay, ys) && i < |lay.factors| && g < Groups(lay, i)
    requires |coord| == Width(lay.factors[i])
    requires g' != g && BlockLo(lay, i, g') <= r < BlockHi(lay, i, g') && r < |ys|
    ensures Col(lay, i) + Width(lay.factors[i]) <= Cols(lay)
    ensures Cell(AfterBlock(lay, ys, i, g, coord), r, Col(lay, i), Width(lay.factors[i]))
         == Cell(ys, r, Col(lay, i), Width(lay.factors[i]))
  {
    BlockFits(lay, i, g);
    BlocksDisjoint(Jump(lay, i), g, g', r);
    CellBeside(ys, BlockLo(lay, i, g), BlockHi(lay, i, g), Col(lay, i), coord, r, Col(lay, i), Width(lay.factors[i]));
  }

  /** Writing a candidate of factor `i` into its block `g` leaves every other
      block that held a candidate holding it. */
  lemma OtherBlockHolds(lay: Layout, ys: Matrix, i: nat, g: nat, coord: seq<real>, i': nat, g': nat)
    requires WellFormed(lay) && Shaped(lay, ys) && i < |lay.factors| && g < Groups(lay, i)
    requires |coord| == Width(lay.factors[i])
    requires i' < |lay.factors| && g' < Groups(lay, i') && (i', g') != (i, g)
    requires BlockHolds(lay, ys, i', g')
    ensures BlockHolds(lay, AfterBlock(lay, ys, i, g, coord), i', g')
  {
    BlockFits(lay, i', g');
    var lo', hi' := BlockLo(lay, i', g'), BlockHi(lay, i', g');
    forall r | lo' <= r < hi'
      ensures Cell(AfterBlock(lay, ys, i, g, coord), r, Col(lay, i'), Width(lay.factors[i']))
           == Cell(ys, r, Col(lay, i'), Width(lay.factors[i']))
    {
      if i' != i {
        OtherFactorUntouched(lay, ys, i, g, coord, i', r);
      } else {
        OtherGroupUntouched(lay, ys, i, g, coord, g', r);
      }
    }
  }

  /** Writing a candidate of factor `i` into its block `g` keeps every block of
      every factor uniform and inside its candidate set. */
  lemma WithBlockKeepsValid(lay: Layout, ys: Matrix, i: nat, g: nat, coord: seq<real>)
    requires ValidDesign(lay, ys) && i < |lay.factors| && g < Groups(lay, i)
    requires coord in lay.coords[i]
    ensures |coord| == Width(lay.factors[i])
    ensures ValidDesign(lay, AfterBlock(lay, ys, i, g, coord))
  {
    var k :| 0 <= k < |lay.coords[i]| && lay.coords[i][k] == coord;
    var ys' := AfterBlock(lay, ys, i, g, coord);
    forall i', g' | 0 <= i' < |lay.factors| && 0 <= g' < Groups(lay, i') ensures BlockHolds(lay, ys', i', g') {
      if (i', g') == (i, g) {
        WrittenBlockHolds(lay, ys, i, g, coord);
      } else {
        assert BlockHolds(lay, ys, i', g');
        OtherBlockHolds(lay, ys, i, g, coord, i', g');
      }
    }
  }

  /** One block scan of a valid design with a matching model matrix: the design
      stays valid, the model matrix keeps matching it, and a scan that accepted
      nothing changes neither. */
  lemma BlockScanPreserves<P, S>(lay: Layout, crit: Criterion<P, S>, st: S, ys: Matrix, xs: Matrix, i: nat, g: nat)
    requires ValidDesign(lay, ys) && Consistent(lay, ys, xs) && i < |lay.factors| && g < Groups(lay, i)
    ensures var b := BlockScan(lay, crit, st, ys, xs, i, g);
      var ys' := AfterBlock(lay, ys, i, g, b.best);
      && ValidDesign(lay, ys')
      && Consistent(lay, ys', b.xs)
      && (b.accepted <==> b.best != InitCoord(lay, ys, i, g))
      && (!b.accepted ==> ys' == ys && b.xs == xs)
  {
    BlockFits(lay, i, g);
    var init := InitCoord(lay, ys, i, g);
    var lo, hi, col := BlockLo(lay, i, g), BlockHi(lay, i, g), Col(lay, i);
    assert BlockHolds(lay, ys, i, g);
    forall r | lo <= r < hi ensures ys[r][col..col + |init|] == init {
      assert Cell(ys, r, col, |init|) == init;
    }
    WithBlockSame(ys, lo, hi, col, init);
    var acc := ScanState(st, xs, init, false);
    ScanChoosesCandidate(lay, crit, ys, i, g, init, 0, acc);
    ScanKeepsModelMatrix(lay, crit, ys, i, g, init, 0, acc);
    var b := BlockScan(lay, crit, st, ys, xs, i, g);
    WithBlockKeepsValid(lay, ys, i, g, b.best);
  }

  // ---------------------------------------------------------------------------
  // Sweeps and the sweep loop

  /** Once the scans of a factor's blocks have reported an update they keep
      reporting it. */
  lemma {:induction false} BlocksMonotone<P, S>(lay: Layout, crit: Criterion<P, S>, i: nat, g: nat, p: Pass<S>)
    requires Fits(lay, p.ys, p.xs) && i < |lay.factors| && g <= Groups(lay, i)
    ensures p.updated ==> BlocksFrom(lay, crit, i, g, p).updated
    decreases Groups(lay, i) - g
  {
    if g < Groups(lay, i) {
      var q := Next(lay, crit, i, g, p);
      BlocksMonotone(lay, crit, i, g + 1, q);
      assert BlocksFrom(lay, crit, i, g, p) == BlocksFrom(lay, crit, i, g + 1, q);
    }
  }

  /** Once a sweep has reported an update it keeps reporting it. */
  lemma {:induction false} SweepMonotone<P, S>(lay: Layout, crit: Criterion<P, S>, i: nat, p: Pass<S>)
    requires Fits(lay, p.ys, p.xs) && i <= |lay.factors|
    ensures p.updated ==> SweepFrom(lay, crit, i, p).updated
    decreases |lay.factors| - i
  {
    if i < |lay.factors| {
      var q := BlocksFrom(lay, crit, i, 0, p);
      BlocksMonotone(lay, crit, i, 0, p);
      SweepMonotone(lay, crit, i + 1, q);
      assert SweepFrom(lay, crit, i, p) == SweepFrom(lay, crit, i + 1, q);
    }
  }

  /** Scanning the blocks of factor `i` from block `g` on keeps a valid design
      valid and its model matrix matching it. */
  lemma {:induction false} BlocksPreserve<P, S>(lay: Layout, crit: Criterion<P, S>, i: nat, g: nat, p: Pass<S>)
    requires Coherent(lay, p.ys, p.xs) && i < |lay.factors| && g <= Groups(lay, i)
    ensures var res := BlocksFrom(lay, crit, i, g, p); Coherent(lay, res.ys, res.xs)
    decreases Groups(lay, i) - g
  {
    if g < Groups(lay, i) {
      BlockScanPreserves(lay, crit, p.state, p.ys, p.xs, i, g);
      var q := Next(lay, crit, i, g, p);
      BlocksPreserve(lay, crit, i, g + 1, q);
      assert BlocksFrom(lay, crit, i, g, p) == BlocksFrom(lay, crit, i, g + 1, q);
    }
  }

  /** A sweep from factor `i` on, over a valid design with a matching model
      matrix, keeps both. */
  lemma {:induction false} SweepPreserves<P, S>(lay: Layout, crit: Criterion<P, S>, i: nat, p: Pass<S>)
    requires Coherent(lay, p.ys, p.xs) && i <= |lay.factors|
    ensures var res := SweepFrom(lay, crit, i, p); Coherent(lay, res.ys, res.xs)
    decreases |lay.factors| - i
  {
    if i < |lay.factors| {
      var q := BlocksFrom(lay, crit, i, 0, p);
      BlocksPreserve(lay, crit, i, 0, p);
      SweepPreserves(lay, crit, i + 1, q);
      assert SweepFrom(lay, crit, i, p) == SweepFrom(lay, crit, i + 1, q);
    }
  }

  /** Block scans that made no update leave the design and the model matrix as
      they were. */
  lemma {:induction false} BlocksUnchanged<P, S>(lay: Layout, crit: Criterion<P, S>, i: nat, g: nat, p: Pass<S>)
    requires Coherent(lay, p.ys, p.xs) && i < |lay.factors| && g <= Groups(lay, i)
    ensures var res := BlocksFrom(lay, crit, i, g, p);
      !res.updated ==> res.ys == p.ys && res.xs == p.xs
    decreases Groups(lay, i) - g
  {
    if g < Groups(lay, i) {
      BlockScanPreserves(lay, crit, p.state, p.ys, p.xs, i, g);
      var q := Next(lay, crit, i, g, p);
      BlocksMonotone(lay, crit, i, g + 1, q);
      BlocksUnchanged(lay, crit, i, g + 1, q);
      var res := BlocksFrom(lay, crit, i, g + 1, q);
      assert BlocksFrom(lay, crit, i, g, p) == res;
      if !res.updated {
        assert q.ys == p.ys && q.xs == p.xs;
      }
    }
  }

  /** A sweep that made no update leaves the design and the model matrix as
      they were: every block scan in it accepted nothing. */
  lemma {:induction false} SweepUnchanged<P, S>(lay: Layout, crit: Criterion<P, S>, i: nat, p: Pass<S>)
    requires Coherent(lay, p.ys, p.xs) && i <= |lay.factors|
    ensures var res := SweepFrom(lay, crit, i, p);
      !res.updated ==> res.ys == p.ys && res.xs == p.xs
    decreases |lay.factors| - i
  {
    if i < |lay.factors| {
      var q := BlocksFrom(lay, crit, i, 0, p);
      BlocksPreserve(lay, crit, i, 0, p);
      BlocksUnchanged(lay, crit, i, 0, p);
      SweepMonotone(lay, crit, i + 1, q);
      SweepUnchanged(lay, crit, i + 1, q);
      var res := SweepFrom(lay, crit, i + 1, q);
      assert SweepFrom(lay, crit, i, p) == res;
      if !res.updated {
        assert q.ys == p.ys && q.xs == p.xs;
      }
    }
  }

  /** Under a criterion that never accepts, the block scans report no update. */
  lemma {:induction false} BlocksWithoutAcceptance<P, S>(lay: Layout, crit: Criterion<P, S>, i: nat, g: nat, p: Pass<S>)
    requires Fits(lay, p.ys, p.xs) && i < |lay.factors| && g <= Groups(lay, i)
    requires forall s, a, b, l, h :: !crit.update(s, a, b, l, h).Accept?
    requires !p.updated
    ensures !BlocksFrom(lay, crit, i, g, p).updated
    decreases Groups(lay, i) - g
  {
    if g < Groups(lay, i) {
      var init := InitCoord(lay, p.ys, i, g);
      ScanWithoutAcceptance(lay, crit, p.ys, i, g, init, 0, ScanState(p.state, p.xs, init, false));
      var q := Next(lay, crit, i, g, p);
      assert !q.updated;
      BlocksWithoutAcceptance(lay, crit, i, g + 1, q);
      assert BlocksFrom(lay, crit, i, g, p) == BlocksFrom(lay, crit, i, g + 1, q);
    }
  }

  /** Under a criterion that never accepts, a sweep reports no update. */
  lemma {:induction false} SweepWithoutAcceptance<P, S>(lay: Layout, crit: Criterion<P, S>, i: nat, p: Pass<S>)
    requires Fits(lay, p.ys, p.xs) && i <= |lay.factors|
    requires forall s, a, b, l, h :: !crit.update(s, a, b, l, h).Accept?
    requires !p.updated
    ensures !SweepFrom(lay, crit, i, p).updated
    decreases |lay.factors| - i
  {
    if i < |lay.factors| {
      var q := BlocksFrom(lay, crit, i, 0, p);
      BlocksWithoutAcceptance(lay, crit, i, 0, p);
      SweepWithoutAcceptance(lay, crit, i + 1, q);
      assert SweepFrom(lay, crit, i, p) == SweepFrom(lay, crit, i + 1, q);
    }
  }

  /** The sweep loop runs at most `fuel` more sweeps; it stops early only right
      after a sweep without acceptance, and otherwise uses up all its sweeps. The
      first sweep ends the loop, converged, exactly when it accepted nothing. */
  lemma {:induction false} SweepsBounded<P, S>(lay: Layout, crit: Criterion<P, S>, st: S, ys: Matrix, xs: Matrix,
                                              fuel: nat, done: nat)
    requires Fits(lay, ys, xs)
    ensures var res := Iterate(lay, crit, st, ys, xs, fuel, done);
      res.Done? ==>
        && done <= res.value.sweeps <= done + fuel
        && (res.value.converged ==> done < res.value.sweeps)
        && (!res.value.converged ==> res.value.sweeps == done + fuel)
    ensures var res := Iterate(lay, crit, st, ys, xs, fuel, done);
      fuel > 0 && res.Done? ==>
        (res.value.converged && res.value.sweeps == done + 1 <==> !Sweep(lay, crit, st, ys, xs).updated)
    decreases fuel
  {
    if fuel > 0 {
      var p := Sweep(lay, crit, st, ys, xs);
      if p.updated {
        match crit.resync(p.state, p.xs)
        case Singular =>
        case Done(s) => SweepsBounded(lay, crit, s, p.ys, p.xs, fuel - 1, done + 1);
      }
    }
  }

  /** One round of the sweep loop that goes on: the sweep updated the design and
      the criterion was resynchronised; the rest of the loop then starts from a
      valid design with its model matrix. */
  lemma {:induction false} IterateStep<P, S>(lay: Layout, crit: Criterion<P, S>, st: S, ys: Matrix, xs: Matrix,
                                            fuel: nat, done: nat)
    requires Coherent(lay, ys, xs) && fuel > 0
    requires Sweep(lay, crit, st, ys, xs).updated
    requires crit.resync(Sweep(lay, crit, st, ys, xs).state, Sweep(lay, crit, st, ys, xs).xs).Done?
    ensures var res := Iterate(lay, crit, st, ys, xs, fuel, done);
      res.Done? ==> Coherent(lay, res.value.ys, res.value.xs)
    decreases fuel, 0
  {
    SweepPreserves(lay, crit, 0, Pass(st, ys, xs, false));
    var p := Sweep(lay, crit, st, ys, xs);
    var s := crit.resync(p.state, p.xs).value;
    IteratePreserves(lay, crit, s, p.ys, p.xs, fuel - 1, done + 1);
    assert Iterate(lay, crit, st, ys, xs, fuel, done) == Iterate(lay, crit, s, p.ys, p.xs, fuel - 1, done + 1);
  }

  /** The round of the sweep loop that stops it: the design and model matrix are
      those of the last sweep, which keeps them valid and matching. */
  lemma IterateLast<P, S>(lay: Layout, crit: Criterion<P, S>, st: S, ys: Matrix, xs: Matrix, fuel: nat, done: nat)
    requires Coherent(lay, ys, xs)
    requires fuel == 0 || !Sweep(lay, crit, st, ys, xs).updated
    ensures var res := Iterate(lay, crit, st, ys, xs, fuel, done);
      res.Done? && Coherent(lay, res.value.ys, res.value.xs)
  {
    if fuel > 0 {
      SweepPreserves(lay, crit, 0, Pass(st, ys, xs, false));
    }
  }

  /** The sweep loop keeps the design valid and the model matrix matching it. */
  lemma {:induction false} IteratePreserves<P, S>(lay: Layout, crit: Criterion<P, S>, st: S, ys: Matrix, xs: Matrix,
                                                 fuel: nat, done: nat)
    requires Coherent(lay, ys, xs)
    ensures var res := Iterate(lay, crit, st, ys, xs, fuel, done);
      res.Done? ==> Coherent(lay, res.value.ys, res.value.xs)
    decreases fuel, 1
  {
    if fuel == 0 || !Sweep(lay, crit, st, ys, xs).updated {
      IterateLast(lay, crit, st, ys, xs, fuel, done);
    } else if crit.resync(Sweep(lay, crit, st, ys, xs).state, Sweep(lay, crit, st, ys, xs).xs).Done? {
      IterateStep(lay, crit, st, ys, xs, fuel, done);
    } else {
      assert Iterate(lay, crit, st, ys, xs, fuel, done) == Singular;
    }
  }

  /** Every run of a valid design holds, in each factor's columns, one of that
      factor's candidate coordinates. */
  lemma CellsInCoordinateSets(lay: Layout, ys: Matrix, i: nat, r: nat)
    requires ValidDesign(lay, ys) && i < |lay.factors| && r < |ys|
    ensures Col(lay, i) + Width(lay.factors[i]) <= Cols(lay)
    ensures Cell(ys, r, Col(lay, i), Width(lay.factors[i])) in lay.coords[i]
  {
    ColumnRangesDisjoint(lay.factors, i, |lay.factors|);
    BlocksTileRows(lay.plotSizes, lay.factors[i].level, r);
    var g := r / Jump(lay, i);
    assert BlockHolds(lay, ys, i, g);
  }

  /** Closed search space: started from a valid design, the exchange returns a
      valid design, so every value it wrote for a factor is one of that factor's
      candidates and every block is uniform. */
  lemma ExchangeClosed<P, S>(lay: Layout, crit: Criterion<P, S>, pre: P, ys: Matrix, maxIt: nat)
    requires ValidDesign(lay, ys)
    ensures var res := Exchange(lay, crit, pre, ys, maxIt);
      res.Done? ==> ValidDesign(lay, res.value.0)
  {
    ShapedCovers(lay, ys);
    var xs := Expand(ys, lay.model);
    match crit.init(pre, ys, xs)
    case Singular =>
    case Done(st) => IteratePreserves(lay, crit, st, ys, xs, maxIt, 0);
  }

  /** If the criterion never accepts a candidate, the sweep loop stops after
      exactly one sweep with the design and model matrix unchanged. */
  lemma IterateWithoutAcceptance<P, S>(lay: Layout, crit: Criterion<P, S>, st: S, ys: Matrix, xs: Matrix, fuel: nat)
    requires ValidDesign(lay, ys) && Consistent(lay, ys, xs) && fuel >= 1
    requires forall s, a, b, l, h :: !crit.update(s, a, b, l, h).Accept?
    ensures var res := Iterate(lay, crit, st, ys, xs, fuel, 0);
      res.Done? && res.value.sweeps == 1 && res.value.converged && res.value.ys == ys && res.value.xs == xs
  {
    var p0 := Pass(st, ys, xs, false);
    SweepWithoutAcceptance(lay, crit, 0, p0);
    SweepUnchanged(lay, crit, 0, p0);
  }

  /** If the criterion never accepts a candidate, the exchange returns its
      starting design. */
  lemma ExchangeWithoutAcceptance<P, S>(lay: Layout, crit: Criterion<P, S>, pre: P, ys: Matrix, maxIt: nat)
    requires ValidDesign(lay, ys)
    requires forall s, a, b, l, h :: !crit.update(s, a, b, l, h).Accept?
    ensures var res := Exchange(lay, crit, pre, ys, maxIt);
      res.Done? ==> res.value.0 == ys
  {
    ShapedCovers(lay, ys);
    var xs := Expand(ys, lay.model);
    match crit.init(pre, ys, xs)
    case Singular =>
    case Done(st) =>
      if maxIt >= 1 {
        IterateWithoutAcceptance(lay, crit, st, ys, xs, maxIt);
      }
  }
}
