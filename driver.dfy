/** `doe` (src/optimal_splitk/doe.py): the multi-start driver. It normalises the
    variance ratios, then runs the exchange from one starting design after
    another until `n_tries` runs have finished without a `LinAlgError`, records
    each finished run's metric and keeps the design of the strictly best one. */
module Driver {
  import opened Matrices
  import opened Geometry
  import opened ModelMatrix
  import opened Criterion
  import opened ExchangeSpec
  import opened ExchangeLemmas
  import opened Exchange
  import opened Wrappers

  // ---------------------------------------------------------------------------
  // Ratio normalisation

  /** Why the ratios were refused: a length that is neither the number of plot
      sizes nor one less, an empty ratio array (`ratios[0]` raises), a first
      ratio other than 1, or the failing `np.concatenate` call. */
  datatype RatioError = SizeMismatch | NoFirstElement | FirstNotOne | ConcatenateFails

  /** The ratios handed to the criterion, as intended: all ones by default, a
      leading 1 prepended to one ratio per level above the first, or a full
      array whose first ratio is 1. */
  function NormalizeRatios(plotSizes: seq<nat>, ratios: Option<seq<real>>): (r: Result<seq<real>, RatioError>)
    ensures r.Ok? ==> |r.value| == |plotSizes| && (|plotSizes| > 0 ==> r.value[0] == 1.0)
    ensures ratios.None? ==> r.Ok? && forall k :: 0 <= k < |r.value| ==> r.value[k] == 1.0
    ensures ratios.Some? && |ratios.value| + 1 == |plotSizes| ==> r.Ok? && r.value[1..] == ratios.value
    ensures ratios.Some? && |ratios.value| + 1 != |plotSizes| ==>
      && (r.Ok? <==> |ratios.value| == |plotSizes| > 0 && ratios.value[0] == 1.0)
      && (r.Ok? ==> r.value == ratios.value)
  {
    match ratios
    case None => Ok(seq(|plotSizes|, _ => 1.0))
    case Some(rs) =>
      if |rs| + 1 == |plotSizes| then Ok([1.0] + rs)
      else if |rs| != |plotSizes| then Err(SizeMismatch)
      else if |rs| == 0 then Err(NoFirstElement)
      else if rs[0] != 1.0 then Err(FirstNotOne)
      else Ok(rs)
  }

  /** The ratio normalisation as written: the branch meant to prepend 1 calls
      `np.concatenate(np.array([1]), ratios)`, which passes `ratios` as the
      axis argument and raises; every other branch agrees with the intended one. */
  function NormalizeRatiosAsWritten(plotSizes: seq<nat>, ratios: Option<seq<real>>): (r: Result<seq<real>, RatioError>)
    ensures ratios.Some? && |ratios.value| + 1 == |plotSizes| ==> r == Err(ConcatenateFails)
    ensures !(ratios.Some? && |ratios.value| + 1 == |plotSizes|) ==> r == NormalizeRatios(plotSizes, ratios)
  {
    match ratios
    case None => Ok(seq(|plotSizes|, _ => 1.0))
    case Some(rs) =>
      if |rs| + 1 == |plotSizes| then Err(ConcatenateFails)
      else if |rs| != |plotSizes| then Err(SizeMismatch)
      else if |rs| == 0 then Err(NoFirstElement)
      else if rs[0] != 1.0 then Err(FirstNotOne)
      else Ok(rs)
  }

  /** Two plot levels with one ratio for the second: the intended normalisation
      gives [1, 0.5], the code as written raises. */
  lemma PrependedRatioRaises()
    ensures NormalizeRatiosAsWritten([2, 3], Some([0.5])).Err?
    ensures NormalizeRatios([2, 3], Some([0.5])) == Ok([1.0, 0.5])
  {
    assert [1.0] + [0.5] == [1.0, 0.5];
  }

  // ---------------------------------------------------------------------------
  // Best tracking

  /** The run `best_Y` comes from: scanning the metrics in order and replacing
      the best only on a strictly greater metric picks the earliest maximum. */
  function BestIndex(ms: seq<real>): (b: nat)
    requires |ms| > 0
    ensures b < |ms|
    ensures forall j :: 0 <= j < |ms| ==> ms[j] <= ms[b]
    ensures forall j :: 0 <= j < b ==> ms[j] < ms[b]
    decreases |ms|
  {
    if |ms| == 1 then 0
    else
      var b := BestIndex(ms[..|ms| - 1]);
      if ms[|ms| - 1] > ms[b] then |ms| - 1 else b
  }

  // ---------------------------------------------------------------------------
  // Restarts

  /** Every starting design has the shape of the layout. */
  ghost predicate StartsShaped(lay: Layout, starts: seq<Matrix>) {
    forall k :: 0 <= k < |starts| ==> Shaped(lay, starts[k])
  }

  /** A run of the exchange as a function of its starting design: `Singular`
      when it raised `LinAlgError`, else the optimised design and its metric. */
  type Runner = Matrix -> Fallible<(Matrix, real)>

  /** The exchange of a layout as a run; designs of another shape are never
      handed to it. */
  ghost function ExchangeRun<P, S>(lay: Layout, crit: Criterion<P, S>, pre: P, maxIt: nat): Runner {
    ys => if WellFormed(lay) && Shaped(lay, ys) then ExchangeSpec.Exchange(lay, crit, pre, ys, maxIt) else Singular
  }

  /** `run` gives what the exchange gives on every design of the layout's
      shape. */
  ghost predicate RunsExchange<P, S>(run: Runner, lay: Layout, crit: Criterion<P, S>, pre: P, maxIt: nat) {
    && WellFormed(lay)
    && forall ys {:trigger ExchangeSpec.Exchange(lay, crit, pre, ys, maxIt)} :: Shaped(lay, ys) ==>
         run(ys) == ExchangeSpec.Exchange(lay, crit, pre, ys, maxIt)
  }

  lemma ExchangeRunAgrees<P, S>(lay: Layout, crit: Criterion<P, S>, pre: P, maxIt: nat)
    requires WellFormed(lay)
    ensures RunsExchange(ExchangeRun(lay, crit, pre, maxIt), lay, crit, pre, maxIt)
  {
  }

  /** The runs from the first `d` starts, in order. */
  function Attempts(run: Runner, starts: seq<Matrix>, d: nat): (rs: seq<Fallible<(Matrix, real)>>)
    requires d <= |starts|
    ensures |rs| == d
    decreases d
  {
    if d == 0 then [] else Attempts(run, starts, d - 1) + [run(starts[d - 1])]
  }

  /** Run `k` is the run from start `k`. */
  lemma {:induction false} AttemptsAt(run: Runner, starts: seq<Matrix>, d: nat, k: nat)
    requires k < d <= |starts|
    ensures Attempts(run, starts, d)[k] == run(starts[k])
    decreases d
  {
    if k < d - 1 {
      AttemptsAt(run, starts, d - 1, k);
    }
  }

  /** The runs from fewer starts are a prefix of the runs from more starts. */
  lemma {:induction false} AttemptsPrefix(run: Runner, starts: seq<Matrix>, d: nat, e: nat)
    requires d <= e <= |starts|
    ensures Attempts(run, starts, e)[..d] == Attempts(run, starts, d)
    decreases e
  {
    if d < e {
      AttemptsPrefix(run, starts, d, e - 1);
      var prev := Attempts(run, starts, e - 1);
      assert Attempts(run, starts, e)[..d] == prev[..d];
    }
  }

  /** The outcomes of the runs that finished, in order: a run that raised
      `LinAlgError` leaves no trace. */
  function Finished(rs: seq<Fallible<(Matrix, real)>>): (out: seq<(Matrix, real)>)
    ensures |out| <= |rs|
    decreases |rs|
  {
    if rs == [] then []
    else
      var prev := Finished(rs[..|rs| - 1]);
      match rs[|rs| - 1]
      case Done(v) => prev + [v]
      case Singular => prev
  }

  /** One more run: its outcome is appended when it finished and dropped when
      it raised. */
  lemma FinishedStep(rs: seq<Fallible<(Matrix, real)>>, r: Fallible<(Matrix, real)>)
    ensures Finished(rs + [r]) == if r.Done? then Finished(rs) + [r.value] else Finished(rs)
  {
    assert (rs + [r])[..|rs|] == rs;
  }

  /** Every finished run is accounted for: the outcomes are exactly the values
      of the `Done` runs, in the order the runs were made. */
  lemma {:induction false} FinishedCounts(rs: seq<Fallible<(Matrix, real)>>)
    ensures |Finished(rs)| == |set k | 0 <= k < |rs| && rs[k].Done?|
    decreases |rs|
  {
    if rs != [] {
      var init, last := rs[..|rs| - 1], rs[|rs| - 1];
      FinishedCounts(init);
      var before := set k | 0 <= k < |init| && init[k].Done?;
      var after := set k | 0 <= k < |rs| && rs[k].Done?;
      if last.Done? {
        assert after == before + {|init|};
      } else {
        assert after == before;
      }
    }
  }

  /** The finished runs of a prefix of the runs are a prefix of the finished
      runs. */
  lemma {:induction false} FinishedPrefix(rs: seq<Fallible<(Matrix, real)>>, d: nat)
    requires d <= |rs|
    ensures var part, all := Finished(rs[..d]), Finished(rs);
      |part| <= |all| && part == all[..|part|]
    decreases |rs|
  {
    if d < |rs| {
      var init := rs[..|rs| - 1];
      assert init[..d] == rs[..d];
      FinishedPrefix(init, d);
    } else {
      assert rs[..d] == rs;
    }
  }

  /** The metrics of a sequence of outcomes. */
  function Metrics(out: seq<(Matrix, real)>): (ms: seq<real>)
    ensures |ms| == |out| && forall k :: 0 <= k < |out| ==> ms[k] == out[k].1
  {
    seq(|out|, k requires 0 <= k < |out| => out[k].1)
  }

  /** Every outcome holds a valid design. */
  ghost predicate AllValid(lay: Layout, out: seq<(Matrix, real)>) {
    forall j :: 0 <= j < |out| ==> ValidDesign(lay, out[j].0)
  }

  /** Every run that finished returned a valid design. */
  ghost predicate DoneValid(lay: Layout, rs: seq<Fallible<(Matrix, real)>>) {
    forall k :: 0 <= k < |rs| && rs[k].Done? ==> ValidDesign(lay, rs[k].value.0)
  }

  lemma {:induction false} FinishedValid(lay: Layout, rs: seq<Fallible<(Matrix, real)>>)
    requires DoneValid(lay, rs)
    ensures AllValid(lay, Finished(rs))
    decreases |rs|
  {
    if rs != [] {
      var init, last := rs[..|rs| - 1], rs[|rs| - 1];
      assert DoneValid(lay, init) by {
        forall k | 0 <= k < |init| && init[k].Done?
          ensures ValidDesign(lay, init[k].value.0)
        {
          assert init[k] == rs[k];
        }
      }
      FinishedValid(lay, init);
      if last.Done? {
        AppendValid(lay, Finished(init), last.value);
      }
    }
  }

  lemma AppendValid(lay: Layout, out: seq<(Matrix, real)>, v: (Matrix, real))
    requires AllValid(lay, out) && ValidDesign(lay, v.0)
    ensures AllValid(lay, out + [v])
  {
    var ext := out + [v];
    forall j | 0 <= j < |ext|
      ensures ValidDesign(lay, ext[j].0)
    {
      if j < |out| {
        assert ext[j] == out[j];
      }
    }
  }

  /** Closed search space over restarts: from valid starting designs every
      finished run returns a valid design. */
  lemma SuccessesValid<P, S>(lay: Layout, crit: Criterion<P, S>, pre: P, starts: seq<Matrix>, maxIt: nat)
    requires WellFormed(lay) && forall k :: 0 <= k < |starts| ==> ValidDesign(lay, starts[k])
    ensures AllValid(lay, Finished(Attempts(ExchangeRun(lay, crit, pre, maxIt), starts, |starts|)))
  {
    var run := ExchangeRun(lay, crit, pre, maxIt);
    var rs := Attempts(run, starts, |starts|);
    forall k | 0 <= k < |rs| && rs[k].Done?
      ensures ValidDesign(lay, rs[k].value.0)
    {
      AttemptsAt(run, starts, |starts|, k);
      ExchangeClosed(lay, crit, pre, starts[k], maxIt);
    }
    FinishedValid(lay, rs);
  }

  /** What `doe` returns before decoding: the best design and every finished
      run's metric. */
  datatype Outcome = Outcome(best: Matrix, metrics: seq<real>)

  /** Why `doe` gave no outcome: refused ratios, or the starting designs ran out
      before `n_tries` runs finished. */
  datatype DoeError = BadRatios(reason: RatioError) | OutOfStarts

  /** `np.zeros((rows, cols))`. */
  function ZeroDesign(rows: nat, cols: nat): (m: Matrix)
    ensures |m| == rows && IsRect(m, cols)
  {
    seq(rows, _ => seq(cols, _ => 0.0))
  }

  /** One attempt of the retry loop: copy the encoded starting design into a
      fresh buffer and optimise it; a `LinAlgError` anywhere in the run gives
      `Singular`. */
  method Attempt<P, S>(model: Model, plotSizes: seq<nat>, factors: seq<Factor>, maxIt: nat,
                       crit: Criterion<P, S>, pre: P, overrides: Option<seq<Matrix>>, start: Matrix)
    returns (res: Fallible<(Matrix, real)>)
    requires overrides.Some? ==> |overrides.value| >= |factors|
    requires WellFormed(LayoutOf(plotSizes, factors, model, overrides))
    requires Shaped(LayoutOf(plotSizes, factors, model, overrides), start)
    ensures res == ExchangeSpec.Exchange(LayoutOf(plotSizes, factors, model, overrides), crit, pre, start, maxIt)
  {
    var y := FromRows(start, Cols(LayoutOf(plotSizes, factors, model, overrides)));
    var m := Optimize(y, model, plotSizes, factors, crit, pre, maxIt, overrides);
    match m
    case Singular => res := Singular;
    case Done(v) => res := Done((Rows(y), v));
  }

  /** The next attempt of the retry loop, on start `d`: the run it makes is
      the next of `Attempts`, and it joins the finished runs exactly when it
      finished. */
  method NextAttempt<P, S>(model: Model, plotSizes: seq<nat>, factors: seq<Factor>, maxIt: nat,
                           crit: Criterion<P, S>, pre: P, overrides: Option<seq<Matrix>>, starts: seq<Matrix>,
                           d: nat, ghost run: Runner)
    returns (m: Fallible<(Matrix, real)>)
    requires overrides.Some? ==> |overrides.value| >= |factors|
    requires RunsExchange(run, LayoutOf(plotSizes, factors, model, overrides), crit, pre, maxIt)
    requires StartsShaped(LayoutOf(plotSizes, factors, model, overrides), starts)
    requires d < |starts|
    ensures m == run(starts[d])
    ensures Finished(Attempts(run, starts, d + 1))
      == if m.Done? then Finished(Attempts(run, starts, d)) + [m.value] else Finished(Attempts(run, starts, d))
  {
    m := Attempt(model, plotSizes, factors, maxIt, crit, pre, overrides, starts[d]);
    FinishedStep(Attempts(run, starts, d), m);
  }

  /** The loop state of `doe` after the finished runs `out`: `metrics` holds
      their metrics, and `best_Y`/`best_metric` come from the earliest run with
      the greatest metric, or are the zero design and minus infinity (`None`)
      before any run finished. */
  ghost predicate Tracked(ms: seq<real>, best: Matrix, bestMetric: Option<real>, out: seq<(Matrix, real)>, zero: Matrix) {
    && ms == Metrics(out)
    && (|out| == 0 ==> best == zero && bestMetric.None?)
    && (|out| > 0 ==> bestMetric == Some(ms[BestIndex(ms)]) && best == out[BestIndex(ms)].0)
  }

  /** Recording one more finished run keeps the loop state tracked: the best is
      replaced exactly when the new metric is strictly greater. */
  lemma TrackStep(ms: seq<real>, best: Matrix, bestMetric: Option<real>, out: seq<(Matrix, real)>, zero: Matrix, v: (Matrix, real))
    requires Tracked(ms, best, bestMetric, out, zero)
    ensures var better := bestMetric.None? || v.1 > bestMetric.value;
      Tracked(ms + [v.1], if better then v.0 else best, if better then Some(v.1) else bestMetric, out + [v], zero)
  {
    var ms', out' := ms + [v.1], out + [v];
    assert ms'[..|ms'| - 1] == ms;
    assert ms' == Metrics(out');
    if |out| > 0 {
      assert out'[BestIndex(ms)] == out[BestIndex(ms)];
    }
  }

  /** Store a finished run's metric in slot `i` and keep the best design so
      far: it is replaced only on a strictly greater metric. */
  method Record(metrics: array<real>, i: nat, v: (Matrix, real), best: Matrix, bestMetric: Option<real>,
                ghost prev: seq<(Matrix, real)>, ghost out: seq<(Matrix, real)>, ghost zero: Matrix)
    returns (best': Matrix, bestMetric': Option<real>)
    requires i < metrics.Length && i == |prev| && out == prev + [v]
    requires Tracked(metrics[..i], best, bestMetric, prev, zero)
    modifies metrics
    ensures metrics[..i + 1] == old(metrics[..i]) + [v.1]
    ensures metrics[i + 1..] == old(metrics[i + 1..])
    ensures Tracked(metrics[..i + 1], best', bestMetric', out, zero)
    ensures bestMetric.None? || v.1 > bestMetric.value ==> best' == v.0 && bestMetric' == Some(v.1)
    ensures bestMetric.Some? && v.1 <= bestMetric.value ==> best' == best && bestMetric' == bestMetric
  {
    ghost var ms := metrics[..i];
    TrackStep(ms, best, bestMetric, prev, zero, v);
    metrics[i] := v.1;
    assert metrics[..i + 1] == ms + [v.1];
    if bestMetric.None? || v.1 > bestMetric.value {
      best', bestMetric' := v.0, Some(v.1);
    } else {
      best', bestMetric' := best, bestMetric;
    }
  }

  /** What `doe` hands back once the finished runs are known: it needs
      `n_tries` of them, the metrics of the first `n_tries`, and the design of
      the earliest best of those (the zero design when `n_tries` is 0). */
  function Select(succ: seq<(Matrix, real)>, nTries: nat, zero: Matrix): (r: Result<Outcome, DoeError>)
    ensures r.Ok? <==> nTries <= |succ|
    ensures r.Err? ==> r.error == OutOfStarts
    ensures r.Ok? ==> r.value.metrics == Metrics(succ[..nTries])
    ensures r.Ok? && nTries == 0 ==> r.value.best == zero
    ensures r.Ok? && nTries > 0 ==>
              exists b :: && 0 <= b < nTries && r.value.best == succ[b].0
                          && (forall j :: 0 <= j < nTries ==> succ[j].1 <= succ[b].1)
                          && (forall j :: 0 <= j < b ==> succ[j].1 < succ[b].1)
  {
    if |succ| < nTries then Err(OutOfStarts)
    else
      var ms := Metrics(succ[..nTries]);
      if nTries == 0 then Ok(Outcome(zero, ms))
      else
        var b := BestIndex(ms);
        assert forall j :: 0 <= j < nTries ==> ms[j] == succ[j].1;
        Ok(Outcome(succ[b].0, ms))
  }

  /** Once `n_tries` runs have finished, the tracked loop state is the
      selected outcome. */
  lemma SelectTracked(succ: seq<(Matrix, real)>, nTries: nat, zero: Matrix,
                      ms: seq<real>, best: Matrix, bestMetric: Option<real>, out: seq<(Matrix, real)>)
    requires |out| == nTries <= |succ| && out == succ[..nTries]
    requires Tracked(ms, best, bestMetric, out, zero)
    ensures Select(succ, nTries, zero) == Ok(Outcome(best, ms))
  {
  }

  /** One pass of the retry loop: attempt start `d`; when the run finishes,
      record its metric in slot `i` and keep the better design. */
  method RetryStep<P, S>(model: Model, plotSizes: seq<nat>, factors: seq<Factor>, maxIt: nat,
                         crit: Criterion<P, S>, pre: P, overrides: Option<seq<Matrix>>, starts: seq<Matrix>,
                         ghost run: Runner, zero: Matrix, metrics: array<real>, i: nat, d: nat,
                         best: Matrix, bestMetric: Option<real>)
    returns (i': nat, best': Matrix, bestMetric': Option<real>)
    requires overrides.Some? ==> |overrides.value| >= |factors|
    requires RunsExchange(run, LayoutOf(plotSizes, factors, model, overrides), crit, pre, maxIt)
    requires StartsShaped(LayoutOf(plotSizes, factors, model, overrides), starts)
    requires d < |starts| && i < metrics.Length && i == |Finished(Attempts(run, starts, d))|
    requires Tracked(metrics[..i], best, bestMetric, Finished(Attempts(run, starts, d)), zero)
    modifies metrics
    ensures i <= i' <= i + 1 && i' == |Finished(Attempts(run, starts, d + 1))|
    ensures metrics[i + 1..] == old(metrics[i + 1..])
    ensures i' == i ==> metrics[..] == old(metrics[..])
    ensures Tracked(metrics[..i'], best', bestMetric', Finished(Attempts(run, starts, d + 1)), zero)
  {
    var m := NextAttempt(model, plotSizes, factors, maxIt, crit, pre, overrides, starts, d, run);
    i', best', bestMetric' := i, best, bestMetric;
    if m.Done? {
      best', bestMetric' := Record(metrics, i, m.value, best, bestMetric,
                                   Finished(Attempts(run, starts, d)), Finished(Attempts(run, starts, d + 1)), zero);
      i' := i + 1;
    }
  }

  /** The retry loop of `doe`: attempt one start after another until
      `n_tries` runs have finished, storing each metric and keeping the best
      design. Running out of starts stands for the source's loop never ending
      when too many runs raise. */
  method Retry<P, S>(model: Model, plotSizes: seq<nat>, factors: seq<Factor>, nTries: nat, maxIt: nat,
                     crit: Criterion<P, S>, pre: P, overrides: Option<seq<Matrix>>, starts: seq<Matrix>,
                     ghost run: Runner)
    returns (r: Result<Outcome, DoeError>)
    requires overrides.Some? ==> |overrides.value| >= |factors|
    requires RunsExchange(run, LayoutOf(plotSizes, factors, model, overrides), crit, pre, maxIt)
    requires StartsShaped(LayoutOf(plotSizes, factors, model, overrides), starts)
    ensures r == Select(Finished(Attempts(run, starts, |starts|)), nTries, ZeroDesign(Runs(plotSizes), |factors|))
  {
    var zero := ZeroDesign(Runs(plotSizes), |factors|);
    var metrics := new real[nTries](_ => 0.0);
    var best := zero;
    var bestMetric: Option<real> := None;
    var i, d := 0, 0;
    while i < nTries
      invariant d <= |starts| && i <= nTries && i == |Finished(Attempts(run, starts, d))|
      invariant Tracked(metrics[..i], best, bestMetric, Finished(Attempts(run, starts, d)), zero)
      decreases |starts| - d
    {
      if d == |starts| {
        return Err(OutOfStarts);
      }
      i, best, bestMetric := RetryStep(model, plotSizes, factors, maxIt, crit, pre, overrides, starts, run, zero,
                                       metrics, i, d, best, bestMetric);
      d := d + 1;
    }
    AttemptsPrefix(run, starts, d, |starts|);
    FinishedPrefix(Attempts(run, starts, |starts|), d);
    assert metrics[..] == metrics[..nTries];
    SelectTracked(Finished(Attempts(run, starts, |starts|)), nTries, zero, metrics[..], best, bestMetric,
                  Finished(Attempts(run, starts, d)));
    r := Ok(Outcome(best, metrics[..]));
  }

  /** `doe` up to decoding: normalise the ratios, compute the criterion's
      pre-state, then run the retry loop. `starts` stands for the encoded random
      starting designs `initialize_single` and `encode_design` would produce,
      one per attempt. */
  method Doe<P, S>(model: Model, plotSizes: seq<nat>, factors: seq<Factor>, nTries: nat, maxIt: nat,
                   crit: Criterion<P, S>, overrides: Option<seq<Matrix>>, ratios: Option<seq<real>>,
                   starts: seq<Matrix>)
    returns (r: Result<Outcome, DoeError>)
    requires overrides.Some? ==> |overrides.value| >= |factors|
    requires WellFormed(LayoutOf(plotSizes, factors, model, overrides))
    requires StartsShaped(LayoutOf(plotSizes, factors, model, overrides), starts)
    ensures NormalizeRatios(plotSizes, ratios).Err? ==> r == Err(BadRatios(NormalizeRatios(plotSizes, ratios).error))
    ensures NormalizeRatios(plotSizes, ratios).Ok? ==>
      var pre := crit.preinit(plotSizes, model, factors, NormalizeRatios(plotSizes, ratios).value);
      var run := ExchangeRun(LayoutOf(plotSizes, factors, model, overrides), crit, pre, maxIt);
      r == Select(Finished(Attempts(run, starts, |starts|)), nTries, ZeroDesign(Runs(plotSizes), |factors|))
  {
    var norm := NormalizeRatios(plotSizes, ratios);
    if norm.Err? {
      return Err(BadRatios(norm.error));
    }
    var pre := crit.preinit(plotSizes, model, factors, norm.value);
    ghost var lay := LayoutOf(plotSizes, factors, model, overrides);
    ExchangeRunAgrees(lay, crit, pre, maxIt);
    r := Retry(model, plotSizes, factors, nTries, maxIt, crit, pre, overrides, starts, ExchangeRun(lay, crit, pre, maxIt));
  }
}
