/** `generate_coordinates` (src/optimal_splitk/doe.py): the finite set of
    candidate settings the exchange tries for one factor. */
module Coordinates {
  import opened Matrices
  import opened Geometry
  import opened Wrappers

  /** A numpy array of size zero: no row holds an entry (`[]`, `[[]]`, ...). */
  predicate IsEmptyArray(d: Matrix) {
    forall k :: 0 <= k < |d| ==> |d[k]| == 0
  }

  /** The default override `np.array([[]])`, which has size zero. */
  const NoOverride: Matrix := [[]]

  /** Row `k` of the `n`-by-`n` identity matrix. */
  function UnitRow(n: nat, k: nat): seq<real> {
    seq(n, c => if c == k then 1.0 else 0.0)
  }

  /** Effect coding of a categorical factor with `levels` levels: the identity
      of size `levels - 1` followed by one row of -1 (the reference level). */
  function EffectCoding(levels: nat): (m: Matrix)
    requires levels >= 2
    ensures |m| == levels && IsRect(m, levels - 1)
    ensures forall k, c :: k == levels - 1 && 0 <= c < levels - 1 ==> m[k][c] == -1.0
  {
    seq(levels - 1, k requires 0 <= k < levels - 1 => UnitRow(levels - 1, k)) + [seq(levels - 1, _ => -1.0)]
  }

  /** The candidate coordinates of a factor: a non-empty override verbatim;
      otherwise the grid -1, 0, 1 for a continuous factor (`catLvl <= 1`) and the
      effect coding for a categorical one. */
  function GenerateCoordinates(catLvl: int, default: Matrix): (coords: Matrix)
    ensures !IsEmptyArray(default) ==> coords == default
    ensures IsEmptyArray(default) && catLvl <= 1 ==> coords == [[-1.0], [0.0], [1.0]]
    ensures IsEmptyArray(default) && catLvl > 1 ==>
      |coords| == catLvl && IsRect(coords, catLvl - 1) && coords == EffectCoding(catLvl)
  {
    if IsEmptyArray(default) then
      if catLvl <= 1 then [[-1.0], [0.0], [1.0]] else EffectCoding(catLvl)
    else default
  }

  /** The rows of the effect coding: row `k < L-1` is the `k`-th unit vector and
      the last row is all -1. */
  lemma EffectCodingRows(levels: nat, k: nat, c: nat)
    requires levels >= 2 && k < levels && c < levels - 1
    ensures |EffectCoding(levels)| == levels && |EffectCoding(levels)[k]| == levels - 1
    ensures EffectCoding(levels)[k][c] == if k == levels - 1 then -1.0 else if c == k then 1.0 else 0.0
  {}

  /** The effect-coded rows are pairwise distinct, so every categorical level has
      its own coordinate. */
  lemma EffectCodesDistinct(levels: nat, a: nat, b: nat)
    requires levels >= 2 && a < b < levels
    ensures EffectCoding(levels)[a] != EffectCoding(levels)[b]
  {
    EffectCodingRows(levels, a, a);
    EffectCodingRows(levels, b, a);
    assert EffectCoding(levels)[a][a] != EffectCoding(levels)[b][a];
  }

  /** A three-level factor gets [1, 0], [0, 1], [-1, -1]. */
  lemma ThreeLevelCoding()
    ensures GenerateCoordinates(3, NoOverride) == [[1.0, 0.0], [0.0, 1.0], [-1.0, -1.0]]
  {
    var coords := GenerateCoordinates(3, NoOverride);
    assert coords[0] == [1.0, 0.0];
    assert coords[1] == [0.0, 1.0];
    assert coords[2] == [-1.0, -1.0];
  }

  /** The generated coordinates of a factor without an override have exactly the
      factor's encoded width, the width its columns are given by `ColStart`. */
  lemma GeneratedWidth(f: Factor, k: nat)
    requires k < |GenerateCoordinates(f.catLvl, NoOverride)|
    ensures |GenerateCoordinates(f.catLvl, NoOverride)[k]| == Width(f)
  {}

  /** The candidate set of every factor: generated, or taken from the
      per-factor overrides when those are given. */
  function CoordinateSets(factors: seq<Factor>, overrides: Option<seq<Matrix>>): (sets: seq<Matrix>)
    requires overrides.Some? ==> |overrides.value| >= |factors|
    ensures |sets| == |factors|
    ensures forall i :: 0 <= i < |factors| ==>
      sets[i] == GenerateCoordinates(factors[i].catLvl, if overrides.Some? then overrides.value[i] else NoOverride)
  {
    seq(|factors|, i requires 0 <= i < |factors| =>
      GenerateCoordinates(factors[i].catLvl, if overrides.Some? then overrides.value[i] else NoOverride))
  }
}
