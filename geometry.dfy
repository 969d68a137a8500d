/** The bookkeeping of `optimize` (src/optimal_splitk/doe.py): how many blocks
    each stratification level has (`alphas`), how many consecutive runs one block
    spans (`betas`), and where each factor's encoded columns start (`col_start`). */
module Geometry {

  /** One factor of the design: its stratification level (0 changes most often)
      and its categorical level count (1 or less is a continuous factor). */
  datatype Factor = Factor(level: nat, catLvl: int)

  /** Product of a sequence of sizes, multiplied from the left as `cumprod` does. */
  function Prod(s: seq<nat>): nat {
    if s == [] then 1 else Prod(s[..|s| - 1]) * s[|s| - 1]
  }

  /** `alphas[l]`: the number of blocks at level `l`, the product of the plot
      sizes at level `l` and above. */
  function Alphas(plotSizes: seq<nat>): (alphas: seq<nat>)
    ensures |alphas| == |plotSizes|
  {
    seq(|plotSizes|, l requires 0 <= l < |plotSizes| => Prod(plotSizes[l..]))
  }

  /** `betas[l]`: the number of consecutive runs one block at level `l` spans,
      the product of the plot sizes below level `l` (one more entry than levels). */
  function Betas(plotSizes: seq<nat>): (betas: seq<nat>)
    ensures |betas| == |plotSizes| + 1
  {
    seq(|plotSizes| + 1, l requires 0 <= l <= |plotSizes| => Prod(plotSizes[..l]))
  }

  /** Number of encoded columns of a factor: L - 1 for a categorical factor with
      L levels, 1 for a continuous one. */
  function Width(f: Factor): (w: nat)
    ensures w >= 1
    ensures f.catLvl > 1 ==> w == f.catLvl - 1
  {
    if f.catLvl > 1 then f.catLvl - 1 else 1
  }

  /** `col_start`: the exclusive prefix sums of the factors' widths; entry `i` is
      the first column of factor `i` and the last entry the total width. */
  function ColStart(factors: seq<Factor>): (cs: seq<nat>)
    ensures |cs| == |factors| + 1 && cs[0] == 0
    ensures forall i :: 0 <= i < |factors| ==> cs[i + 1] == cs[i] + Width(factors[i])
  {
    if factors == [] then [0]
    else
      var prefix := ColStart(factors[..|factors| - 1]);
      prefix + [prefix[|factors| - 1] + Width(factors[|factors| - 1])]
  }

  /** Number of runs of a design: the product of all plot sizes. */
  function Runs(plotSizes: seq<nat>): nat {
    Prod(plotSizes)
  }

  lemma {:induction false} ProdAppend(a: seq<nat>, b: seq<nat>)
    ensures Prod(a + b) == Prod(a) * Prod(b)
    decreases |b|
  {
    if b == [] {
      assert a + b == a;
    } else {
      var b' := b[..|b| - 1];
      assert (a + b)[..|a + b| - 1] == a + b';
      ProdAppend(a, b');
      calc {
        Prod(a + b);
        Prod(a + b') * b[|b| - 1];
        Prod(a) * Prod(b') * b[|b| - 1];
        Prod(a) * Prod(b);
      }
    }
  }

  lemma {:induction false} ProdPositive(s: seq<nat>)
    requires forall k :: 0 <= k < |s| ==> s[k] >= 1
    ensures Prod(s) >= 1
    decreases |s|
  {
    if s != [] {
      ProdPositive(s[..|s| - 1]);
      MulAtLeastOne(Prod(s[..|s| - 1]), s[|s| - 1]);
    }
  }

  lemma MulAtLeastOne(a: nat, b: nat)
    requires a >= 1 && b >= 1
    ensures a * b >= 1
  {}

  /** For every level, the number of blocks times the block height is the number
      of runs: the blocks of a level exactly fill the design. */
  lemma BlockCountTimesHeight(plotSizes: seq<nat>, level: nat)
    requires level < |plotSizes|
    ensures Alphas(plotSizes)[level] * Betas(plotSizes)[level] == Runs(plotSizes)
  {
    assert plotSizes[..level] + plotSizes[level..] == plotSizes;
    ProdAppend(plotSizes[..level], plotSizes[level..]);
  }

  lemma MulMonotone(a: nat, b: nat, k: nat)
    requires a <= b
    ensures a * k <= b * k
  {}

  /** Block `grp` of a level, rows `grp*jmp .. (grp+1)*jmp`, lies inside the design. */
  lemma BlockInBounds(plotSizes: seq<nat>, level: nat, grp: nat)
    requires level < |plotSizes| && grp < Alphas(plotSizes)[level]
    ensures grp * Betas(plotSizes)[level] <= (grp + 1) * Betas(plotSizes)[level] <= Runs(plotSizes)
  {
    var jmp := Betas(plotSizes)[level];
    BlockCountTimesHeight(plotSizes, level);
    MulMonotone(grp, grp + 1, jmp);
    MulMonotone(grp + 1, Alphas(plotSizes)[level], jmp);
  }

  /** Two different blocks of one level share no row. */
  lemma BlocksDisjoint(jmp: nat, g1: nat, g2: nat, r: nat)
    requires g1 != g2
    ensures !(g1 * jmp <= r < (g1 + 1) * jmp && g2 * jmp <= r < (g2 + 1) * jmp)
  {
    if g1 < g2 {
      MulMonotone(g1 + 1, g2, jmp);
    } else {
      MulMonotone(g2 + 1, g1, jmp);
    }
  }

  /** Every run of the design lies in block `r / jmp` of each level, and that
      block is one of the level's `alphas[level]` blocks: the blocks tile the rows. */
  lemma BlocksTileRows(plotSizes: seq<nat>, level: nat, r: nat)
    requires level < |plotSizes| && r < Runs(plotSizes)
    ensures Betas(plotSizes)[level] >= 1
    ensures var jmp := Betas(plotSizes)[level]; var g := r / jmp;
      g < Alphas(plotSizes)[level] && g * jmp <= r < (g + 1) * jmp
  {
    var jmp, alpha := Betas(plotSizes)[level], Alphas(plotSizes)[level];
    BlockCountTimesHeight(plotSizes, level);
    assert jmp != 0;
    var g := r / jmp;
    assert g * jmp + r % jmp == r;
    assert g * jmp <= r < (g + 1) * jmp;
    if g >= alpha {
      MulMonotone(alpha, g, jmp);
      assert false;
    }
  }

  /** A factor's columns end no later than where any later factor's begin, and
      no later than the total width: the column ranges are disjoint and contiguous. */
  lemma {:induction false} ColumnRangesDisjoint(factors: seq<Factor>, i: nat, k: nat)
    requires i < k <= |factors|
    ensures ColStart(factors)[i] + Width(factors[i]) <= ColStart(factors)[k]
    decreases k - i
  {
    var cs := ColStart(factors);
    if k > i + 1 {
      ColumnRangesDisjoint(factors, i, k - 1);
      assert cs[k] == cs[k - 1] + Width(factors[k - 1]);
    }
  }
}
