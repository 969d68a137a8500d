/** `x2fx` (src/optimal_splitk/doe.py): expanding a design matrix into the model
    matrix of a polynomial model given as a table of per-factor exponents. */
module ModelMatrix {
  import opened Matrices

  /** A model: one row per term, entry `j` the exponent of factor column `j`. */
  type Model = seq<seq<nat>>

  /** `v` raised to the natural power `e` (`v ** e`): the power 0 is 1 and the
      power 1 is `v` itself, so plain multiplication for exponent 1 agrees. */
  function Pow(v: real, e: nat): (p: real)
    ensures e == 0 ==> p == 1.0
    ensures e == 1 ==> p == v
  {
    if e == 0 then 1.0 else v * Pow(v, e - 1)
  }

  /** The value of one model term on one run: the product over the term's
      columns `j` of `row[j]` raised to the term's exponent for `j`, accumulated
      from the left. */
  function Monomial(row: seq<real>, term: seq<nat>): (m: real)
    requires |term| <= |row|
    ensures |term| > 0 && term[|term| - 1] == 0 ==> m == Monomial(row, term[..|term| - 1])
  {
    if |term| == 0 then 1.0
    else Monomial(row, term[..|term| - 1]) * Pow(row[|term| - 1], term[|term| - 1])
  }

  /** Every term mentions no more columns than every row has. */
  ghost predicate Covers(ys: Matrix, model: Model) {
    forall r, t :: 0 <= r < |ys| && 0 <= t < |model| ==> |model[t]| <= |ys[r]|
  }

  /** The model matrix: one row per run, one column per term. */
  ghost function Expand(ys: Matrix, model: Model): (xs: Matrix)
    requires Covers(ys, model)
    ensures |xs| == |ys| && IsRect(xs, |model|)
  {
    seq(|ys|, r requires 0 <= r < |ys| => seq(|model|, t requires 0 <= t < |model| => Monomial(ys[r], model[t])))
  }

  /** The intercept: a term whose exponents are all zero is the constant 1. */
  lemma {:induction false} InterceptColumn(row: seq<real>, term: seq<nat>)
    requires |term| <= |row|
    requires forall j :: 0 <= j < |term| ==> term[j] == 0
    ensures Monomial(row, term) == 1.0
    decreases |term|
  {
    if |term| > 0 {
      InterceptColumn(row, term[..|term| - 1]);
    }
  }

  /** A main-effect term (exponent 1 for column `k`, 0 elsewhere) reproduces that
      column of the design. */
  lemma {:induction false} MainEffectColumn(row: seq<real>, term: seq<nat>, k: nat)
    requires |term| <= |row| && k < |term|
    requires forall j :: 0 <= j < |term| ==> term[j] == if j == k then 1 else 0
    ensures Monomial(row, term) == row[k]
    decreases |term|
  {
    var n := |term| - 1;
    if n == k {
      InterceptColumn(row, term[..n]);
      assert Pow(row[k], 1) == row[k];
    } else {
      MainEffectColumn(row, term[..n], k);
    }
  }

  /** Row `r` of the model matrix depends on row `r` of the design only, so the
      model matrix of a slice of runs is the same slice of the model matrix. */
  lemma ExpandSlice(ys: Matrix, model: Model, lo: nat, hi: nat)
    requires Covers(ys, model) && lo <= hi <= |ys|
    ensures Covers(ys[lo..hi], model)
    ensures Expand(ys[lo..hi], model) == Expand(ys, model)[lo..hi]
  {
    var a, b := Expand(ys[lo..hi], model), Expand(ys, model)[lo..hi];
    forall r | 0 <= r < hi - lo ensures a[r] == b[r] {
      assert ys[lo..hi][r] == ys[lo + r];
    }
  }

  /** One column `j` of the running product: every run's entry `p[r]` is
      multiplied by `y[lo + r, j]` raised to exponent `e` (plain
      multiplication when `e` is 1). */
  method MultiplyColumn(p: array<real>, y: array2<real>, lo: nat, j: nat, e: nat)
    requires lo + p.Length <= y.Length0 && j < y.Length1
    modifies p
    ensures forall r :: 0 <= r < p.Length ==> p[r] == old(p[r]) * Pow(y[lo + r, j], e)
  {
    for r := 0 to p.Length
      invariant forall q :: 0 <= q < r ==> p[q] == old(p[q]) * Pow(y[lo + q, j], e)
      invariant forall q :: r <= q < p.Length ==> p[q] == old(p[q])
    {
      if e == 1 {
        assert Pow(y[lo + r, j], 1) == y[lo + r, j];
        p[r] := p[r] * y[lo + r, j];
      } else {
        p[r] := p[r] * Pow(y[lo + r, j], e);
      }
    }
  }

  /** The running product `p` of `x2fx` for one term over runs `lo..hi`:
      starting from ones, each column with a nonzero exponent multiplies in. */
  method TermColumn(y: array2<real>, lo: nat, hi: nat, term: seq<nat>, ghost ys: Matrix) returns (p: array<real>)
    requires lo <= hi <= y.Length0 && |term| <= y.Length1
    requires |ys| == hi - lo && IsRect(ys, y.Length1)
    requires forall r, c :: 0 <= r < hi - lo && 0 <= c < y.Length1 ==> ys[r][c] == y[lo + r, c]
    ensures fresh(p) && p.Length == hi - lo
    ensures forall r :: 0 <= r < hi - lo ==> p[r] == Monomial(ys[r], term)
  {
    var n := hi - lo;
    p := new real[n](_ => 1.0);
    for j := 0 to |term|
      invariant forall r :: 0 <= r < n ==> p[r] == Monomial(ys[r], term[..j])
    {
      assert term[..j + 1][..j] == term[..j];
      if term[j] != 0 {
        MultiplyColumn(p, y, lo, j, term[j]);
      }
      forall r | 0 <= r < n ensures p[r] == Monomial(ys[r], term[..j + 1]) {
        assert y[lo + r, j] == ys[r][j];
      }
    }
    assert term[..|term|] == term;
  }

  /** `X[:, t] = p`: column `t` of `x` takes the entries of `p`; the other
      columns are unchanged. */
  method SetColumn(x: array2<real>, t: nat, p: array<real>)
    requires t < x.Length1 && p.Length == x.Length0
    modifies x
    ensures forall r :: 0 <= r < x.Length0 ==> x[r, t] == p[r]
    ensures forall r, c :: 0 <= r < x.Length0 && 0 <= c < x.Length1 && c != t ==> x[r, c] == old(x[r, c])
  {
    for r := 0 to x.Length0
      invariant forall q :: 0 <= q < r ==> x[q, t] == p[q]
      invariant forall q, c :: 0 <= q < x.Length0 && 0 <= c < x.Length1 && (c != t || r <= q) ==> x[q, c] == old(x[q, c])
    {
      x[r, t] := p[r];
    }
  }

  /** `x2fx(Y[lo:hi], model)`: allocates the model matrix of runs `lo..hi` and
      fills column `i` with the running product of term `i`. */
  method X2fx(y: array2<real>, lo: nat, hi: nat, model: Model) returns (x: array2<real>)
    requires lo <= hi <= y.Length0
    requires forall t :: 0 <= t < |model| ==> |model[t]| <= y.Length1
    ensures fresh(x) && x.Length0 == hi - lo && x.Length1 == |model|
    ensures Covers(Rows(y)[lo..hi], model)
    ensures Rows(x) == Expand(Rows(y)[lo..hi], model)
  {
    ghost var ys := Rows(y)[lo..hi];
    var n := hi - lo;
    x := new real[n, |model|];
    for i := 0 to |model|
      invariant forall r, t :: 0 <= r < n && 0 <= t < i ==> x[r, t] == Monomial(ys[r], model[t])
    {
      var p := TermColumn(y, lo, hi, model[i], ys);
      SetColumn(x, i, p);
    }
    ghost var xs := Expand(ys, model);
    forall r | 0 <= r < n ensures Rows(x)[r] == xs[r] {
      assert |Rows(x)[r]| == |xs[r]|;
    }
  }
}
