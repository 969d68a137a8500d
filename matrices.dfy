/** Dense real matrices as sequences of rows, and the two whole-block edits the
    exchange engine makes to them: overwriting a block of cells with one
    coordinate (`Y[runs, cols] = coord`) and replacing a range of rows
    (`X[runs] = Xi`). */
module Matrices {

  type Matrix = seq<seq<real>>

  /** Every row has exactly `cols` entries. */
  ghost predicate IsRect(m: Matrix, cols: nat) {
    forall r :: 0 <= r < |m| ==> |m[r]| == cols
  }

  /** The contents of a two-dimensional array, row by row. */
  function Rows(a: array2<real>): (m: Matrix)
    reads a
    ensures |m| == a.Length0 && IsRect(m, a.Length1)
    ensures forall r, c :: 0 <= r < a.Length0 && 0 <= c < a.Length1 ==> m[r][c] == a[r, c]
  {
    seq(a.Length0, r reads a => seq(a.Length1, c reads a => if 0 <= r < a.Length0 && 0 <= c < a.Length1 then a[r, c] else 0.0))
  }

  /** The `w` entries of row `r` starting at column `col`. */
  ghost function Cell(m: Matrix, r: nat, col: nat, w: nat): seq<real>
    requires r < |m| && col + w <= |m[r]|
  {
    m[r][col..col + w]
  }

  /** `m` with rows `lo..hi` holding `coord` in columns `col..col+|coord|`. */
  ghost function WithBlock(m: Matrix, lo: nat, hi: nat, col: nat, coord: seq<real>): (res: Matrix)
    requires hi <= |m|
    requires forall r :: lo <= r < hi ==> col + |coord| <= |m[r]|
    ensures |res| == |m|
    ensures forall r :: 0 <= r < |m| ==> |res[r]| == |m[r]|
  {
    seq(|m|, r requires 0 <= r < |m| =>
      if lo <= r < hi then seq(|m[r]|, c requires 0 <= c < |m[r]| => if col <= c < col + |coord| then coord[c - col] else m[r][c])
      else m[r])
  }

  /** Entry `(r, c)` after a block write: the coordinate inside the block, the
      old entry outside it. */
  lemma WithBlockAt(m: Matrix, lo: nat, hi: nat, col: nat, coord: seq<real>, r: nat, c: nat)
    requires hi <= |m|
    requires forall q :: lo <= q < hi ==> col + |coord| <= |m[q]|
    requires r < |m| && c < |m[r]|
    ensures WithBlock(m, lo, hi, col, coord)[r][c] == if lo <= r < hi && col <= c < col + |coord| then coord[c - col] else m[r][c]
  {}

  /** `m` with rows `lo..lo+|rows|` replaced by `rows`. */
  ghost function Splice(m: Matrix, lo: nat, rows: Matrix): (res: Matrix)
    requires lo + |rows| <= |m|
    ensures |res| == |m|
    ensures forall r :: 0 <= r < |m| ==> res[r] == if lo <= r < lo + |rows| then rows[r - lo] else m[r]
  {
    seq(|m|, r requires 0 <= r < |m| => if lo <= r < lo + |rows| then rows[r - lo] else m[r])
  }

  /** Writing a second coordinate over the same block erases the first. */
  lemma WithBlockTwice(m: Matrix, lo: nat, hi: nat, col: nat, a: seq<real>, b: seq<real>)
    requires hi <= |m| && |a| == |b|
    requires forall r :: lo <= r < hi ==> col + |a| <= |m[r]|
    ensures WithBlock(WithBlock(m, lo, hi, col, a), lo, hi, col, b) == WithBlock(m, lo, hi, col, b)
  {
    var once := WithBlock(m, lo, hi, col, a);
    var twice := WithBlock(once, lo, hi, col, b);
    var direct := WithBlock(m, lo, hi, col, b);
    forall r | 0 <= r < |m| ensures twice[r] == direct[r] {
      assert |twice[r]| == |direct[r]|;
    }
  }

  /** Writing into a block the coordinate every row of it already holds changes nothing. */
  lemma WithBlockSame(m: Matrix, lo: nat, hi: nat, col: nat, coord: seq<real>)
    requires hi <= |m|
    requires forall r :: lo <= r < hi ==> col + |coord| <= |m[r]| && m[r][col..col + |coord|] == coord
    ensures WithBlock(m, lo, hi, col, coord) == m
  {
    var res := WithBlock(m, lo, hi, col, coord);
    forall r | 0 <= r < |m| ensures res[r] == m[r] {
      if lo <= r < hi {
        forall c | col <= c < col + |coord| ensures res[r][c] == m[r][c] {
          assert m[r][col..col + |coord|][c - col] == m[r][c];
        }
      }
    }
  }

  /** A cell that lies beside the written columns is untouched by the write. */
  lemma CellBeside(m: Matrix, lo: nat, hi: nat, col: nat, coord: seq<real>, r: nat, col': nat, w': nat)
    requires hi <= |m| && r < |m|
    requires forall q :: lo <= q < hi ==> col + |coord| <= |m[q]|
    requires col' + w' <= |m[r]|
    requires col' + w' <= col || col + |coord| <= col' || r < lo || hi <= r
    ensures Cell(WithBlock(m, lo, hi, col, coord), r, col', w') == Cell(m, r, col', w')
  {
    var res := WithBlock(m, lo, hi, col, coord);
    var a, b := res[r][col'..col' + w'], m[r][col'..col' + w'];
    forall c | 0 <= c < w' ensures a[c] == b[c] {
      assert res[r][col' + c] == m[r][col' + c];
    }
  }

  /** Inside the written block every cell is the written coordinate. */
  lemma CellInside(m: Matrix, lo: nat, hi: nat, col: nat, coord: seq<real>, r: nat)
    requires hi <= |m| && lo <= r < hi
    requires forall q :: lo <= q < hi ==> col + |coord| <= |m[q]|
    ensures Cell(WithBlock(m, lo, hi, col, coord), r, col, |coord|) == coord
  {
    var res := WithBlock(m, lo, hi, col, coord);
    var a := res[r][col..col + |coord|];
    forall c | 0 <= c < |coord| ensures a[c] == coord[c] {
      assert res[r][col + c] == coord[c];
    }
  }

  /** `Y[r, col:col+|coord|] = coord` for one row `r`. */
  method WriteRow(y: array2<real>, r: nat, col: nat, coord: seq<real>)
    requires r < y.Length0 && col + |coord| <= y.Length1
    modifies y
    ensures forall q, c :: 0 <= q < y.Length0 && 0 <= c < y.Length1 ==>
      y[q, c] == if q == r && col <= c < col + |coord| then coord[c - col] else old(y[q, c])
  {
    for c := 0 to |coord|
      invariant forall q, c' :: 0 <= q < y.Length0 && 0 <= c' < y.Length1 ==>
        y[q, c'] == if q == r && col <= c' < col + c then coord[c' - col] else old(y[q, c'])
    {
      y[r, col + c] := coord[c];
    }
  }

  /** `Y[lo:hi, col:col+|coord|] = coord`: every row of the block takes the
      coordinate, every other cell keeps its value. */
  method WriteBlock(y: array2<real>, lo: nat, hi: nat, col: nat, coord: seq<real>)
    requires lo <= hi <= y.Length0 && col + |coord| <= y.Length1
    modifies y
    ensures forall r :: lo <= r < hi ==> col + |coord| <= |old(Rows(y))[r]|
    ensures Rows(y) == WithBlock(old(Rows(y)), lo, hi, col, coord)
  {
    ghost var m := Rows(y);
    for r := lo to hi
      invariant forall q, c :: 0 <= q < y.Length0 && 0 <= c < y.Length1 ==>
        y[q, c] == if lo <= q < r && col <= c < col + |coord| then coord[c - col] else m[q][c]
    {
      WriteRow(y, r, col, coord);
    }
    ghost var w := WithBlock(m, lo, hi, col, coord);
    forall q | 0 <= q < y.Length0 ensures Rows(y)[q] == w[q] {
      assert |Rows(y)[q]| == |w[q]|;
    }
  }

  /** `X[r, :] = Xi[r - lo, :]` for one row `r`. */
  method CopyRow(x: array2<real>, lo: nat, xi: array2<real>, r: nat)
    requires x != xi && lo <= r < lo + xi.Length0 <= x.Length0 && xi.Length1 == x.Length1
    modifies x
    ensures forall q, c :: 0 <= q < x.Length0 && 0 <= c < x.Length1 ==>
      x[q, c] == if q == r then xi[r - lo, c] else old(x[q, c])
  {
    for c := 0 to x.Length1
      invariant forall q, c' :: 0 <= q < x.Length0 && 0 <= c' < x.Length1 ==>
        x[q, c'] == if q == r && c' < c then xi[r - lo, c'] else old(x[q, c'])
    {
      x[r, c] := xi[r - lo, c];
    }
  }

  /** `X[lo:lo+len(Xi)] = Xi`: the rows of `xi` replace those of `x` from row `lo` on. */
  method SpliceRows(x: array2<real>, lo: nat, xi: array2<real>)
    requires x != xi && lo + xi.Length0 <= x.Length0 && xi.Length1 == x.Length1
    modifies x
    ensures Rows(x) == Splice(old(Rows(x)), lo, Rows(xi))
  {
    ghost var m := Rows(x);
    for r := lo to lo + xi.Length0
      invariant forall q, c :: 0 <= q < x.Length0 && 0 <= c < x.Length1 ==>
        x[q, c] == if lo <= q < r then xi[q - lo, c] else m[q][c]
    {
      CopyRow(x, lo, xi, r);
    }
    ghost var w := Splice(m, lo, Rows(xi));
    forall q | 0 <= q < x.Length0 ensures Rows(x)[q] == w[q] {
      assert |Rows(x)[q]| == |w[q]|;
    }
  }

  /** `Y[r, col:col+w]` as a fresh copy. */
  function RowSlice(a: array2<real>, r: nat, col: nat, w: nat): (s: seq<real>)
    reads a
    requires r < a.Length0 && col + w <= a.Length1
    ensures s == Cell(Rows(a), r, col, w)
  {
    seq(w, c requires 0 <= c < w reads a => a[r, col + c])
  }

  /** A fresh array holding the rows of `m`. */
  method FromRows(m: Matrix, cols: nat) returns (a: array2<real>)
    requires IsRect(m, cols)
    ensures fresh(a) && a.Length0 == |m| && a.Length1 == cols
    ensures Rows(a) == m
  {
    a := new real[|m|, cols]((r, c) requires 0 <= r < |m| && 0 <= c < cols => m[r][c]);
    forall r | 0 <= r < |m| ensures Rows(a)[r] == m[r] {
      assert |Rows(a)[r]| == |m[r]|;
    }
  }
}
