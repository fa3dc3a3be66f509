/** Structural transforms of logical matrices: transpose, rotations, flips, merges,
    minors and submatrices. */
module Shapes {
  import opened Logical

  /** The cols x rows matrix whose cell (j, i) is cell (i, j) of `m`. */
  function Transpose(m: seq<seq<int>>, cols: nat): (r: seq<seq<int>>)
    requires IsMatrix(m, |m|, cols)
    ensures IsMatrix(r, cols, |m|)
  {
    seq(cols, j requires 0 <= j < cols => seq(|m|, i requires 0 <= i < |m| => m[i][j]))
  }

  /** Transposing twice gives back the original matrix. */
  lemma TransposeTwice(m: seq<seq<int>>, rows: nat, cols: nat)
    requires IsMatrix(m, rows, cols)
    ensures Transpose(Transpose(m, cols), rows) == m
  {
    var t := Transpose(Transpose(m, cols), rows);
    forall i | 0 <= i < rows
      ensures t[i] == m[i]
    {
    }
  }

  /** The matrix turned a quarter clockwise: cell (i, j) moves to (j, rows - 1 - i). */
  function RotateClockwise(m: seq<seq<int>>, cols: nat): (r: seq<seq<int>>)
    requires IsMatrix(m, |m|, cols)
    ensures IsMatrix(r, cols, |m|)
  {
    seq(cols, a requires 0 <= a < cols => seq(|m|, b requires 0 <= b < |m| => m[|m| - 1 - b][a]))
  }

  /** The matrix turned a quarter counter-clockwise: cell (i, j) moves to (cols - 1 - j, i). */
  function RotateCounterClockwise(m: seq<seq<int>>, cols: nat): (r: seq<seq<int>>)
    requires IsMatrix(m, |m|, cols)
    ensures IsMatrix(r, cols, |m|)
  {
    seq(cols, a requires 0 <= a < cols => seq(|m|, b requires 0 <= b < |m| => m[b][cols - 1 - a]))
  }

  /** `s` read backwards. */
  function Reverse<T>(s: seq<T>): (r: seq<T>)
    ensures |r| == |s|
  {
    seq(|s|, k requires 0 <= k < |s| => s[|s| - 1 - k])
  }

  /** The reverse of a suffix starts with the reverse of the shorter suffix. */
  lemma ReverseSuffix<T>(s: seq<T>, o: nat)
    requires o < |s|
    ensures Reverse(s[o..]) == Reverse(s[o + 1..]) + [s[o]]
  {
  }

  /** Every row reversed (`flipHorizontal`). */
  function FlipHorizontal(m: seq<seq<int>>): (r: seq<seq<int>>)
    ensures |r| == |m| && forall i :: 0 <= i < |m| ==> |r[i]| == |m[i]|
  {
    seq(|m|, i requires 0 <= i < |m| => Reverse(m[i]))
  }

  /** The rows in reverse order (`flipVertical`). */
  function FlipVertical(m: seq<seq<int>>): (r: seq<seq<int>>)
    ensures |r| == |m|
  {
    Reverse(m)
  }

  /** Rotating clockwise is transposing and then flipping each row; rotating
      counter-clockwise is transposing and then flipping the row order. */
  lemma RotateViaTranspose(m: seq<seq<int>>, rows: nat, cols: nat)
    requires IsMatrix(m, rows, cols)
    ensures RotateClockwise(m, cols) == FlipHorizontal(Transpose(m, cols))
    ensures RotateCounterClockwise(m, cols) == FlipVertical(Transpose(m, cols))
  {
    var cw, t := RotateClockwise(m, cols), Transpose(m, cols);
    forall a | 0 <= a < cols
      ensures cw[a] == FlipHorizontal(t)[a]
    {
    }
    var ccw := RotateCounterClockwise(m, cols);
    forall a | 0 <= a < cols
      ensures ccw[a] == FlipVertical(t)[a]
    {
    }
  }

  /** A clockwise turn followed by a counter-clockwise turn restores the matrix. */
  lemma RotateInverse(m: seq<seq<int>>, rows: nat, cols: nat)
    requires IsMatrix(m, rows, cols)
    ensures RotateCounterClockwise(RotateClockwise(m, cols), rows) == m
  {
    var r := RotateCounterClockwise(RotateClockwise(m, cols), rows);
    forall i | 0 <= i < rows
      ensures r[i] == m[i]
    {
    }
  }

  /** Each flip undoes itself. */
  lemma FlipTwice(m: seq<seq<int>>)
    ensures FlipHorizontal(FlipHorizontal(m)) == m
    ensures FlipVertical(FlipVertical(m)) == m
  {
    forall i | 0 <= i < |m|
      ensures FlipHorizontal(FlipHorizontal(m))[i] == m[i]
    {
    }
  }

  /** The columns of `b` appended to the right of `a`, row by row (`mergeRows`). */
  function MergeRows(a: seq<seq<int>>, b: seq<seq<int>>): (r: seq<seq<int>>)
    requires |a| == |b|
    ensures |r| == |a| && forall i :: 0 <= i < |a| ==> |r[i]| == |a[i]| + |b[i]|
  {
    seq(|a|, i requires 0 <= i < |a| => a[i] + b[i])
  }

  /** Merging side by side and stacking are the same operation seen through a transpose. */
  lemma TransposeMergeRows(a: seq<seq<int>>, b: seq<seq<int>>, rows: nat, ca: nat, cb: nat)
    requires IsMatrix(a, rows, ca) && IsMatrix(b, rows, cb)
    ensures IsMatrix(MergeRows(a, b), rows, ca + cb)
    ensures Transpose(MergeRows(a, b), ca + cb) == Transpose(a, ca) + Transpose(b, cb)
  {
    var l, r := Transpose(MergeRows(a, b), ca + cb), Transpose(a, ca) + Transpose(b, cb);
    forall k | 0 <= k < ca + cb
      ensures l[k] == r[k]
    {
    }
  }

  /** `s` without its element at position `k`; all of `s` when `k` is not a position. */
  function Without<T>(s: seq<T>, k: int): (r: seq<T>)
    decreases |s|
  {
    if |s| == 0 then []
    else Without(s[..|s| - 1], k) + (if |s| - 1 == k then [] else [s[|s| - 1]])
  }

  /** Removing an existing position shortens the sequence by one and shifts what
      follows it down by one; removing a non-position changes nothing. */
  lemma {:induction false} WithoutAt<T>(s: seq<T>, k: int)
    ensures 0 <= k < |s| ==> |Without(s, k)| == |s| - 1
    ensures 0 <= k < |s| ==> forall a :: 0 <= a < |s| - 1 ==> Without(s, k)[a] == s[if a < k then a else a + 1]
    ensures !(0 <= k < |s|) ==> Without(s, k) == s
    decreases |s|
  {
    if |s| > 0 {
      var pre := s[..|s| - 1];
      WithoutAt(pre, k);
      if !(0 <= k < |s|) {
        assert s == pre + [s[|s| - 1]];
      }
    }
  }

  /** The matrix with row `r` and column `c` removed (`minorSubmatrix(r, c)`). */
  function Minor(m: seq<seq<int>>, r: int, c: int): seq<seq<int>> {
    Without(seq(|m|, i requires 0 <= i < |m| => Without(m[i], c)), r)
  }

  /** For an existing row and column, the minor is (rows - 1) x (cols - 1) and its cell
      (a, b) is the cell of `m` that skips row `r` and column `c`: remaining cells
      keep their order. */
  lemma MinorAt(m: seq<seq<int>>, rows: nat, cols: nat, r: nat, c: nat)
    requires IsMatrix(m, rows, cols) && r < rows && c < cols
    ensures IsMatrix(Minor(m, r, c), rows - 1, cols - 1)
    ensures forall a, b :: 0 <= a < rows - 1 && 0 <= b < cols - 1 ==>
      Minor(m, r, c)[a][b] == m[if a < r then a else a + 1][if b < c then b else b + 1]
  {
    var rowsWithout := seq(|m|, i requires 0 <= i < |m| => Without(m[i], c));
    WithoutAt(rowsWithout, r);
    forall i | 0 <= i < rows
      ensures |rowsWithout[i]| == cols - 1
      ensures forall b :: 0 <= b < cols - 1 ==> rowsWithout[i][b] == m[i][if b < c then b else b + 1]
    {
      WithoutAt(m[i], c);
    }
  }

  /** The shape of any minor: removing a row or column that does not exist removes
      nothing. */
  lemma MinorDims(m: seq<seq<int>>, rows: nat, cols: nat, r: int, c: int)
    requires IsMatrix(m, rows, cols)
    ensures IsMatrix(Minor(m, r, c), rows - (if 0 <= r < rows then 1 else 0), cols - (if 0 <= c < cols then 1 else 0))
  {
    var rowsWithout := seq(|m|, i requires 0 <= i < |m| => Without(m[i], c));
    WithoutAt(rowsWithout, r);
    forall i | 0 <= i < rows
      ensures |rowsWithout[i]| == cols - (if 0 <= c < cols then 1 else 0)
    {
      WithoutAt(m[i], c);
    }
  }

  /** The shape half of `MinorAt`, without the cell formula. */
  lemma MinorShape(m: seq<seq<int>>, rows: nat, cols: nat, r: nat, c: nat)
    requires IsMatrix(m, rows, cols) && r < rows && c < cols
    ensures IsMatrix(Minor(m, r, c), rows - 1, cols - 1)
  {
    MinorAt(m, rows, cols, r, c);
  }

  /** The length of the inclusive range lo..hi: zero when it is empty. */
  function Span(lo: int, hi: int): nat {
    if lo <= hi then hi - lo + 1 else 0
  }

  /** Rows r0..r1 and columns c0..c1 of `m`, both ranges inclusive (`submatrix`); an
      empty range contributes no rows or no columns, and reads no cell, so only a
      range of cells needs to lie inside the matrix. */
  function Submatrix(m: seq<seq<int>>, cols: nat, r0: int, c0: int, r1: int, c1: int): (s: seq<seq<int>>)
    requires IsMatrix(m, |m|, cols) && (r0 <= r1 && c0 <= c1 ==> 0 <= r0 && r1 < |m| && 0 <= c0 && c1 < cols)
    ensures IsMatrix(s, Span(r0, r1), Span(c0, c1))
  {
    seq(Span(r0, r1), a requires 0 <= a < Span(r0, r1) => if c0 <= c1 then m[r0 + a][c0..c1 + 1] else [])
  }

  /** Cell (a, b) of the submatrix is cell (r0 + a, c0 + b) of the matrix. */
  lemma SubmatrixAt(m: seq<seq<int>>, rows: nat, cols: nat, r0: int, c0: int, r1: int, c1: int)
    requires IsMatrix(m, rows, cols) && (r0 <= r1 && c0 <= c1 ==> 0 <= r0 && r1 < rows && 0 <= c0 && c1 < cols)
    ensures forall a, b :: 0 <= a < Span(r0, r1) && 0 <= b < Span(c0, c1) ==>
      0 <= r0 + a < rows && 0 <= c0 + b < cols && Submatrix(m, cols, r0, c0, r1, c1)[a][b] == m[r0 + a][c0 + b]
  {
    var s := Submatrix(m, cols, r0, c0, r1, c1);
    forall a, b | 0 <= a < Span(r0, r1) && 0 <= b < Span(c0, c1)
      ensures 0 <= r0 + a < rows && 0 <= c0 + b < cols && s[a][b] == m[r0 + a][c0 + b]
    {
      assert s[a] == m[r0 + a][c0..c1 + 1];
    }
  }

  /** The submatrix spanning every row and column is the matrix itself. */
  lemma SubmatrixWhole(m: seq<seq<int>>, rows: nat, cols: nat)
    requires IsMatrix(m, rows, cols) && rows > 0 && cols > 0
    ensures Submatrix(m, cols, 0, 0, rows - 1, cols - 1) == m
  {
    var s := Submatrix(m, cols, 0, 0, rows - 1, cols - 1);
    forall i | 0 <= i < rows
      ensures s[i] == m[i]
    {
    }
  }

  /** Removing the first row and column leaves the submatrix that starts at (1, 1):
      the two independent definitions agree. */
  lemma MinorOfCorner(m: seq<seq<int>>, rows: nat, cols: nat)
    requires IsMatrix(m, rows, cols) && rows >= 2 && cols >= 2
    ensures Minor(m, 0, 0) == Submatrix(m, cols, 1, 1, rows - 1, cols - 1)
  {
    MinorAt(m, rows, cols, 0, 0);
    var mi, su := Minor(m, 0, 0), Submatrix(m, cols, 1, 1, rows - 1, cols - 1);
    forall a | 0 <= a < rows - 1
      ensures mi[a] == su[a]
    {
      forall b | 0 <= b < cols - 1
        ensures mi[a][b] == su[a][b]
      {
        assert mi[a][b] == m[a + 1][b + 1];
      }
    }
  }
}
