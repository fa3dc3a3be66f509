/** The result-building loops shared by the two nested-rows layouts (`src/matrix.js` and
    `src/matrix/optimized2D.js` run the same loops for `multiply`, `transpose`,
    `minorSubmatrix` and `submatrix`). Each method is proved to build exactly the
    logical matrix its specification function defines. */
module NestedLoops {
  import opened Logical
  import opened Algebra
  import opened Shapes
  import opened Results

  /** The triple loop of `multiply`: cell (i, j) starts at 0 and accumulates
      a[i][k] * b[k][j] for k = 0, 1, ..., inner - 1. */
  method MultiplyRows(a: seq<seq<int>>, b: seq<seq<int>>, rows: nat, inner: nat, bcols: nat)
    returns (r: seq<seq<int>>)
    requires IsMatrix(a, rows, inner) && IsMatrix(b, inner, bcols)
    ensures r == Mul(a, b, inner, bcols)
  {
    ghost var product := Mul(a, b, inner, bcols);
    r := [];
    var i := 0;
    while i < rows
      invariant 0 <= i <= rows
      invariant r == product[..i]
    {
      var row: seq<int> := [];
      var j := 0;
      while j < bcols
        invariant 0 <= j <= bcols
        invariant row == product[i][..j]
      {
        var cell := 0;
        var k := 0;
        while k < inner
          invariant 0 <= k <= inner
          invariant cell == Dot(a, b, i, j, k)
        {
          cell := cell + a[i][k] * b[k][j];
          k := k + 1;
        }
        row := row + [cell];
        j := j + 1;
      }
      assert row == product[i];
      r := r + [row];
      i := i + 1;
    }
  }

  /** The double loop of `transpose`: row i of the result collects column i. */
  method TransposeRows(m: seq<seq<int>>, rows: nat, cols: nat) returns (r: seq<seq<int>>)
    requires IsMatrix(m, rows, cols)
    ensures r == Transpose(m, cols)
  {
    ghost var t := Transpose(m, cols);
    r := [];
    var i := 0;
    while i < cols
      invariant 0 <= i <= cols
      invariant r == t[..i]
    {
      var row: seq<int> := [];
      var j := 0;
      while j < rows
        invariant 0 <= j <= rows
        invariant row == t[i][..j]
      {
        row := row + [m[j][i]];
        j := j + 1;
      }
      assert row == t[i];
      r := r + [row];
      i := i + 1;
    }
  }

  /** The loop of `minorSubmatrix(row, col)`: every row except `row` is copied without
      its element in column `col`. */
  method MinorRows(m: seq<seq<int>>, rows: nat, cols: nat, row: int, col: int) returns (r: seq<seq<int>>)
    requires IsMatrix(m, rows, cols)
    ensures r == Minor(m, row, col)
  {
    r := [];
    var i := 0;
    while i < rows
      invariant 0 <= i <= rows
      invariant r == Minor(m[..i], row, col)
    {
      if i != row {
        var newRow: seq<int> := [];
        var j := 0;
        while j < cols
          invariant 0 <= j <= cols
          invariant newRow == Without(m[i][..j], col)
        {
          if j != col {
            newRow := newRow + [m[i][j]];
          }
          assert m[i][..j + 1][..j] == m[i][..j];
          j := j + 1;
        }
        assert m[i][..cols] == m[i];
        r := r + [newRow];
      }
      MinorGrow(m, i, row, col);
      i := i + 1;
    }
    assert m[..rows] == m;
  }

  /** The minor of a longer prefix extends the minor of the shorter one by the new row,
      unless that row is the one removed. */
  lemma MinorGrow(m: seq<seq<int>>, i: nat, row: int, col: int)
    requires i < |m|
    ensures Minor(m[..i + 1], row, col) ==
      Minor(m[..i], row, col) + (if i == row then [] else [Without(m[i], col)])
  {
    var longer := seq(i + 1, t requires 0 <= t < i + 1 => Without(m[..i + 1][t], col));
    var shorter := seq(i, t requires 0 <= t < i => Without(m[..i][t], col));
    assert longer[..i] == shorter;
  }

  /** The double loop of `submatrix(r0, c0, r1, c1)`: rows r0..r1, each cut to
      columns c0..c1. An empty column range reads no cell, so every row range gives
      empty rows; otherwise the first row outside the matrix, before the first or past
      the last, is `this.data[i]` == `undefined`, and reading a cell of it is a
      TypeError. The bounds are any integers; the columns must lie inside the matrix
      once a row inside it is read. */
  method SubmatrixRows(m: seq<seq<int>>, rows: nat, cols: nat, r0: int, c0: int, r1: int, c1: int)
    returns (r: Result<seq<seq<int>>>)
    requires IsMatrix(m, rows, cols) && (r0 <= r1 && c0 <= c1 && 0 <= r0 < rows ==> 0 <= c0 && c1 < cols)
    ensures r.Ok? <==> !(r0 <= r1 && c0 <= c1 && (r0 < 0 || rows <= r1))
    ensures r.Err? ==> r.error == TypeError
    ensures r.Ok? ==> r.value == Submatrix(m, cols, r0, c0, r1, c1)
  {
    var result: seq<seq<int>> := [];
    var i := r0;
    while i <= r1
      invariant r0 <= i <= r0 + Span(r0, r1)
      invariant c0 <= c1 && r0 < i ==> 0 <= r0 && i <= rows
      invariant |result| == i - r0
      invariant forall a :: 0 <= a < |result| ==> result[a] == if c0 <= c1 then m[r0 + a][c0..c1 + 1] else []
    {
      var newRow: seq<int> := [];
      var j := c0;
      while j <= c1
        invariant c0 <= j <= c0 + Span(c0, c1)
        invariant c0 < j ==> 0 <= i < rows
        invariant |newRow| == j - c0 && forall b :: 0 <= b < |newRow| ==> 0 <= i < rows && newRow[b] == m[i][c0 + b]
      {
        if i < 0 || i >= rows {
          return Err(TypeError);
        }
        newRow := newRow + [m[i][j]];
        j := j + 1;
      }
      result := result + [newRow];
      i := i + 1;
    }
    assert |result| == Span(r0, r1);
    r := Ok(result);
  }
}
