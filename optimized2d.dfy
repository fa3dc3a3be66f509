/** `src/matrix/optimized2D.js`: the nested-rows layout with fewer operations and
    explicit loops. Each operation is proved to give the same logical matrix as the
    definitions the full-featured layout is proved against. */
module Optimized2D {
  import opened Results
  import opened Logical
  import Algebra
  import Shapes
  import Cofactor = Determinant
  import NestedLoops

  class Matrix {
    var rows: nat
    var cols: nat
    var data: seq<seq<int>>

    /** The fields describe a rows x cols matrix. */
    ghost predicate Valid()
      reads this
    {
      IsMatrix(data, rows, cols)
    }

    // -------------------------------------------------------------------------
    // Construction

    /** `new Matrix(array)`: rows from the array's length, columns from its first row. */
    constructor (data: seq<seq<int>>)
      requires IsRectangular(data)
      ensures Valid() && this.data == data && rows == |data| && cols == |data[0]|
    {
      rows := |data|;
      cols := |data[0]|;
      this.data := data;
    }

    /** `new Matrix({rows, cols})`: a rows x cols matrix of zeroes. */
    constructor Sized(rows: nat, cols: nat)
      ensures Valid() && this.rows == rows && this.cols == cols
      ensures forall i, j :: 0 <= i < rows && 0 <= j < cols ==> data[i][j] == 0
    {
      this.rows := rows;
      this.cols := cols;
      data := Algebra.Filled(rows, cols, 0);
    }

    /** `new Matrix(result)` for a computed result: a TypeError when `result` has no rows. */
    static method OfRows(d: seq<seq<int>>) returns (r: Result<Matrix>)
      requires d != [] ==> IsRectangular(d)
      ensures d == [] <==> r.Err?
      ensures r.Err? ==> r.error == TypeError
      ensures r.Ok? ==> fresh(r.value) && r.value.Valid() && r.value.data == d
      ensures r.Ok? ==> r.value.rows == |d| && r.value.cols == |d[0]|
    {
      if d == [] {
        return Err(TypeError);
      }
      var m := new Matrix(d);
      return Ok(m);
    }

    /** `fill(value)`: every cell becomes `value`; the shape stays. */
    method Fill(value: int)
      modifies this
      ensures Valid() && rows == old(rows) && cols == old(cols)
      ensures forall i, j :: 0 <= i < rows && 0 <= j < cols ==> data[i][j] == value
    {
      data := Algebra.Filled(rows, cols, value);
    }

    /** `Matrix.from({rows, cols})`: a rows x cols matrix of zeroes. */
    static method From(rows: nat, cols: nat) returns (m: Matrix)
      ensures fresh(m) && m.Valid() && m.rows == rows && m.cols == cols
      ensures forall i, j :: 0 <= i < rows && 0 <= j < cols ==> m.data[i][j] == 0
    {
      m := new Matrix.Sized(rows, cols);
    }

    /** `Matrix.zeroes({rows, cols})`: the same all-zero matrix as `from`. */
    static method Zeroes(rows: nat, cols: nat) returns (m: Matrix)
      ensures fresh(m) && m.Valid() && m.rows == rows && m.cols == cols
      ensures forall i, j :: 0 <= i < rows && 0 <= j < cols ==> m.data[i][j] == 0
    {
      m := new Matrix.Sized(rows, cols);
    }

    /** `Matrix.identity({size})`: 1 exactly on the diagonal; size 0 gives the TypeError
        of `new Matrix([])`. */
    static method Identity(size: nat) returns (r: Result<Matrix>)
      ensures size == 0 <==> r == Err(TypeError)
      ensures r.Ok? ==> fresh(r.value) && r.value.Valid() && r.value.rows == size && r.value.cols == size
      ensures r.Ok? ==> r.value.data == Algebra.Identity(size)
      ensures r.Ok? ==> forall i, j :: 0 <= i < size && 0 <= j < size ==>
        r.value.data[i][j] == if i == j then 1 else 0
    {
      r := OfRows(Algebra.Identity(size));
    }

    // -------------------------------------------------------------------------
    // Iteration

    /** `indexes()`: the row-major sequence of (row, column) pairs. */
    method Indexes() returns (idx: seq<(nat, nat)>)
      requires Valid()
      ensures idx == Logical.Indexes(rows, cols)
    {
      ghost var all := Logical.Indexes(rows, cols);
      idx := [];
      for i := 0 to rows
        invariant |idx| == i * cols <= |all| && idx == all[..|idx|]
      {
        ghost var start := |idx|;
        MulMonotone(rows, i + 1, cols);
        assert start + cols == (i + 1) * cols;
        for j := 0 to cols
          invariant |idx| == start + j && idx == all[..|idx|]
        {
          IndexesAt(rows, cols, i, j);
          assert all[..|idx| + 1] == idx + [(i, j)];
          idx := idx + [(i, j)];
        }
      }
      assert idx == all;
    }

    /** `[Symbol.iterator]()`: the cells, row by row, which is the flattening. */
    method Iterator() returns (vs: seq<int>)
      requires Valid()
      ensures vs == Flatten(data)
    {
      vs := [];
      for i := 0 to rows
        invariant vs == Flatten(data[..i])
      {
        for j := 0 to cols
          invariant vs == Flatten(data[..i]) + data[i][..j]
        {
          assert data[i][..j + 1] == data[i][..j] + [data[i][j]];
          vs := vs + [data[i][j]];
        }
        assert data[..i + 1][..i] == data[..i];
        assert data[i][..cols] == data[i];
      }
      assert data[..rows] == data;
    }

    // -------------------------------------------------------------------------
    // Access

    /** `checkIndex(i, j)`: a RangeError exactly when (i, j) is not a cell. */
    function CheckIndex(i: int, j: int): (o: Outcome)
      reads this
      ensures o.Pass? <==> InBounds(i, j, rows, cols)
      ensures o.Fail? ==> o.error == RangeError
    {
      if i < 0 || i >= rows || j < 0 || j >= cols then Fail(RangeError) else Pass
    }

    /** `get(i, j)`: the cell, after the bounds check. */
    function Get(i: int, j: int): (r: Result<int>)
      reads this
      requires Valid()
      ensures r.Ok? <==> InBounds(i, j, rows, cols)
      ensures r.Err? ==> r.error == RangeError
      ensures r.Ok? ==> r.value == data[i][j]
    {
      match CheckIndex(i, j)
      case Fail(e) => Err(e)
      case Pass => Ok(data[i][j])
    }

    /** `set(i, j, value)`: the bounds check runs first, so a failed `set` changes nothing
        and a successful one changes only cell (i, j), which `get` then returns. */
    method Set(i: int, j: int, value: int) returns (o: Outcome)
      requires Valid()
      modifies this
      ensures Valid() && rows == old(rows) && cols == old(cols)
      ensures o == CheckIndex(i, j)
      ensures o.Fail? ==> data == old(data)
      ensures o.Pass? ==> data[i][j] == value && Get(i, j) == Ok(value)
      ensures o.Pass? ==> forall a, b :: 0 <= a < rows && 0 <= b < cols && (a, b) != (i, j) ==>
        data[a][b] == old(data)[a][b]
    {
      o := CheckIndex(i, j);
      if o.Pass? {
        data := data[i := data[i][j := value]];
      }
    }

    /** `row(i)`: checked as `checkIndex(i, 0)`. */
    function Row(i: int): (r: Result<seq<int>>)
      reads this
      requires Valid()
      ensures r.Ok? <==> 0 <= i < rows && cols > 0
      ensures r.Err? ==> r.error == RangeError
      ensures r.Ok? ==> |r.value| == cols && forall j :: 0 <= j < cols ==> r.value[j] == data[i][j]
    {
      match CheckIndex(i, 0)
      case Fail(e) => Err(e)
      case Pass => Ok(data[i])
    }

    /** `col(j)`: checked as `checkIndex(0, j)`; cell j of every row. */
    function Col(j: int): (r: Result<seq<int>>)
      reads this
      requires Valid()
      ensures r.Ok? <==> 0 < rows && 0 <= j < cols
      ensures r.Err? ==> r.error == RangeError
      ensures r.Ok? ==> |r.value| == rows && forall i :: 0 <= i < rows ==> r.value[i] == data[i][j]
    {
      match CheckIndex(0, j)
      case Fail(e) => Err(e)
      case Pass => var src := data; Ok(seq(|src|, i requires 0 <= i < |src| => src[i][j]))
    }

    // -------------------------------------------------------------------------
    // Arithmetic

    /** `add(matrix)`: a dimension error unless the shapes agree; otherwise the cells
        are summed pairwise. Neither operand changes. */
    method Add(other: Matrix) returns (r: Result<Matrix>)
      requires Valid() && other.Valid()
      ensures rows != other.rows || cols != other.cols ==> r == Err(DimensionMismatch)
      ensures rows == other.rows && cols == other.cols ==> (r.Ok? <==> rows > 0)
      ensures rows == other.rows && cols == other.cols && rows == 0 ==> r == Err(TypeError)
      ensures r.Ok? ==> fresh(r.value) && r.value.Valid() && r.value.rows == rows && r.value.cols == cols
      ensures r.Ok? ==> r.value.data == Algebra.Add(data, other.data)
      ensures r.Ok? ==> forall i, j :: 0 <= i < rows && 0 <= j < cols ==>
        r.value.data[i][j] == data[i][j] + other.data[i][j]
    {
      if rows != other.rows || cols != other.cols {
        return Err(DimensionMismatch);
      }
      r := OfRows(Algebra.Add(data, other.data));
    }

    /** `subtract(matrix)`: as `add`, with the cells subtracted. */
    method Subtract(other: Matrix) returns (r: Result<Matrix>)
      requires Valid() && other.Valid()
      ensures rows != other.rows || cols != other.cols ==> r == Err(DimensionMismatch)
      ensures rows == other.rows && cols == other.cols ==> (r.Ok? <==> rows > 0)
      ensures rows == other.rows && cols == other.cols && rows == 0 ==> r == Err(TypeError)
      ensures r.Ok? ==> fresh(r.value) && r.value.Valid() && r.value.rows == rows && r.value.cols == cols
      ensures r.Ok? ==> r.value.data == Algebra.Sub(data, other.data)
      ensures r.Ok? ==> forall i, j :: 0 <= i < rows && 0 <= j < cols ==>
        r.value.data[i][j] == data[i][j] - other.data[i][j]
    {
      if rows != other.rows || cols != other.cols {
        return Err(DimensionMismatch);
      }
      r := OfRows(Algebra.Sub(data, other.data));
    }

    /** `multiply(matrix)`: a dimension error unless cols == other.rows; otherwise each
        cell is accumulated from 0 over the shared dimension. */
    method Multiply(other: Matrix) returns (r: Result<Matrix>)
      requires Valid() && other.Valid()
      ensures cols != other.rows ==> r == Err(DimensionMismatch)
      ensures cols == other.rows ==> (r.Ok? <==> rows > 0)
      ensures cols == other.rows && rows == 0 ==> r == Err(TypeError)
      ensures r.Ok? ==> fresh(r.value) && r.value.Valid() && r.value.rows == rows && r.value.cols == other.cols
      ensures r.Ok? ==> r.value.data == Algebra.Mul(data, other.data, cols, other.cols)
      ensures r.Ok? ==> forall i, j :: 0 <= i < rows && 0 <= j < other.cols ==>
        r.value.data[i][j] == Algebra.Dot(data, other.data, i, j, cols)
    {
      if cols != other.rows {
        return Err(DimensionMismatch);
      }
      var result := NestedLoops.MultiplyRows(data, other.data, rows, cols, other.cols);
      r := OfRows(result);
    }

    /** `multiplyWithScalar(scalar)`: every cell times `scalar`. */
    method MultiplyWithScalar(scalar: int) returns (r: Result<Matrix>)
      requires Valid()
      ensures rows == 0 <==> r == Err(TypeError)
      ensures r.Ok? ==> fresh(r.value) && r.value.Valid() && r.value.rows == rows && r.value.cols == cols
      ensures r.Ok? ==> r.value.data == Algebra.Scale(data, scalar)
      ensures r.Ok? ==> forall i, j :: 0 <= i < rows && 0 <= j < cols ==> r.value.data[i][j] == data[i][j] * scalar
    {
      r := OfRows(Algebra.Scale(data, scalar));
    }

    // -------------------------------------------------------------------------
    // Transpose, minors and the determinant

    /** `transpose()`: the cols x rows matrix with cell (j, i) = cell (i, j). */
    method Transpose() returns (r: Result<Matrix>)
      requires Valid()
      ensures cols == 0 <==> r == Err(TypeError)
      ensures r.Ok? ==> fresh(r.value) && r.value.Valid() && r.value.rows == cols && r.value.cols == rows
      ensures r.Ok? ==> r.value.data == Shapes.Transpose(data, cols)
      ensures r.Ok? ==> forall i, j :: 0 <= i < rows && 0 <= j < cols ==> r.value.data[j][i] == data[i][j]
    {
      var result := NestedLoops.TransposeRows(data, rows, cols);
      r := OfRows(result);
    }

    /** `minorSubmatrix(row, col)`: row `row` and column `col` removed, the rest in order. */
    method MinorSubmatrix(row: int, col: int) returns (r: Result<Matrix>)
      requires Valid()
      ensures var left := rows - (if 0 <= row < rows then 1 else 0); r.Ok? <==> left > 0
      ensures r.Err? ==> r.error == TypeError
      ensures r.Ok? ==> fresh(r.value) && r.value.Valid() && r.value.data == Shapes.Minor(data, row, col)
      ensures r.Ok? ==> r.value.rows == rows - (if 0 <= row < rows then 1 else 0)
      ensures r.Ok? ==> r.value.cols == cols - (if 0 <= col < cols then 1 else 0)
      ensures r.Ok? && 0 <= row < rows && 0 <= col < cols ==>
        forall a, b :: 0 <= a < rows - 1 && 0 <= b < cols - 1 ==>
          r.value.data[a][b] == data[if a < row then a else a + 1][if b < col then b else b + 1]
    {
      var result := NestedLoops.MinorRows(data, rows, cols, row, col);
      Shapes.MinorDims(data, rows, cols, row, col);
      if 0 <= row < rows && 0 <= col < cols {
        Shapes.MinorAt(data, rows, cols, row, col);
      }
      r := OfRows(result);
    }

    /** `submatrix(r0, c0, r1, c1)`: rows r0..r1 and columns c0..c1, inclusive. An
        empty row range is the TypeError of `new Matrix([])`; an empty column range
        reads no cell and gives r1 - r0 + 1 empty rows; a non-empty one that starts
        before the first row or reaches past the last reads a cell of `undefined`, a
        TypeError. */
    method Submatrix(r0: int, c0: int, r1: int, c1: int) returns (r: Result<Matrix>)
      requires Valid() && (r0 <= r1 && c0 <= c1 && 0 <= r0 < rows ==> 0 <= c0 && c1 < cols)
      ensures r.Ok? <==> r0 <= r1 && (c1 < c0 || (0 <= r0 && r1 < rows))
      ensures r.Err? ==> r.error == TypeError
      ensures r.Ok? ==> fresh(r.value) && r.value.Valid() && r.value.data == Shapes.Submatrix(data, cols, r0, c0, r1, c1)
      ensures r.Ok? ==> r.value.rows == r1 - r0 + 1 && r.value.cols == Shapes.Span(c0, c1)
      ensures r.Ok? ==> forall a, b :: 0 <= a < r1 - r0 + 1 && 0 <= b < Shapes.Span(c0, c1) ==>
        r.value.data[a][b] == data[r0 + a][c0 + b]
    {
      var result := NestedLoops.SubmatrixRows(data, rows, cols, r0, c0, r1, c1);
      if result.Err? {
        return Err(result.error);
      }
      Shapes.SubmatrixAt(data, rows, cols, r0, c0, r1, c1);
      r := OfRows(result.value);
    }

    /** `determinant()`: an error unless square; the closed forms at sizes 1 and 2 and
        the cofactor expansion along row 0 otherwise, each minor's determinant computed
        by the same method on a matrix with one row fewer. */
    method Determinant() returns (r: Result<int>)
      requires Valid()
      ensures rows != cols ==> r == Err(NotSquare)
      ensures rows == cols ==> r == Ok(Cofactor.Det(data, rows))
      decreases rows
    {
      if rows != cols {
        return Err(NotSquare);
      }
      if rows == 1 {
        return Ok(data[0][0]);
      }
      if rows == 2 {
        return Ok(data[0][0] * data[1][1] - data[0][1] * data[1][0]);
      }
      var det := 0;
      for j := 0 to cols
        invariant det == Cofactor.Expansion(data, rows, j)
      {
        var minor := MinorSubmatrix(0, j);
        var sub := minor.value.Determinant();
        Cofactor.ExpansionStep(data, rows, j);
        det := det + (if j % 2 == 0 then 1 else -1) * data[0][j] * sub.value;
      }
      Cofactor.DetIsExpansion(data, rows);
      return Ok(det);
    }
  }
}
