/** `src/matrix/base.js`: `add`, `subtract` and `multiply` written only against a
    backend's `get`, `set` and `sparseFrom`. The backend is modelled as a grid of
    optional cells: `sparseFrom` gives the shape and no written cell (`None`), `set`
    writes one cell after a bounds check, and `get` reads one back. */
module Base {
  import opened Results
  import Logical
  import Algebra

  /** `indexes()`: the nested loop over rows and columns yields the row-major pairs. */
  method Indexes(rows: nat, cols: nat) returns (idx: seq<(nat, nat)>)
    ensures idx == Logical.Indexes(rows, cols)
  {
    ghost var all := Logical.Indexes(rows, cols);
    idx := [];
    for i := 0 to rows
      invariant |idx| == i * cols <= |all| && idx == all[..|idx|]
    {
      ghost var start := |idx|;
      Logical.MulMonotone(rows, i + 1, cols);
      assert start + cols == (i + 1) * cols;
      for j := 0 to cols
        invariant |idx| == start + j && idx == all[..|idx|]
      {
        Logical.IndexesAt(rows, cols, i, j);
        assert all[..|idx| + 1] == idx + [(i, j)];
        idx := idx + [(i, j)];
      }
    }
    assert idx == all;
  }

  /** `g` has `rows` rows of `cols` optional cells. */
  predicate IsGrid(g: seq<seq<Option<int>>>, rows: nat, cols: nat) {
    |g| == rows && forall i :: 0 <= i < rows ==> |g[i]| == cols
  }

  /** The cells written so far by a row-major walk that writes `want` cell by cell:
      every cell before offset `k` holds its value and every later cell is unwritten. */
  ghost predicate WrittenUpTo(g: seq<seq<Option<int>>>, rows: nat, cols: nat, k: nat, want: seq<seq<int>>) {
    IsGrid(g, rows, cols) && Logical.IsMatrix(want, rows, cols) &&
    forall a, b :: 0 <= a < rows && 0 <= b < cols ==>
      g[a][b] == if Logical.Offset(a, b, cols) < k then Some(want[a][b]) else None
  }

  /** Writing the cell at offset k extends the written prefix by one cell. */
  lemma WrittenStep(g: seq<seq<Option<int>>>, rows: nat, cols: nat, k: nat, want: seq<seq<int>>, i: nat, j: nat)
    requires WrittenUpTo(g, rows, cols, k, want) && i < rows && j < cols && Logical.Offset(i, j, cols) == k
    ensures WrittenUpTo(g[i := g[i][j := Some(want[i][j])]], rows, cols, k + 1, want)
  {
    var h := g[i := g[i][j := Some(want[i][j])]];
    forall a, b | 0 <= a < rows && 0 <= b < cols
      ensures h[a][b] == if Logical.Offset(a, b, cols) < k + 1 then Some(want[a][b]) else None
    {
      if (a, b) != (i, j) {
        Logical.PosOffset(a, b, cols);
        Logical.PosOffset(i, j, cols);
      }
    }
  }

  /** The partial product cells of `multiply` written before position (i, j) of its
      loops: row x, column y holds the sum of products once the loops have passed it,
      and nothing before. The grid is gcols wide, the product bcols wide. */
  ghost predicate ProductBefore(g: seq<seq<Option<int>>>, a: seq<seq<int>>, b: seq<seq<int>>,
                                rows: nat, gcols: nat, inner: nat, bcols: nat, i: nat, j: nat) {
    IsGrid(g, rows, gcols) && Logical.IsMatrix(a, rows, inner) && Logical.IsMatrix(b, inner, bcols) && j <= bcols &&
    forall x, y :: 0 <= x < rows && 0 <= y < gcols ==>
      g[x][y] == if (x < i && y < bcols) || (x == i && y < j) then Some(Algebra.Dot(a, b, x, y, inner)) else None
  }

  /** Writing the product cell at (i, j) moves the loops on to (i, j + 1). */
  lemma ProductStep(g: seq<seq<Option<int>>>, a: seq<seq<int>>, b: seq<seq<int>>,
                    rows: nat, gcols: nat, inner: nat, bcols: nat, i: nat, j: nat, v: int)
    requires ProductBefore(g, a, b, rows, gcols, inner, bcols, i, j)
    requires i < rows && j < bcols && j < gcols && v == Algebra.Dot(a, b, i, j, inner)
    ensures ProductBefore(g[i := g[i][j := Some(v)]], a, b, rows, gcols, inner, bcols, i, j + 1)
  {
  }

  /** What the as-written `multiply` produces: a grid of the receiver's shape
      rows x inner in which column j < bcols holds the sums of products and any further
      column stays unwritten; a RangeError when some row exists and the product is wider
      than the receiver, because then `set` is called past the last column. */
  function WrittenProduct(a: seq<seq<int>>, b: seq<seq<int>>, rows: nat, inner: nat, bcols: nat)
    : (r: Result<seq<seq<Option<int>>>>)
    requires Logical.IsMatrix(a, rows, inner) && Logical.IsMatrix(b, inner, bcols)
    ensures r.Ok? ==> IsGrid(r.value, rows, inner)
  {
    if rows > 0 && bcols > inner then Err(RangeError)
    else Ok(seq(rows, i requires 0 <= i < rows =>
           seq(inner, j requires 0 <= j < inner => if j < bcols then Some(Algebra.Dot(a, b, i, j, inner)) else None)))
  }

  /** The as-written product against the true one: it fails exactly when some row
      exists and the product is wider than the receiver; otherwise the cells of the true
      product are there, the columns past it are holes, and it is the true product
      exactly when the two widths agree. */
  lemma WrittenProductVersusMul(a: seq<seq<int>>, b: seq<seq<int>>, rows: nat, inner: nat, bcols: nat)
    requires Logical.IsMatrix(a, rows, inner) && Logical.IsMatrix(b, inner, bcols)
    ensures WrittenProduct(a, b, rows, inner, bcols).Err? <==> rows > 0 && bcols > inner
    ensures WrittenProduct(a, b, rows, inner, bcols).Ok? ==>
      var g, p := WrittenProduct(a, b, rows, inner, bcols).value, Algebra.Mul(a, b, inner, bcols);
      (forall i, j :: 0 <= i < rows && 0 <= j < bcols ==> g[i][j] == Some(p[i][j])) &&
      (forall i, j :: 0 <= i < rows && bcols <= j < inner ==> g[i][j] == None)
    ensures rows > 0 && bcols < inner ==>
      WrittenProduct(a, b, rows, inner, bcols).Ok? && WrittenProduct(a, b, rows, inner, bcols).value[0][bcols] == None
  {
  }

  /** The two ways the receiver's shape shows: [[1, 2]] x [[3], [4]] leaves a hole
      beside the single product cell 11, and [[5]] x [[1, 2]] fails although the
      product [[5, 10]] exists. */
  lemma MultiplyShapeCounterexample()
    ensures WrittenProduct([[1, 2]], [[3], [4]], 1, 2, 1) == Ok([[Some(11), None]])
    ensures Algebra.Mul([[1, 2]], [[3], [4]], 2, 1) == [[11]]
    ensures WrittenProduct([[5]], [[1, 2]], 1, 1, 2) == Err(RangeError)
    ensures Algebra.Mul([[5]], [[1, 2]], 1, 2) == [[5, 10]]
  {
    var a, b := [[1, 2]], [[3], [4]];
    assert Algebra.Dot(a, b, 0, 0, 1) == 3;
    assert Algebra.Dot(a, b, 0, 0, 2) == 11;
    var g := WrittenProduct(a, b, 1, 2, 1).value;
    assert g[0] == [Some(11), None];
    assert g == [[Some(11), None]];
    assert Algebra.Mul(a, b, 2, 1)[0] == [11];
    var c, d := [[5]], [[1, 2]];
    assert Algebra.Dot(c, d, 0, 0, 1) == 5;
    assert Algebra.Dot(c, d, 0, 1, 1) == 10;
    assert Algebra.Mul(c, d, 1, 2)[0] == [5, 10];
  }

  class Backend {
    var rows: nat
    var cols: nat
    var cells: seq<seq<Option<int>>>

    /** One optional cell per position of the shape. */
    ghost predicate Valid()
      reads this
    {
      IsGrid(cells, rows, cols)
    }

    /** Every cell has been written. */
    ghost predicate Dense()
      reads this
      requires Valid()
    {
      forall i, j :: 0 <= i < rows && 0 <= j < cols ==> cells[i][j].Some?
    }

    /** The logical matrix a fully written backend holds. */
    ghost function Matrix(): (m: seq<seq<int>>)
      reads this
      requires Valid() && Dense()
      ensures Logical.IsMatrix(m, rows, cols)
      ensures forall i, j :: 0 <= i < rows && 0 <= j < cols ==> cells[i][j] == Some(m[i][j])
    {
      var g, n, c := cells, rows, cols;
      seq(n, i requires 0 <= i < n => seq(c, j requires 0 <= j < c => g[i][j].value))
    }

    /** `sparseFrom({rows, cols})`: the shape, and no cell written yet. */
    constructor SparseFrom(rows: nat, cols: nat)
      ensures Valid() && this.rows == rows && this.cols == cols
      ensures forall i, j :: 0 <= i < rows && 0 <= j < cols ==> cells[i][j] == None
    {
      this.rows := rows;
      this.cols := cols;
      cells := seq(rows, _ => seq(cols, _ => None));
    }

    /** `get(i, j)`: a RangeError unless (i, j) is a cell, which is then read back,
        written or not. */
    function Get(i: int, j: int): (r: Result<Option<int>>)
      reads this
      requires Valid()
      ensures r.Ok? <==> Logical.InBounds(i, j, rows, cols)
      ensures r.Err? ==> r.error == RangeError
      ensures r.Ok? ==> r.value == cells[i][j]
    {
      if 0 <= i < rows && 0 <= j < cols then Ok(cells[i][j]) else Err(RangeError)
    }

    /** `set(i, j, value)`: the bounds check comes first, so a failed `set` writes
        nothing; a successful one writes exactly cell (i, j). */
    method Set(i: int, j: int, value: int) returns (o: Outcome)
      requires Valid()
      modifies this
      ensures Valid() && rows == old(rows) && cols == old(cols)
      ensures o.Pass? <==> Logical.InBounds(i, j, rows, cols)
      ensures o.Fail? ==> o.error == RangeError && cells == old(cells)
      ensures o.Pass? ==> cells == old(cells)[i := old(cells)[i][j := Some(value)]]
      ensures o.Pass? ==> Get(i, j) == Ok(Some(value))
    {
      if i < 0 || i >= rows || j < 0 || j >= cols {
        return Fail(RangeError);
      }
      cells := cells[i := cells[i][j := Some(value)]];
      o := Pass;
    }

    /** The loop shared by `add` and `subtract`: `indexes()` walks the cells in
        row-major order and `set` writes op(get(i, j), matrix.get(i, j)) into the
        fresh result, so every cell is written exactly once. */
    method ZipInto(other: Backend, result: Backend, op: (int, int) -> int)
      requires Valid() && Dense() && other.Valid() && other.Dense()
      requires other.rows == rows && other.cols == cols
      requires result.Valid() && result.rows == rows && result.cols == cols
      requires forall i, j :: 0 <= i < rows && 0 <= j < cols ==> result.cells[i][j] == None
      requires result != this && result != other
      modifies result
      ensures result.Valid() && result.rows == rows && result.cols == cols && result.Dense()
      ensures forall i, j :: 0 <= i < rows && 0 <= j < cols ==>
        result.cells[i][j] == Some(op(Matrix()[i][j], other.Matrix()[i][j]))
    {
      ghost var a, b := Matrix(), other.Matrix();
      ghost var n, c := rows, cols;
      ghost var want := seq(n, i requires 0 <= i < n => seq(c, j requires 0 <= j < c => op(a[i][j], b[i][j])));
      var idx := Indexes(rows, cols);
      for k := 0 to |idx|
        invariant result.Valid() && result.rows == rows && result.cols == cols
        invariant WrittenUpTo(result.cells, rows, cols, k, want)
      {
        Logical.PosBound(k, rows, cols);
        var (i, j) := idx[k];
        var x, y := Get(i, j), other.Get(i, j);
        WrittenStep(result.cells, rows, cols, k, want, i, j);
        var o := result.Set(i, j, op(x.value.value, y.value.value));
      }
      WrittenAll(result.cells, rows, cols, want);
    }

    /** `add(matrix)`: a DimensionMismatch unless the shapes agree; otherwise a fresh
        backend of the same shape in which every cell has been written with the sum.
        Neither operand changes. */
    method Add(other: Backend) returns (r: Result<Backend>)
      requires Valid() && Dense() && other.Valid() && other.Dense()
      ensures r.Err? <==> rows != other.rows || cols != other.cols
      ensures r.Err? ==> r.error == DimensionMismatch
      ensures r.Ok? ==> fresh(r.value) && r.value.Valid() && r.value.Dense()
      ensures r.Ok? ==> r.value.rows == rows && r.value.cols == cols
      ensures r.Ok? ==> r.value.Matrix() == Algebra.Add(Matrix(), other.Matrix())
    {
      if rows != other.rows || cols != other.cols {
        return Err(DimensionMismatch);
      }
      var result := new Backend.SparseFrom(rows, cols);
      ZipInto(other, result, (x, y) => x + y);
      assert forall i :: 0 <= i < rows ==> result.Matrix()[i] == Algebra.Add(Matrix(), other.Matrix())[i];
      r := Ok(result);
    }

    /** `subtract(matrix)`: as `add`, with the difference. */
    method Subtract(other: Backend) returns (r: Result<Backend>)
      requires Valid() && Dense() && other.Valid() && other.Dense()
      ensures r.Err? <==> rows != other.rows || cols != other.cols
      ensures r.Err? ==> r.error == DimensionMismatch
      ensures r.Ok? ==> fresh(r.value) && r.value.Valid() && r.value.Dense()
      ensures r.Ok? ==> r.value.rows == rows && r.value.cols == cols
      ensures r.Ok? ==> r.value.Matrix() == Algebra.Sub(Matrix(), other.Matrix())
    {
      if rows != other.rows || cols != other.cols {
        return Err(DimensionMismatch);
      }
      var result := new Backend.SparseFrom(rows, cols);
      ZipInto(other, result, (x, y) => x - y);
      assert forall i :: 0 <= i < rows ==> result.Matrix()[i] == Algebra.Sub(Matrix(), other.Matrix())[i];
      r := Ok(result);
    }

    /** The innermost loop of `multiply`: the sum over k of get(i, k) * matrix.get(k, j). */
    method SumOfProducts(other: Backend, i: nat, j: nat) returns (sum: int)
      requires Valid() && Dense() && other.Valid() && other.Dense()
      requires cols == other.rows && i < rows && j < other.cols
      ensures sum == Algebra.Dot(Matrix(), other.Matrix(), i, j, cols)
    {
      ghost var a, b := Matrix(), other.Matrix();
      sum := 0;
      for k := 0 to cols
        invariant sum == Algebra.Dot(a, b, i, j, k)
      {
        var x, y := Get(i, k), other.Get(k, j);
        sum := sum + x.value.value * y.value.value;
      }
    }

    /** The two outer loops of `multiply`, writing into `result` through `set`: for
        every row i and every column j of the product, the sum of products. The first
        `set` past the result's last column fails with a RangeError and ends the loops;
        that happens exactly when some row exists and the product is wider than
        `result`. */
    method ProductInto(other: Backend, result: Backend) returns (o: Outcome)
      requires Valid() && Dense() && other.Valid() && other.Dense() && cols == other.rows
      requires result.Valid() && result.rows == rows
      requires forall i, j :: 0 <= i < rows && 0 <= j < result.cols ==> result.cells[i][j] == None
      requires result != this && result != other
      modifies result
      ensures result.Valid() && result.rows == rows && result.cols == old(result.cols)
      ensures o.Fail? <==> rows > 0 && other.cols > result.cols
      ensures o.Fail? ==> o.error == RangeError
      ensures o.Pass? ==> ProductBefore(result.cells, Matrix(), other.Matrix(), rows, result.cols, cols, other.cols, rows, 0)
    {
      ghost var a, b := Matrix(), other.Matrix();
      for i := 0 to rows
        invariant result.Valid() && result.rows == rows && result.cols == old(result.cols)
        invariant ProductBefore(result.cells, a, b, rows, result.cols, cols, other.cols, i, 0)
        invariant i > 0 ==> other.cols <= result.cols
      {
        for j := 0 to other.cols
          invariant result.Valid() && result.rows == rows && result.cols == old(result.cols)
          invariant ProductBefore(result.cells, a, b, rows, result.cols, cols, other.cols, i, j)
          invariant j <= result.cols
        {
          var sum := SumOfProducts(other, i, j);
          if j < result.cols {
            ProductStep(result.cells, a, b, rows, result.cols, cols, other.cols, i, j, sum);
          }
          o := result.Set(i, j, sum);
          if o.Fail? {
            return;
          }
        }
      }
      o := Pass;
    }

    /** `multiply(matrix)` as written: a DimensionMismatch unless `cols == matrix.rows`;
        the result is allocated with the receiver's own shape, so the outcome is what
        `WrittenProduct` describes. Neither operand changes. */
    method Multiply(other: Backend) returns (r: Result<Backend>)
      requires Valid() && Dense() && other.Valid() && other.Dense()
      ensures r == Err(DimensionMismatch) <==> cols != other.rows
      ensures cols == other.rows ==> (r.Ok? <==> WrittenProduct(Matrix(), other.Matrix(), rows, cols, other.cols).Ok?)
      ensures cols == other.rows && r.Err? ==> r.error == RangeError
      ensures r.Ok? ==> fresh(r.value) && r.value.Valid() && r.value.rows == rows && r.value.cols == cols
      ensures r.Ok? ==> r.value.cells == WrittenProduct(Matrix(), other.Matrix(), rows, cols, other.cols).value
    {
      if cols != other.rows {
        return Err(DimensionMismatch);
      }
      var result := new Backend.SparseFrom(rows, cols);
      var o := ProductInto(other, result);
      if o.Fail? {
        return Err(o.error);
      }
      ghost var want := WrittenProduct(Matrix(), other.Matrix(), rows, cols, other.cols).value;
      assert forall x :: 0 <= x < rows ==> result.cells[x] == want[x];
      r := Ok(result);
    }

    /** `multiply(matrix)` with the result allocated rows x matrix.cols, as the
        product's shape demands: every cell is written, with the sum of products. */
    method MultiplyCorrected(other: Backend) returns (r: Result<Backend>)
      requires Valid() && Dense() && other.Valid() && other.Dense()
      ensures r.Err? <==> cols != other.rows
      ensures r.Err? ==> r.error == DimensionMismatch
      ensures r.Ok? ==> fresh(r.value) && r.value.Valid() && r.value.Dense()
      ensures r.Ok? ==> r.value.rows == rows && r.value.cols == other.cols
      ensures r.Ok? ==> r.value.Matrix() == Algebra.Mul(Matrix(), other.Matrix(), cols, other.cols)
    {
      if cols != other.rows {
        return Err(DimensionMismatch);
      }
      var result := new Backend.SparseFrom(rows, other.cols);
      var o := ProductInto(other, result);
      ghost var p := Algebra.Mul(Matrix(), other.Matrix(), cols, other.cols);
      assert forall x :: 0 <= x < rows ==> result.Matrix()[x] == p[x];
      r := Ok(result);
    }
  }

  /** Once the walk has passed every cell, no cell is unwritten and the grid holds
      `want`. */
  lemma WrittenAll(g: seq<seq<Option<int>>>, rows: nat, cols: nat, want: seq<seq<int>>)
    requires WrittenUpTo(g, rows, cols, rows * cols, want)
    ensures forall i, j :: 0 <= i < rows && 0 <= j < cols ==> g[i][j] == Some(want[i][j])
  {
    forall i, j | 0 <= i < rows && 0 <= j < cols
      ensures g[i][j] == Some(want[i][j])
    {
      Logical.OffsetBound(i, j, rows, cols);
    }
  }
}
