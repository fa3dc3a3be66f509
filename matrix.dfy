/** The full-featured nested-rows matrix of `src/matrix.js`: a class holding its row
    count, column count and a sequence of rows. Every operation is proved against the
    logical definitions of the specification modules. A callback is a pure function of
    the cell's value and position. Structural results that the source wraps with
    `new Matrix(result)` fail with a TypeError when `result` has no rows, because that
    constructor reads `result[0].length`. */
module MatrixNested {
  import opened Results
  import opened Logical
  import Algebra
  import Shapes
  import Folds
  import Cofactor = Determinant
  import NestedLoops
  import JsArrays

  /** The argument of `mask`: an array of truthy and falsy cells, another matrix, a
      predicate, or anything else (which `mask` rejects). */
  datatype MaskValue =
    | ArrayMask(grid: seq<seq<int>>)
    | MatrixMask(source: Matrix)
    | FunctionMask(f: (int, (nat, nat)) -> bool)
    | OtherMask

  /** `x === v` as a callback. */
  function Equals(v: int): (int, (nat, nat)) -> bool {
    (x: int, ij: (nat, nat)) => x == v
  }

  /** The inner loop of `reduceRight`: row i from its last column back to the first,
      carrying on the fold of the rows below it. Row i occupies the slots
      base .. base + cols - 1 of the entries `es`. */
  method ReduceRightRow<A>(f: (A, int, (nat, nat)) -> A, init: A, m: seq<seq<int>>, rows: nat, cols: nat,
                           i: nat, ghost es: seq<Entry>, ghost base: nat, start: A) returns (acc: A)
    requires IsMatrix(m, rows, cols) && i < rows && base + cols <= |es|
    requires forall j :: 0 <= j < cols ==> es[base + j] == Entry(i, j, m[i][j])
    requires start == Folds.FoldRight(f, init, es[base + cols..])
    ensures acc == Folds.FoldRight(f, init, es[base..])
  {
    acc := start;
    var j: int := cols - 1;
    while j >= 0
      invariant -1 <= j < cols
      invariant acc == Folds.FoldRight(f, init, es[base + j + 1..])
    {
      FoldRightStep(f, init, es, base + j);
      acc := f(acc, m[i][j], (i, j));
      j := j - 1;
    }
  }

  /** Row i of `m` occupies entries i * cols .. i * cols + cols - 1. */
  lemma RowEntries(m: seq<seq<int>>, rows: nat, cols: nat, i: nat)
    requires IsMatrix(m, rows, cols) && i < rows
    ensures (i + 1) * cols == i * cols + cols <= rows * cols
    ensures forall j :: 0 <= j < cols ==> Entries(m, rows, cols)[i * cols + j] == Entry(i, j, m[i][j])
  {
    MulMonotone(rows, i + 1, cols);
    forall j | 0 <= j < cols
      ensures Entries(m, rows, cols)[i * cols + j] == Entry(i, j, m[i][j])
    {
      EntrySlot(m, rows, cols, i, j);
    }
  }

  /** Folding from the back one slot further applies the callback once more, to the
      entry at that slot. */
  lemma FoldRightStep<A>(f: (A, int, (nat, nat)) -> A, init: A, es: seq<Entry>, o: nat)
    requires o < |es|
    ensures Folds.FoldRight(f, init, es[o..]) == f(Folds.FoldRight(f, init, es[o + 1..]), es[o].value, (es[o].i, es[o].j))
  {
    assert es[o..][1..] == es[o + 1..];
  }

  /** The fold from the back is the left fold over the reversed entries. */
  lemma {:induction false} FoldRightIsReversedFold<A>(f: (A, int, (nat, nat)) -> A, init: A, es: seq<Entry>)
    ensures Folds.FoldRight(f, init, es) == Folds.FoldLeft(f, init, Shapes.Reverse(es))
    decreases |es|
  {
    if |es| > 0 {
      FoldRightIsReversedFold(f, init, es[1..]);
      Shapes.ReverseSuffix(es, 0);
      assert es[0..] == es;
      Folds.FoldLeftSnoc(f, init, Shapes.Reverse(es[1..]), es[0]);
    }
  }

  /** A loop over `entries()` that found no match in its first k entries has found no
      match in any cell whose slot is below k. */
  lemma NoMatchBefore(m: seq<seq<int>>, rows: nat, cols: nat, p: (int, (nat, nat)) -> bool, k: nat)
    requires IsMatrix(m, rows, cols) && k <= rows * cols
    requires forall t :: 0 <= t < k ==>
      !p(Entries(m, rows, cols)[t].value, (Entries(m, rows, cols)[t].i, Entries(m, rows, cols)[t].j))
    ensures forall a: nat, b: nat :: a < rows && b < cols && Offset(a, b, cols) < k ==> !p(m[a][b], (a, b))
  {
    forall a: nat, b: nat | a < rows && b < cols && Offset(a, b, cols) < k
      ensures !p(m[a][b], (a, b))
    {
      EntrySlot(m, rows, cols, a, b);
    }
  }

  /** Cells before (i, j) in row-major order have smaller slots. */
  lemma BeforeIsBelow(rows: nat, cols: nat, i: nat, j: nat)
    requires j < cols
    ensures forall a: nat, b: nat :: b < cols && Before(a, b, i, j) ==> Offset(a, b, cols) < Offset(i, j, cols)
  {
    forall a: nat, b: nat | b < cols && Before(a, b, i, j)
      ensures Offset(a, b, cols) < Offset(i, j, cols)
    {
      OffsetOrder(a, b, i, j, cols);
    }
  }

  /** The slot of a cell of a rows x cols matrix lies below rows * cols. */
  lemma AllBelow(rows: nat, cols: nat)
    ensures forall a: nat, b: nat :: a < rows && b < cols ==> Offset(a, b, cols) < rows * cols
  {
    forall a: nat, b: nat | a < rows && b < cols
      ensures Offset(a, b, cols) < rows * cols
    {
      OffsetBound(a, b, rows, cols);
    }
  }

  /** Row `a` of a clockwise turn after the first `i` source rows have been written:
      slots rows - i .. rows - 1 hold their values and the slots below are holes. */
  function ClockwisePartial(m: seq<seq<int>>, rows: nat, a: nat, i: nat): (row: seq<Option<int>>)
    requires |m| == rows && i <= rows && forall t :: 0 <= t < rows ==> a < |m[t]|
  {
    if i == 0 then []
    else seq(rows, b requires 0 <= b < rows => if b >= rows - i then Some(m[rows - 1 - b][a]) else None)
  }

  /** Writing `data[i][a]` to slot rows - 1 - i extends the partial row by one more source row. */
  lemma ClockwiseStep(m: seq<seq<int>>, rows: nat, a: nat, i: nat)
    requires |m| == rows && i < rows && forall t :: 0 <= t < rows ==> a < |m[t]|
    ensures JsArrays.Put(ClockwisePartial(m, rows, a, i), rows - i - 1, m[i][a]) == ClockwisePartial(m, rows, a, i + 1)
  {
    var before, after := ClockwisePartial(m, rows, a, i), ClockwisePartial(m, rows, a, i + 1);
    var put := JsArrays.Put(before, rows - i - 1, m[i][a]);
    assert |put| == rows;
    forall b | 0 <= b < rows
      ensures put[b] == after[b]
    {
    }
  }

  /** The writing loop of `rotateClockwise`: `result[j][rows - i - 1] = data[i][j]` for
      every cell, in row-major order, into `cols` initially empty JavaScript arrays. */
  method ClockwiseRows(m: seq<seq<int>>, rows: nat, cols: nat) returns (result: seq<seq<Option<int>>>)
    requires IsMatrix(m, rows, cols)
    ensures |result| == cols && forall a :: 0 <= a < cols ==> result[a] == ClockwisePartial(m, rows, a, rows)
  {
    result := seq(cols, _ => []);
    for i := 0 to rows
      invariant |result| == cols
      invariant forall a :: 0 <= a < cols ==> result[a] == ClockwisePartial(m, rows, a, i)
    {
      for j := 0 to cols
        invariant |result| == cols
        invariant forall a :: 0 <= a < cols ==>
          result[a] == ClockwisePartial(m, rows, a, if a < j then i + 1 else i)
      {
        ClockwiseStep(m, rows, j, i);
        result := result[j := JsArrays.Put(result[j], rows - i - 1, m[i][j])];
      }
    }
  }

  /** Once every source row is written, row `a` of the turn has no holes and holds
      column `a` of the source read upwards. */
  lemma ClockwiseDense(m: seq<seq<int>>, rows: nat, cols: nat, a: nat)
    requires IsMatrix(m, rows, cols) && a < cols
    ensures JsArrays.Dense(ClockwisePartial(m, rows, a, rows))
    ensures JsArrays.Elements(ClockwisePartial(m, rows, a, rows)) == Shapes.RotateClockwise(m, cols)[a]
  {
    var row := ClockwisePartial(m, rows, a, rows);
    var e := JsArrays.Elements(row);
    assert forall b :: 0 <= b < rows ==> e[b] == m[rows - 1 - b][a];
  }

  /** Running `Larger` (`Smaller`) down a column from its top cell gives the column's
      largest (smallest) cell: a cell of the column bounding every cell of it. */
  lemma ColumnExtremes(m: seq<seq<int>>, rows: nat, cols: nat, j: nat)
    requires IsMatrix(m, rows, cols) && rows > 0 && j < cols
    ensures var c := Folds.Column(m, j);
      (exists i :: 0 <= i < rows && m[i][j] == Folds.Combine(Folds.Larger, m[0][j], c)) &&
      (forall i :: 0 <= i < rows ==> m[i][j] <= Folds.Combine(Folds.Larger, m[0][j], c))
    ensures var c := Folds.Column(m, j);
      (exists i :: 0 <= i < rows && m[i][j] == Folds.Combine(Folds.Smaller, m[0][j], c)) &&
      (forall i :: 0 <= i < rows ==> Folds.Combine(Folds.Smaller, m[0][j], c) <= m[i][j])
  {
    var c := Folds.Column(m, j);
    assert c[..rows] == c;
    assert forall i :: 0 <= i < rows ==> c[i] == m[i][j];
    Folds.CombineLarger(c, rows);
    Folds.CombineSmaller(c, rows);
    Folds.MaxOfIsMax(c);
    Folds.MinOfIsMin(c);
    var a :| 0 <= a < rows && c[a] == Folds.MaxOf(c);
    var b :| 0 <= b < rows && c[b] == Folds.MinOf(c);
    assert m[a][j] == Folds.MaxOf(c) && m[b][j] == Folds.MinOf(c);
  }

  /** The running value down a column gains one more cell. */
  lemma CombineColumnStep(op: (int, int) -> int, init: int, m: seq<seq<int>>, rows: nat, cols: nat, p: nat, j: nat)
    requires IsMatrix(m, rows, cols) && p < rows && j < cols
    ensures Folds.Combine(op, init, Folds.Column(m, j)[..p + 1]) ==
      op(Folds.Combine(op, init, Folds.Column(m, j)[..p]), m[p][j])
  {
    var c := Folds.Column(m, j);
    assert c[..p + 1][..p] == c[..p];
  }

  /** After the entries before (p, q) have been visited, column j holds the running
      value over its first p + 1 cells when j < q, and over its first p cells otherwise. */
  ghost predicate ColumnsSettled(step: (int, int) -> int, seed: seq<int>, m: seq<seq<int>>, rows: nat, cols: nat,
                                 result: seq<int>, p: nat, q: nat)
    requires IsMatrix(m, rows, cols) && |seed| == cols && |result| == cols && p <= rows && (q > 0 ==> p < rows)
  {
    forall j :: 0 <= j < cols ==>
      result[j] == Folds.Combine(step, seed[j], Folds.Column(m, j)[..if j < q then p + 1 else p])
  }

  /** Visiting entry (p, q) settles one more cell of column q. */
  lemma SettleStep(step: (int, int) -> int, seed: seq<int>, m: seq<seq<int>>, rows: nat, cols: nat,
                   result: seq<int>, p: nat, q: nat)
    requires IsMatrix(m, rows, cols) && |seed| == cols && |result| == cols && p < rows && q < cols
    requires ColumnsSettled(step, seed, m, rows, cols, result, p, q)
    ensures var next := result[q := step(result[q], m[p][q])];
      if q + 1 < cols then ColumnsSettled(step, seed, m, rows, cols, next, p, q + 1)
      else ColumnsSettled(step, seed, m, rows, cols, next, p + 1, 0)
  {
    CombineColumnStep(step, seed[q], m, rows, cols, p, q);
  }

  /** One step of the per-column loop: entry k is cell (p, q), and folding it into
      column q settles one more cell. */
  lemma ColumnsAdvance(step: (int, int) -> int, seed: seq<int>, m: seq<seq<int>>, rows: nat, cols: nat,
                       result: seq<int>, p: nat, q: nat, k: nat)
    returns (p': nat, q': nat)
    requires IsMatrix(m, rows, cols) && |seed| == cols && |result| == cols && k < rows * cols
    requires k == p * cols + q && q < cols && p <= rows && (q > 0 ==> p < rows)
    requires ColumnsSettled(step, seed, m, rows, cols, result, p, q)
    ensures p < rows && Logical.Entries(m, rows, cols)[k] == Entry(p, q, m[p][q])
    ensures k + 1 == p' * cols + q' && q' < cols && p' <= rows && (q' > 0 ==> p' < rows)
    ensures ColumnsSettled(step, seed, m, rows, cols, result[q := step(result[q], m[p][q])], p', q')
  {
    p', q' := NextCell(k, rows, cols, p, q);
    EntrySlot(m, rows, cols, p, q);
    SettleStep(step, seed, m, rows, cols, result, p, q);
  }

  /** After the entries before (p, q) have been visited, the rows before p are full,
      row p holds q cells, the later rows are empty, and every written cell holds the
      running value over the flattened cells up to and including its own slot. */
  ghost predicate RowsSettled(op: (int, int) -> int, unit: int, vs: seq<int>, rows: nat, cols: nat,
                              result: seq<seq<int>>, p: nat, q: nat)
  {
    |result| == rows &&
    (forall i :: 0 <= i < rows ==> |result[i]| == if i < p then cols else if i == p then q else 0) &&
    (forall i, t :: 0 <= i < rows && 0 <= t < |result[i]| ==>
      Offset(i, t, cols) < |vs| && result[i][t] == Folds.Combine(op, unit, vs[..Offset(i, t, cols) + 1]))
  }

  /** Writing the running value of slot (p, q) settles one more cell. */
  lemma RowsSettleStep(op: (int, int) -> int, unit: int, vs: seq<int>, rows: nat, cols: nat,
                       result: seq<seq<int>>, p: nat, q: nat, last: int)
    requires p < rows && q < cols && |vs| == rows * cols && Offset(p, q, cols) < |vs|
    requires RowsSettled(op, unit, vs, rows, cols, result, p, q)
    requires last == Folds.Combine(op, unit, vs[..Offset(p, q, cols) + 1])
    ensures |result[p]| == q
    ensures var next := result[p := result[p] + [last]];
      if q + 1 < cols then RowsSettled(op, unit, vs, rows, cols, next, p, q + 1)
      else RowsSettled(op, unit, vs, rows, cols, next, p + 1, 0)
  {
  }

  /** One step of the cumulative loop: entry k is cell (p, q), and appending the running
      total including it to row p settles one more cell. */
  lemma CumulativeAdvance(op: (int, int) -> int, unit: int, m: seq<seq<int>>, rows: nat, cols: nat,
                          result: seq<seq<int>>, p: nat, q: nat, k: nat, last: int)
    returns (p': nat, q': nat)
    requires IsMatrix(m, rows, cols) && k < rows * cols
    requires k == p * cols + q && q < cols && p <= rows && (q > 0 ==> p < rows)
    requires |Flatten(m)| == rows * cols
    requires last == Folds.Combine(op, unit, Flatten(m)[..k])
    requires RowsSettled(op, unit, Flatten(m), rows, cols, result, p, q)
    ensures p < rows && Logical.Entries(m, rows, cols)[k] == Entry(p, q, m[p][q])
    ensures k + 1 == p' * cols + q' && q' < cols && p' <= rows && (q' > 0 ==> p' < rows)
    ensures (p', q') == if q + 1 < cols then (p, q + 1) else (p + 1, 0)
    ensures var total := op(last, m[p][q]);
      total == Folds.Combine(op, unit, Flatten(m)[..k + 1]) &&
      RowsSettled(op, unit, Flatten(m), rows, cols, result[p := result[p] + [total]], p', q')
  {
    p', q' := NextCell(k, rows, cols, p, q);
    EntriesAt(m, rows, cols, p, q);
    var vs := Flatten(m);
    assert vs[..k + 1][..k] == vs[..k];
    RowsSettleStep(op, unit, vs, rows, cols, result, p, q, op(last, m[p][q]));
  }

  /** Once every entry has been visited, the settled rows form the whole result. */
  lemma RowsSettledDone(op: (int, int) -> int, unit: int, vs: seq<int>, rows: nat, cols: nat,
                        result: seq<seq<int>>, p: nat, q: nat)
    requires |vs| == rows * cols && RowsSettled(op, unit, vs, rows, cols, result, p, q)
    requires cols > 0 ==> rows * cols == p * cols + q && q < cols && p <= rows && (q > 0 ==> p < rows)
    requires cols == 0 ==> p == 0 && q == 0
    ensures IsMatrix(result, rows, cols)
    ensures forall i, j :: 0 <= i < rows && 0 <= j < cols ==>
      Offset(i, j, cols) < rows * cols && result[i][j] == Folds.Combine(op, unit, vs[..Offset(i, j, cols) + 1])
  {
    if cols > 0 {
      DivModUnique(rows * cols, cols, p, q);
      DivModUnique(rows * cols, cols, rows, 0);
    }
  }

  class Matrix {
    var rows: nat
    var cols: nat
    var data: seq<seq<int>>

    /** The fields describe a rows x cols matrix. */
    ghost predicate Valid()
      reads this
    {
      IsMatrix(data, rows, cols)
    }

    /** A cell of the matrix satisfies the callback. */
    ghost predicate Hit(p: (int, (nat, nat)) -> bool, i: nat, j: nat)
      reads this
      requires Valid()
    {
      i < rows && j < cols && p(data[i][j], (i, j))
    }

    /** (i, j) is the first cell in row-major order that satisfies the callback. */
    ghost predicate FirstHit(p: (int, (nat, nat)) -> bool, i: nat, j: nat)
      reads this
      requires Valid()
    {
      Hit(p, i, j) && forall a: nat, b: nat :: Before(a, b, i, j) ==> !Hit(p, a, b)
    }

    /** (i, j) is the last cell in row-major order that satisfies the callback. */
    ghost predicate LastHit(p: (int, (nat, nat)) -> bool, i: nat, j: nat)
      reads this
      requires Valid()
    {
      Hit(p, i, j) && forall a: nat, b: nat :: Before(i, j, a, b) ==> !Hit(p, a, b)
    }

    // -------------------------------------------------------------------------
    // Construction

    /** `new Matrix(array)`: rows from the array's length, columns from its first row. */
    constructor (data: seq<seq<int>>)
      requires IsRectangular(data)
      ensures Valid() && this.data == data && rows == |data| && cols == |data[0]|
    {
      rows := |data|;
      cols := |data[0]|;
      this.data := data;
    }

    /** `new Matrix({rows, cols})`: the shape is given and `fill(0)` sets every cell. */
    constructor Sized(rows: nat, cols: nat)
      ensures Valid() && this.rows == rows && this.cols == cols
      ensures forall i, j :: 0 <= i < rows && 0 <= j < cols ==> data[i][j] == 0
    {
      this.rows := rows;
      this.cols := cols;
      data := [];
      new;
      Fill(0);
    }

    /** `new Matrix(result)` for a result computed by an operation: a TypeError when
        `result` is empty, since `result[0].length` is then read from `undefined`. */
    static method OfRows(d: seq<seq<int>>) returns (r: Result<Matrix>)
      requires d != [] ==> IsRectangular(d)
      ensures d == [] <==> r.Err?
      ensures r.Err? ==> r.error == TypeError
      ensures r.Ok? ==> fresh(r.value) && r.value.Valid() && r.value.data == d
      ensures r.Ok? ==> r.value.rows == |d| && r.value.cols == |d[0]|
    {
      if d == [] {
        return Err(TypeError);
      }
      var m := new Matrix(d);
      return Ok(m);
    }

    /** `Matrix.from({rows, cols})`: a rows x cols matrix of zeroes. */
    static method From(rows: nat, cols: nat) returns (m: Matrix)
      ensures fresh(m) && m.Valid() && m.rows == rows && m.cols == cols
      ensures forall i, j :: 0 <= i < rows && 0 <= j < cols ==> m.data[i][j] == 0
    {
      m := new Matrix.Sized(rows, cols);
    }

    /** `Matrix.zeroes({rows, cols})`: the same all-zero matrix as `from`. */
    static method Zeroes(rows: nat, cols: nat) returns (m: Matrix)
      ensures fresh(m) && m.Valid() && m.rows == rows && m.cols == cols
      ensures forall i, j :: 0 <= i < rows && 0 <= j < cols ==> m.data[i][j] == 0
    {
      m := new Matrix.Sized(rows, cols);
    }

    /** `Matrix.identity({size})`: 1 exactly on the diagonal; size 0 gives the TypeError
        of `new Matrix([])`. */
    static method Identity(size: nat) returns (r: Result<Matrix>)
      ensures size == 0 <==> r == Err(TypeError)
      ensures r.Ok? ==> fresh(r.value) && r.value.Valid() && r.value.rows == size && r.value.cols == size
      ensures r.Ok? ==> forall i, j :: 0 <= i < size && 0 <= j < size ==>
        r.value.data[i][j] == if i == j then 1 else 0
    {
      r := OfRows(Algebra.Identity(size));
    }

    // -------------------------------------------------------------------------
    // Iteration

    /** `indexes()`: the row-major sequence of (row, column) pairs. */
    method Indexes() returns (idx: seq<(nat, nat)>)
      requires Valid()
      ensures idx == Logical.Indexes(rows, cols)
    {
      ghost var all := Logical.Indexes(rows, cols);
      idx := [];
      var i := 0;
      while i < rows
        invariant 0 <= i <= rows
        invariant |idx| == i * cols <= |all| && idx == all[..|idx|]
      {
        ghost var start := |idx|;
        MulMonotone(rows, i + 1, cols);
        assert start + cols == (i + 1) * cols;
        var j := 0;
        while j < cols
          invariant 0 <= j <= cols
          invariant |idx| == start + j && idx == all[..|idx|]
        {
          IndexesAt(rows, cols, i, j);
          assert all[..|idx| + 1] == idx + [(i, j)];
          idx := idx + [(i, j)];
          j := j + 1;
        }
        i := i + 1;
      }
      assert idx == all;
    }

    /** `[Symbol.iterator]()`: the cell values in row-major order, visiting the pairs of
        `indexes()`. */
    method Iterator() returns (vs: seq<int>)
      requires Valid()
      ensures vs == Flatten(data)
    {
      var idx := Indexes();
      EntryValues(data, rows, cols);
      vs := [];
      for k := 0 to |idx|
        invariant vs == Flatten(data)[..k]
      {
        var (i, j) := idx[k];
        PosBound(k, rows, cols);
        assert data[i][j] == Logical.Entries(data, rows, cols)[k].value;
        vs := vs + [data[i][j]];
      }
    }

    /** `values()`: the values of the iterator. */
    method Values() returns (vs: seq<int>)
      requires Valid()
      ensures vs == Flatten(data)
    {
      vs := Iterator();
    }

    /** `entries()`: (row, column, value) for each pair of `indexes()`. */
    method Entries() returns (es: seq<Entry>)
      requires Valid()
      ensures es == Logical.Entries(data, rows, cols)
    {
      var idx := Indexes();
      es := [];
      for k := 0 to |idx|
        invariant es == Logical.Entries(data, rows, cols)[..k]
      {
        var (i, j) := idx[k];
        PosBound(k, rows, cols);
        es := es + [Entry(i, j, data[i][j])];
      }
    }

    // -------------------------------------------------------------------------
    // Fill, copy and access

    /** `fill(value)`: every cell becomes `value`; the shape stays. */
    method Fill(value: int)
      modifies this
      ensures Valid() && rows == old(rows) && cols == old(cols)
      ensures forall i, j :: 0 <= i < rows && 0 <= j < cols ==> data[i][j] == value
    {
      data := Algebra.Filled(rows, cols, value);
    }

    /** `copy()`: a fresh matrix with the same cells. */
    method Copy() returns (r: Result<Matrix>)
      requires Valid()
      ensures rows == 0 <==> r == Err(TypeError)
      ensures r.Ok? ==> fresh(r.value) && r.value.Valid() && r.value.data == data
      ensures r.Ok? ==> r.value.rows == rows && r.value.cols == cols
    {
      var src := data;
      var d := seq(|src|, i requires 0 <= i < |src| => seq(|src[i]|, j requires 0 <= j < |src[i]| => src[i][j]));
      assert forall i :: 0 <= i < |src| ==> d[i] == src[i];
      r := OfRows(d);
    }

    /** `checkIndex(i, j)`: a RangeError exactly when (i, j) is not a cell. */
    function CheckIndex(i: int, j: int): (o: Outcome)
      reads this
      ensures o.Pass? <==> InBounds(i, j, rows, cols)
      ensures o.Fail? ==> o.error == RangeError
    {
      if i < 0 || i >= rows || j < 0 || j >= cols then Fail(RangeError) else Pass
    }

    /** `get(i, j)`: the cell, after the bounds check. */
    function Get(i: int, j: int): (r: Result<int>)
      reads this
      requires Valid()
      ensures r.Ok? <==> InBounds(i, j, rows, cols)
      ensures r.Err? ==> r.error == RangeError
      ensures r.Ok? ==> r.value == data[i][j]
    {
      match CheckIndex(i, j)
      case Fail(e) => Err(e)
      case Pass => Ok(data[i][j])
    }

    /** `set(i, j, value)`: the bounds check runs before the write, so a failed `set`
        changes nothing and a successful one changes only cell (i, j). */
    method Set(i: int, j: int, value: int) returns (o: Outcome)
      requires Valid()
      modifies this
      ensures Valid() && rows == old(rows) && cols == old(cols)
      ensures o == CheckIndex(i, j)
      ensures o.Fail? ==> data == old(data)
      ensures o.Pass? ==> data[i][j] == value && Get(i, j) == Ok(value)
      ensures o.Pass? ==> forall a, b :: 0 <= a < rows && 0 <= b < cols && (a, b) != (i, j) ==>
        data[a][b] == old(data)[a][b]
    {
      o := CheckIndex(i, j);
      if o.Pass? {
        data := data[i := data[i][j := value]];
      }
    }

    /** `row(i)`: the bounds check is `checkIndex(i, 0)`, so a matrix without columns
        has no readable rows. */
    function Row(i: int): (r: Result<seq<int>>)
      reads this
      requires Valid()
      ensures r.Ok? <==> 0 <= i < rows && cols > 0
      ensures r.Err? ==> r.error == RangeError
      ensures r.Ok? ==> |r.value| == cols && forall j :: 0 <= j < cols ==> r.value[j] == data[i][j]
    {
      match CheckIndex(i, 0)
      case Fail(e) => Err(e)
      case Pass => Ok(data[i])
    }

    /** `col(j)`: the bounds check is `checkIndex(0, j)`, so a matrix without rows has
        no readable columns. */
    function Col(j: int): (r: Result<seq<int>>)
      reads this
      requires Valid()
      ensures r.Ok? <==> 0 < rows && 0 <= j < cols
      ensures r.Err? ==> r.error == RangeError
      ensures r.Ok? ==> |r.value| == rows && forall i :: 0 <= i < rows ==> r.value[i] == data[i][j]
    {
      match CheckIndex(0, j)
      case Fail(e) => Err(e)
      case Pass => var src := data; Ok(seq(|src|, i requires 0 <= i < |src| => src[i][j]))
    }

    // -------------------------------------------------------------------------
    // Arithmetic

    /** `add(matrix)`: a dimension error unless the shapes agree; otherwise the cells
        are summed pairwise. Neither operand changes (no `modifies` clause). */
    method Add(other: Matrix) returns (r: Result<Matrix>)
      requires Valid() && other.Valid()
      ensures rows != other.rows || cols != other.cols ==> r == Err(DimensionMismatch)
      ensures rows == other.rows && cols == other.cols ==> (r.Ok? <==> rows > 0)
      ensures rows == other.rows && cols == other.cols && rows == 0 ==> r == Err(TypeError)
      ensures r.Ok? ==> fresh(r.value) && r.value.Valid() && r.value.rows == rows && r.value.cols == cols
      ensures r.Ok? ==> forall i, j :: 0 <= i < rows && 0 <= j < cols ==>
        r.value.data[i][j] == data[i][j] + other.data[i][j]
    {
      if rows != other.rows || cols != other.cols {
        return Err(DimensionMismatch);
      }
      r := OfRows(Algebra.Add(data, other.data));
    }

    /** `subtract(matrix)`: as `add`, with the cells subtracted. */
    method Subtract(other: Matrix) returns (r: Result<Matrix>)
      requires Valid() && other.Valid()
      ensures rows != other.rows || cols != other.cols ==> r == Err(DimensionMismatch)
      ensures rows == other.rows && cols == other.cols ==> (r.Ok? <==> rows > 0)
      ensures rows == other.rows && cols == other.cols && rows == 0 ==> r == Err(TypeError)
      ensures r.Ok? ==> fresh(r.value) && r.value.Valid() && r.value.rows == rows && r.value.cols == cols
      ensures r.Ok? ==> forall i, j :: 0 <= i < rows && 0 <= j < cols ==>
        r.value.data[i][j] == data[i][j] - other.data[i][j]
    {
      if rows != other.rows || cols != other.cols {
        return Err(DimensionMismatch);
      }
      r := OfRows(Algebra.Sub(data, other.data));
    }

    /** `multiply(matrix)`: a dimension error unless cols == other.rows; otherwise the
        rows x other.cols matrix of sums of products. */
    method Multiply(other: Matrix) returns (r: Result<Matrix>)
      requires Valid() && other.Valid()
      ensures cols != other.rows ==> r == Err(DimensionMismatch)
      ensures cols == other.rows ==> (r.Ok? <==> rows > 0)
      ensures cols == other.rows && rows == 0 ==> r == Err(TypeError)
      ensures r.Ok? ==> fresh(r.value) && r.value.Valid() && r.value.rows == rows && r.value.cols == other.cols
      ensures r.Ok? ==> r.value.data == Algebra.Mul(data, other.data, cols, other.cols)
      ensures r.Ok? ==> forall i, j :: 0 <= i < rows && 0 <= j < other.cols ==>
        r.value.data[i][j] == Algebra.Dot(data, other.data, i, j, cols)
    {
      if cols != other.rows {
        return Err(DimensionMismatch);
      }
      var result := NestedLoops.MultiplyRows(data, other.data, rows, cols, other.cols);
      r := OfRows(result);
    }

    /** `multiplyWithScalar(scalar)`: every cell times `scalar`. */
    method MultiplyWithScalar(scalar: int) returns (r: Result<Matrix>)
      requires Valid()
      ensures rows == 0 <==> r == Err(TypeError)
      ensures r.Ok? ==> fresh(r.value) && r.value.Valid() && r.value.rows == rows && r.value.cols == cols
      ensures r.Ok? ==> forall i, j :: 0 <= i < rows && 0 <= j < cols ==> r.value.data[i][j] == data[i][j] * scalar
    {
      r := OfRows(Algebra.Scale(data, scalar));
    }

    // -------------------------------------------------------------------------
    // Reductions

    /** `reduce(callback, initialValue)`: the callback folded over `entries()`. */
    method Reduce<A>(f: (A, int, (nat, nat)) -> A, init: A) returns (acc: A)
      requires Valid()
      ensures acc == Folds.FoldLeft(f, init, Logical.Entries(data, rows, cols))
    {
      var es := Entries();
      acc := init;
      for k := 0 to |es|
        invariant acc == Folds.FoldLeft(f, init, es[..k])
      {
        assert es[..k + 1] == es[..k] + [es[k]];
        Folds.FoldLeftSnoc(f, init, es[..k], es[k]);
        acc := f(acc, es[k].value, (es[k].i, es[k].j));
      }
      assert es[..|es|] == es;
    }

    /** `reduceRight(callback, initialValue)`: the callback folded over the entries from
        the last cell back to the first. */
    method ReduceRight<A>(f: (A, int, (nat, nat)) -> A, init: A) returns (acc: A)
      requires Valid()
      ensures acc == Folds.FoldRight(f, init, Logical.Entries(data, rows, cols))
      ensures acc == Folds.FoldLeft(f, init, Shapes.Reverse(Logical.Entries(data, rows, cols)))
    {
      ghost var es := Logical.Entries(data, rows, cols);
      acc := init;
      var i: int := rows - 1;
      while i >= 0
        invariant -1 <= i < rows && (i + 1) * cols <= rows * cols
        invariant acc == Folds.FoldRight(f, init, es[(i + 1) * cols..])
      {
        RowEntries(data, rows, cols, i);
        acc := ReduceRightRow(f, init, data, rows, cols, i, es, i * cols, acc);
        i := i - 1;
      }
      assert es[0..] == es;
      FoldRightIsReversedFold(f, init, es);
    }

    /** `max()`: the largest cell. With no rows the seed `data[0][0]` is a TypeError;
        with rows but no columns the seed is `undefined` and no step runs. */
    method Max() returns (r: Result<Option<int>>)
      requires Valid()
      ensures rows == 0 <==> r == Err(TypeError)
      ensures r.Ok? ==> (r.value.Some? <==> cols > 0)
      ensures r.Ok? && r.value.Some? ==>
        exists i, j :: 0 <= i < rows && 0 <= j < cols && data[i][j] == r.value.value
      ensures r.Ok? && r.value.Some? ==>
        forall i, j :: 0 <= i < rows && 0 <= j < cols ==> data[i][j] <= r.value.value
    {
      if rows == 0 {
        return Err(TypeError);
      }
      if cols == 0 {
        return Ok(None);
      }
      ghost var es := Logical.Entries(data, rows, cols);
      EntrySlot(data, rows, cols, 0, 0);
      var m := Reduce(Folds.MaxStep, data[0][0]);
      Folds.FoldMax(es);
      Folds.MaxOfIsMax(Folds.Values(es));
      ghost var k :| 0 <= k < |es| && Folds.Values(es)[k] == m;
      assert data[es[k].i][es[k].j] == m;
      forall i, j | 0 <= i < rows && 0 <= j < cols
        ensures data[i][j] <= m
      {
        EntrySlot(data, rows, cols, i, j);
        assert Folds.Values(es)[Offset(i, j, cols)] == data[i][j];
      }
      return Ok(Option.Some(m));
    }

    /** `min()`: the smallest cell, with the same failure cases as `max()`. */
    method Min() returns (r: Result<Option<int>>)
      requires Valid()
      ensures rows == 0 <==> r == Err(TypeError)
      ensures r.Ok? ==> (r.value.Some? <==> cols > 0)
      ensures r.Ok? && r.value.Some? ==>
        exists i, j :: 0 <= i < rows && 0 <= j < cols && data[i][j] == r.value.value
      ensures r.Ok? && r.value.Some? ==>
        forall i, j :: 0 <= i < rows && 0 <= j < cols ==> r.value.value <= data[i][j]
    {
      if rows == 0 {
        return Err(TypeError);
      }
      if cols == 0 {
        return Ok(None);
      }
      ghost var es := Logical.Entries(data, rows, cols);
      EntrySlot(data, rows, cols, 0, 0);
      var m := Reduce(Folds.MinStep, data[0][0]);
      Folds.FoldMin(es);
      Folds.MinOfIsMin(Folds.Values(es));
      ghost var k :| 0 <= k < |es| && Folds.Values(es)[k] == m;
      assert data[es[k].i][es[k].j] == m;
      forall i, j | 0 <= i < rows && 0 <= j < cols
        ensures m <= data[i][j]
      {
        EntrySlot(data, rows, cols, i, j);
        assert Folds.Values(es)[Offset(i, j, cols)] == data[i][j];
      }
      return Ok(Option.Some(m));
    }

    /** `maxIndex()`: the position of the first largest cell in row-major order, since
        the reducer moves only to a strictly larger value. With rows but no columns the
        seed position (0, 0) comes back. */
    method MaxIndex() returns (r: Result<(nat, nat)>)
      requires Valid()
      ensures rows == 0 <==> r == Err(TypeError)
      ensures rows > 0 && cols == 0 ==> r == Ok((0, 0))
      ensures rows > 0 && cols > 0 ==> r.Ok? && r.value.0 < rows && r.value.1 < cols
      ensures rows > 0 && cols > 0 ==> forall a, b :: 0 <= a < rows && 0 <= b < cols ==>
        data[a][b] <= data[r.value.0][r.value.1]
      ensures rows > 0 && cols > 0 ==> forall a: nat, b: nat :: b < cols && Before(a, b, r.value.0, r.value.1) ==>
        data[a][b] < data[r.value.0][r.value.1]
    {
      if rows == 0 {
        return Err(TypeError);
      }
      if cols == 0 {
        return Ok((0, 0));
      }
      ghost var es := Logical.Entries(data, rows, cols);
      EntrySlot(data, rows, cols, 0, 0);
      var acc := Reduce(Folds.ArgMaxStep, (data[0][0], (0, 0)));
      Folds.FoldArgMax(es);
      ghost var vs := Folds.Values(es);
      Folds.ArgMaxIsFirstMax(vs);
      ghost var k := Folds.ArgMax(vs);
      var (i, j) := acc.1;
      assert es[k].i == i && es[k].j == j && vs[k] == data[i][j];
      forall a, b | 0 <= a < rows && 0 <= b < cols
        ensures data[a][b] <= data[i][j]
      {
        EntrySlot(data, rows, cols, a, b);
        assert vs[Offset(a, b, cols)] == data[a][b];
      }
      forall a: nat, b: nat | b < cols && Before(a, b, i, j)
        ensures data[a][b] < data[i][j]
      {
        EntrySlot(data, rows, cols, a, b);
        OffsetOrder(a, b, i, j, cols);
        assert vs[Offset(a, b, cols)] == data[a][b];
      }
      return Ok((i, j));
    }

    /** `minIndex()`: the position of the first smallest cell in row-major order. */
    method MinIndex() returns (r: Result<(nat, nat)>)
      requires Valid()
      ensures rows == 0 <==> r == Err(TypeError)
      ensures rows > 0 && cols == 0 ==> r == Ok((0, 0))
      ensures rows > 0 && cols > 0 ==> r.Ok? && r.value.0 < rows && r.value.1 < cols
      ensures rows > 0 && cols > 0 ==> forall a, b :: 0 <= a < rows && 0 <= b < cols ==>
        data[r.value.0][r.value.1] <= data[a][b]
      ensures rows > 0 && cols > 0 ==> forall a: nat, b: nat :: b < cols && Before(a, b, r.value.0, r.value.1) ==>
        data[r.value.0][r.value.1] < data[a][b]
    {
      if rows == 0 {
        return Err(TypeError);
      }
      if cols == 0 {
        return Ok((0, 0));
      }
      ghost var es := Logical.Entries(data, rows, cols);
      EntrySlot(data, rows, cols, 0, 0);
      var acc := Reduce(Folds.ArgMinStep, (data[0][0], (0, 0)));
      Folds.FoldArgMin(es);
      ghost var vs := Folds.Values(es);
      Folds.ArgMinIsFirstMin(vs);
      ghost var k := Folds.ArgMin(vs);
      var (i, j) := acc.1;
      assert es[k].i == i && es[k].j == j && vs[k] == data[i][j];
      forall a, b | 0 <= a < rows && 0 <= b < cols
        ensures data[i][j] <= data[a][b]
      {
        EntrySlot(data, rows, cols, a, b);
        assert vs[Offset(a, b, cols)] == data[a][b];
      }
      forall a: nat, b: nat | b < cols && Before(a, b, i, j)
        ensures data[i][j] < data[a][b]
      {
        EntrySlot(data, rows, cols, a, b);
        OffsetOrder(a, b, i, j, cols);
        assert vs[Offset(a, b, cols)] == data[a][b];
      }
      return Ok((i, j));
    }

    /** `maxPerRow()`: each row's largest cell. A row without cells would give
        `-Infinity`, which integers cannot hold, so rows need columns. */
    function MaxPerRow(): (r: seq<int>)
      reads this
      requires Valid() && (rows > 0 ==> cols > 0)
      ensures |r| == rows
      ensures forall i :: 0 <= i < rows ==> r[i] in data[i]
      ensures forall i, j :: 0 <= i < rows && 0 <= j < cols ==> data[i][j] <= r[i]
    {
      if rows > 0 then Folds.PerRowMax(data) else []
    }

    /** `minPerRow()`: each row's smallest cell. */
    function MinPerRow(): (r: seq<int>)
      reads this
      requires Valid() && (rows > 0 ==> cols > 0)
      ensures |r| == rows
      ensures forall i :: 0 <= i < rows ==> r[i] in data[i]
      ensures forall i, j :: 0 <= i < rows && 0 <= j < cols ==> r[i] <= data[i][j]
    {
      if rows > 0 then Folds.PerRowMin(data) else []
    }

    /** The loop shared by `maxPerCol`, `minPerCol`, `sumPerCol` and `prodPerCol`: start
        column j at `seed[j]` and update it with `step` for each entry of column j, in
        the row-major order of `entries()`. */
    method PerColumn(step: (int, int) -> int, seed: seq<int>) returns (result: seq<int>)
      requires Valid() && |seed| == cols
      ensures |result| == cols
      ensures forall j :: 0 <= j < cols ==> result[j] == Folds.Combine(step, seed[j], Folds.Column(data, j))
    {
      var es := Entries();
      result := seed;
      ghost var p: nat, q: nat := 0, 0;
      for k := 0 to |es|
        invariant |result| == cols
        invariant cols > 0 ==> k == p * cols + q && q < cols && p <= rows && (q > 0 ==> p < rows)
        invariant cols > 0 ==> ColumnsSettled(step, seed, data, rows, cols, result, p, q)
      {
        PosBound(k, rows, cols);
        var e := es[k];
        p, q := ColumnsAdvance(step, seed, data, rows, cols, result, p, q, k);
        result := result[e.j := step(result[e.j], e.value)];
      }
      if cols > 0 {
        DivModUnique(rows * cols, cols, p, q);
        DivModUnique(rows * cols, cols, rows, 0);
      }
      forall j | 0 <= j < cols
        ensures result[j] == Folds.Combine(step, seed[j], Folds.Column(data, j))
      {
        assert ColumnsSettled(step, seed, data, rows, cols, result, p, q);
        assert Folds.Column(data, j)[..rows] == Folds.Column(data, j);
      }
    }

    /** `maxPerCol()`: each column's largest cell. The seeds are the cells of row 0, so
        a matrix with columns but no rows is a TypeError. */
    method MaxPerCol() returns (r: Result<seq<int>>)
      requires Valid()
      ensures r.Err? <==> rows == 0 && cols > 0
      ensures r.Err? ==> r.error == TypeError
      ensures r.Ok? ==> |r.value| == cols
      ensures r.Ok? ==> forall j :: 0 <= j < cols ==> exists i :: 0 <= i < rows && data[i][j] == r.value[j]
      ensures r.Ok? ==> forall i, j :: 0 <= i < rows && 0 <= j < cols ==> data[i][j] <= r.value[j]
    {
      if rows == 0 && cols > 0 {
        return Err(TypeError);
      }
      var seed := if rows > 0 then data[0] else [];
      var result := PerColumn(Folds.Larger, seed);
      forall j | 0 <= j < cols
        ensures (exists i :: 0 <= i < rows && data[i][j] == result[j])
        ensures forall i :: 0 <= i < rows ==> data[i][j] <= result[j]
      {
        ColumnExtremes(data, rows, cols, j);
      }
      return Ok(result);
    }

    /** `minPerCol()`: each column's smallest cell, with the failure case of `maxPerCol`. */
    method MinPerCol() returns (r: Result<seq<int>>)
      requires Valid()
      ensures r.Err? <==> rows == 0 && cols > 0
      ensures r.Err? ==> r.error == TypeError
      ensures r.Ok? ==> |r.value| == cols
      ensures r.Ok? ==> forall j :: 0 <= j < cols ==> exists i :: 0 <= i < rows && data[i][j] == r.value[j]
      ensures r.Ok? ==> forall i, j :: 0 <= i < rows && 0 <= j < cols ==> r.value[j] <= data[i][j]
    {
      if rows == 0 && cols > 0 {
        return Err(TypeError);
      }
      var seed := if rows > 0 then data[0] else [];
      var result := PerColumn(Folds.Smaller, seed);
      forall j | 0 <= j < cols
        ensures (exists i :: 0 <= i < rows && data[i][j] == result[j])
        ensures forall i :: 0 <= i < rows ==> result[j] <= data[i][j]
      {
        ColumnExtremes(data, rows, cols, j);
      }
      return Ok(result);
    }

    /** `sum()`: the sum of all cells, folded over `entries()`. */
    method Sum() returns (s: int)
      requires Valid()
      ensures s == Folds.Sum(Flatten(data))
    {
      s := Reduce(Folds.SumStep, 0);
      ValuesAreFlattening();
      Folds.FoldSumProd(Logical.Entries(data, rows, cols));
    }

    /** `prod()`: the product of all cells. */
    method Prod() returns (s: int)
      requires Valid()
      ensures s == Folds.Prod(Flatten(data))
    {
      s := Reduce(Folds.ProdStep, 1);
      ValuesAreFlattening();
      Folds.FoldSumProd(Logical.Entries(data, rows, cols));
    }

    /** The values of `entries()` are the flattened cells. */
    lemma ValuesAreFlattening()
      requires Valid()
      ensures Folds.Values(Logical.Entries(data, rows, cols)) == Flatten(data)
    {
      EntryValues(data, rows, cols);
    }

    /** `sumPerRow()`: each row's sum; together they add up to `sum()`. */
    function SumPerRow(): (r: seq<int>)
      reads this
      requires Valid()
      ensures |r| == rows && forall i :: 0 <= i < rows ==> r[i] == Folds.Sum(data[i])
      ensures Folds.Sum(r) == Folds.Sum(Flatten(data))
    {
      Folds.PlusTimesMonoid();
      Folds.RowTotals(Folds.Plus, 0, data);
      Folds.PerRow(Folds.Plus, 0, data)
    }

    /** `prodPerRow()`: each row's product; together they multiply up to `prod()`. */
    function ProdPerRow(): (r: seq<int>)
      reads this
      requires Valid()
      ensures |r| == rows && forall i :: 0 <= i < rows ==> r[i] == Folds.Prod(data[i])
      ensures Folds.Prod(r) == Folds.Prod(Flatten(data))
    {
      Folds.PlusTimesMonoid();
      Folds.RowTotals(Folds.Times, 1, data);
      Folds.PerRow(Folds.Times, 1, data)
    }

    /** `sumPerCol()`: each column's sum, accumulated from 0 over `entries()`. */
    method SumPerCol() returns (r: seq<int>)
      requires Valid()
      ensures |r| == cols && forall j :: 0 <= j < cols ==> r[j] == Folds.Sum(Folds.Column(data, j))
    {
      r := PerColumn(Folds.Plus, seq(cols, _ => 0));
    }

    /** `prodPerCol()`: each column's product, accumulated from 1 over `entries()`. */
    method ProdPerCol() returns (r: seq<int>)
      requires Valid()
      ensures |r| == cols && forall j :: 0 <= j < cols ==> r[j] == Folds.Prod(Folds.Column(data, j))
    {
      r := PerColumn(Folds.Times, seq(cols, _ => 1));
    }

    // -------------------------------------------------------------------------
    // Cumulative operations

    /** The loop of `cumulativeSum` and `cumulativeProd`: a running value over
        `entries()` written to each cell in turn, so the cell in row-major slot k holds
        the running value over the first k + 1 cells. */
    method CumulativeEntries(op: (int, int) -> int, unit: int) returns (res: seq<seq<int>>)
      requires Valid()
      ensures |Flatten(data)| == rows * cols
      ensures IsMatrix(res, rows, cols)
      ensures forall i, j :: 0 <= i < rows && 0 <= j < cols ==>
        Offset(i, j, cols) < rows * cols &&
        res[i][j] == Folds.Combine(op, unit, Flatten(data)[..Offset(i, j, cols) + 1])
    {
      var es := Entries();
      ghost var vs := Flatten(data);
      FlattenLength(data, rows, cols);
      res := seq(rows, _ => []);
      var last := unit;
      ghost var p: nat, q: nat := 0, 0;
      assert cols == 0 ==> |es| == 0;
      for k := 0 to |es|
        invariant cols > 0 ==> k == p * cols + q && q < cols && p <= rows && (q > 0 ==> p < rows)
        invariant cols == 0 ==> p == 0 && q == 0
        invariant last == Folds.Combine(op, unit, vs[..k])
        invariant RowsSettled(op, unit, vs, rows, cols, res, p, q)
      {
        var e := es[k];
        ghost var p0, q0 := p, q;
        p, q := CumulativeAdvance(op, unit, data, rows, cols, res, p, q, k, last);
        assert e.i == p0 && e.value == data[p0][q0];
        last := op(last, e.value);
        // `result[i][j] = lastValue` with j the current length of row i: an append.
        res := res[e.i := res[e.i] + [last]];
      }
      RowsSettledDone(op, unit, vs, rows, cols, res, p, q);
    }

    /** The loops of `cumulativeSumPerRow` and `cumulativeProdPerRow`: the running value
        restarts at `unit` in every row. */
    method CumulativeRows(op: (int, int) -> int, unit: int) returns (res: seq<seq<int>>)
      requires Valid()
      ensures IsMatrix(res, rows, cols)
      ensures forall i, j :: 0 <= i < rows && 0 <= j < cols ==> res[i][j] == Folds.Combine(op, unit, data[i][..j + 1])
    {
      res := seq(rows, _ => []);
      for i := 0 to rows
        invariant |res| == rows
        invariant forall a :: 0 <= a < rows ==> |res[a]| == if a < i then cols else 0
        invariant forall a, t :: 0 <= a < rows && 0 <= t < |res[a]| ==> res[a][t] == Folds.Combine(op, unit, data[a][..t + 1])
      {
        var last := unit;
        for j := 0 to cols
          invariant |res| == rows
          invariant forall a :: 0 <= a < rows ==> |res[a]| == if a < i then cols else if a == i then j else 0
          invariant forall a, t :: 0 <= a < rows && 0 <= t < |res[a]| ==> res[a][t] == Folds.Combine(op, unit, data[a][..t + 1])
          invariant last == Folds.Combine(op, unit, data[i][..j])
        {
          assert data[i][..j + 1][..j] == data[i][..j];
          last := op(last, data[i][j]);
          res := res[i := res[i] + [last]];
        }
      }
    }

    /** The loops of `cumulativeSumPerCol` and `cumulativeProdPerCol`: the running value
        restarts at `unit` in every column. */
    method CumulativeCols(op: (int, int) -> int, unit: int) returns (res: seq<seq<int>>)
      requires Valid()
      ensures IsMatrix(res, rows, cols)
      ensures forall i, j :: 0 <= i < rows && 0 <= j < cols ==>
        res[i][j] == Folds.Combine(op, unit, Folds.Column(data, j)[..i + 1])
    {
      res := seq(rows, _ => []);
      for j := 0 to cols
        invariant |res| == rows
        invariant forall a :: 0 <= a < rows ==> |res[a]| == j
        invariant forall a, t :: 0 <= a < rows && 0 <= t < |res[a]| ==>
          res[a][t] == Folds.Combine(op, unit, Folds.Column(data, t)[..a + 1])
      {
        var last := unit;
        for i := 0 to rows
          invariant |res| == rows
          invariant forall a :: 0 <= a < rows ==> |res[a]| == if a < i then j + 1 else j
          invariant forall a, t :: 0 <= a < rows && 0 <= t < |res[a]| ==>
            res[a][t] == Folds.Combine(op, unit, Folds.Column(data, t)[..a + 1])
          invariant last == Folds.Combine(op, unit, Folds.Column(data, j)[..i])
        {
          CombineColumnStep(op, unit, data, rows, cols, i, j);
          last := op(last, data[i][j]);
          res := res[i := res[i] + [last]];
        }
      }
    }

    /** `cumulativeSum()`: the cell in row-major slot k holds the sum of the first k + 1 cells. */
    method CumulativeSum() returns (r: Result<Matrix>)
      requires Valid()
      ensures rows == 0 <==> r == Err(TypeError)
      ensures r.Ok? ==> fresh(r.value) && r.value.Valid() && r.value.rows == rows && r.value.cols == cols
      ensures |Flatten(data)| == rows * cols
      ensures r.Ok? ==> forall i, j :: 0 <= i < rows && 0 <= j < cols ==>
        Offset(i, j, cols) < rows * cols && r.value.data[i][j] == Folds.Sum(Flatten(data)[..Offset(i, j, cols) + 1])
    {
      var res := CumulativeEntries(Folds.Plus, 0);
      r := OfRows(res);
    }

    /** `cumulativeProd()`: the cell in row-major slot k holds the product of the first k + 1 cells. */
    method CumulativeProd() returns (r: Result<Matrix>)
      requires Valid()
      ensures rows == 0 <==> r == Err(TypeError)
      ensures r.Ok? ==> fresh(r.value) && r.value.Valid() && r.value.rows == rows && r.value.cols == cols
      ensures |Flatten(data)| == rows * cols
      ensures r.Ok? ==> forall i, j :: 0 <= i < rows && 0 <= j < cols ==>
        Offset(i, j, cols) < rows * cols && r.value.data[i][j] == Folds.Prod(Flatten(data)[..Offset(i, j, cols) + 1])
    {
      var res := CumulativeEntries(Folds.Times, 1);
      r := OfRows(res);
    }

    /** `cumulativeSumPerRow()`: cell (i, j) holds data[i][0] + ... + data[i][j]. */
    method CumulativeSumPerRow() returns (r: Result<Matrix>)
      requires Valid()
      ensures rows == 0 <==> r == Err(TypeError)
      ensures r.Ok? ==> fresh(r.value) && r.value.Valid() && r.value.rows == rows && r.value.cols == cols
      ensures r.Ok? ==> forall i, j :: 0 <= i < rows && 0 <= j < cols ==> r.value.data[i][j] == Folds.Sum(data[i][..j + 1])
    {
      var res := CumulativeRows(Folds.Plus, 0);
      r := OfRows(res);
    }

    /** `cumulativeProdPerRow()`: cell (i, j) holds data[i][0] * ... * data[i][j]. */
    method CumulativeProdPerRow() returns (r: Result<Matrix>)
      requires Valid()
      ensures rows == 0 <==> r == Err(TypeError)
      ensures r.Ok? ==> fresh(r.value) && r.value.Valid() && r.value.rows == rows && r.value.cols == cols
      ensures r.Ok? ==> forall i, j :: 0 <= i < rows && 0 <= j < cols ==> r.value.data[i][j] == Folds.Prod(data[i][..j + 1])
    {
      var res := CumulativeRows(Folds.Times, 1);
      r := OfRows(res);
    }

    /** `cumulativeSumPerCol()`: cell (i, j) holds data[0][j] + ... + data[i][j]. */
    method CumulativeSumPerCol() returns (r: Result<Matrix>)
      requires Valid()
      ensures rows == 0 <==> r == Err(TypeError)
      ensures r.Ok? ==> fresh(r.value) && r.value.Valid() && r.value.rows == rows && r.value.cols == cols
      ensures r.Ok? ==> forall i, j :: 0 <= i < rows && 0 <= j < cols ==>
        r.value.data[i][j] == Folds.Sum(Folds.Column(data, j)[..i + 1])
    {
      var res := CumulativeCols(Folds.Plus, 0);
      r := OfRows(res);
    }

    /** `cumulativeProdPerCol()`: cell (i, j) holds data[0][j] * ... * data[i][j]. */
    method CumulativeProdPerCol() returns (r: Result<Matrix>)
      requires Valid()
      ensures rows == 0 <==> r == Err(TypeError)
      ensures r.Ok? ==> fresh(r.value) && r.value.Valid() && r.value.rows == rows && r.value.cols == cols
      ensures r.Ok? ==> forall i, j :: 0 <= i < rows && 0 <= j < cols ==>
        r.value.data[i][j] == Folds.Prod(Folds.Column(data, j)[..i + 1])
    {
      var res := CumulativeCols(Folds.Times, 1);
      r := OfRows(res);
    }

    // -------------------------------------------------------------------------
    // Transpose, diagonal, minors and the determinant

    /** `transpose()`: the cols x rows matrix with cell (j, i) = cell (i, j); a matrix
        without columns gives the TypeError of `new Matrix([])`. */
    method Transpose() returns (r: Result<Matrix>)
      requires Valid()
      ensures cols == 0 <==> r == Err(TypeError)
      ensures r.Ok? ==> fresh(r.value) && r.value.Valid() && r.value.rows == cols && r.value.cols == rows
      ensures r.Ok? ==> r.value.data == Shapes.Transpose(data, cols)
      ensures r.Ok? ==> forall i, j :: 0 <= i < rows && 0 <= j < cols ==> r.value.data[j][i] == data[i][j]
    {
      var result := NestedLoops.TransposeRows(data, rows, cols);
      r := OfRows(result);
    }

    /** `diagonal()`: data[i][i] for i below the smaller dimension. */
    method Diagonal() returns (d: seq<int>)
      requires Valid()
      ensures |d| == if rows < cols then rows else cols
      ensures forall i :: 0 <= i < |d| ==> d[i] == data[i][i]
    {
      var size := if rows < cols then rows else cols;
      d := [];
      for i := 0 to size
        invariant |d| == i && forall t :: 0 <= t < i ==> d[t] == data[t][t]
      {
        d := d + [data[i][i]];
      }
    }

    /** `trace()`: an error unless square, and then the sum of the diagonal. */
    method Trace() returns (r: Result<int>)
      requires Valid()
      ensures rows != cols <==> r == Err(NotSquare)
      ensures r.Ok? ==> r.value == Folds.Sum(Algebra.Diagonal(data, rows))
    {
      if rows != cols {
        return Err(NotSquare);
      }
      var d := Diagonal();
      assert d == Algebra.Diagonal(data, rows);
      return Ok(Folds.Sum(d));
    }

    /** `minorSubmatrix(row, col)`: the rows other than `row`, each without its cell in
        column `col`, in their original order. A row or column that does not exist
        removes nothing; a result without rows is the TypeError of `new Matrix([])`. */
    method MinorSubmatrix(row: int, col: int) returns (r: Result<Matrix>)
      requires Valid()
      ensures var left := rows - (if 0 <= row < rows then 1 else 0); r.Ok? <==> left > 0
      ensures r.Err? ==> r.error == TypeError
      ensures r.Ok? ==> fresh(r.value) && r.value.Valid() && r.value.data == Shapes.Minor(data, row, col)
      ensures r.Ok? ==> r.value.rows == rows - (if 0 <= row < rows then 1 else 0)
      ensures r.Ok? ==> r.value.cols == cols - (if 0 <= col < cols then 1 else 0)
      ensures r.Ok? && 0 <= row < rows && 0 <= col < cols ==>
        forall a, b :: 0 <= a < rows - 1 && 0 <= b < cols - 1 ==>
          r.value.data[a][b] == data[if a < row then a else a + 1][if b < col then b else b + 1]
    {
      var result := NestedLoops.MinorRows(data, rows, cols, row, col);
      Shapes.MinorDims(data, rows, cols, row, col);
      if 0 <= row < rows && 0 <= col < cols {
        Shapes.MinorAt(data, rows, cols, row, col);
      }
      r := OfRows(result);
    }

    /** `submatrix(r0, c0, r1, c1)`: rows r0..r1 and columns c0..c1, inclusive. An
        empty row range is the TypeError of `new Matrix([])`; an empty column range
        reads no cell and gives r1 - r0 + 1 empty rows; a non-empty one that starts
        before the first row or reaches past the last reads a cell of `undefined`, a
        TypeError. */
    method Submatrix(r0: int, c0: int, r1: int, c1: int) returns (r: Result<Matrix>)
      requires Valid() && (r0 <= r1 && c0 <= c1 && 0 <= r0 < rows ==> 0 <= c0 && c1 < cols)
      ensures r.Ok? <==> r0 <= r1 && (c1 < c0 || (0 <= r0 && r1 < rows))
      ensures r.Err? ==> r.error == TypeError
      ensures r.Ok? ==> fresh(r.value) && r.value.Valid() && r.value.data == Shapes.Submatrix(data, cols, r0, c0, r1, c1)
      ensures r.Ok? ==> r.value.rows == r1 - r0 + 1 && r.value.cols == Shapes.Span(c0, c1)
      ensures r.Ok? ==> forall a, b :: 0 <= a < r1 - r0 + 1 && 0 <= b < Shapes.Span(c0, c1) ==>
        r.value.data[a][b] == data[r0 + a][c0 + b]
    {
      var result := NestedLoops.SubmatrixRows(data, rows, cols, r0, c0, r1, c1);
      if result.Err? {
        return Err(result.error);
      }
      Shapes.SubmatrixAt(data, rows, cols, r0, c0, r1, c1);
      r := OfRows(result.value);
    }

    /** `determinant()`: an error unless square; otherwise the closed forms at sizes 1
        and 2 and the cofactor expansion along row 0, each minor's determinant computed
        by the same method. The recursion ends because each minor has one row fewer. */
    method Determinant() returns (r: Result<int>)
      requires Valid()
      ensures rows != cols ==> r == Err(NotSquare)
      ensures rows == cols ==> r == Ok(Cofactor.Det(data, rows))
      decreases rows
    {
      if rows != cols {
        return Err(NotSquare);
      }
      if rows == 1 {
        return Ok(data[0][0]);
      }
      if rows == 2 {
        return Ok(data[0][0] * data[1][1] - data[0][1] * data[1][0]);
      }
      var det := 0;
      var j := 0;
      while j < cols
        invariant 0 <= j <= cols
        invariant det == Cofactor.Expansion(data, rows, j)
      {
        var minor := MinorSubmatrix(0, j);
        var sub := minor.value.Determinant();
        Cofactor.ExpansionStep(data, rows, j);
        det := det + (if j % 2 == 0 then 1 else -1) * data[0][j] * sub.value;
        j := j + 1;
      }
      Cofactor.DetIsExpansion(data, rows);
      return Ok(det);
    }

    // -------------------------------------------------------------------------
    // Predicate matching

    /** `every(callback)`: whether every cell satisfies the callback. */
    method Every(p: (int, (nat, nat)) -> bool) returns (b: bool)
      requires Valid()
      ensures b <==> forall i: nat, j: nat :: i < rows && j < cols ==> p(data[i][j], (i, j))
    {
      var es := Entries();
      for k := 0 to |es|
        invariant forall t :: 0 <= t < k ==> p(es[t].value, (es[t].i, es[t].j))
      {
        var e := es[k];
        if !p(e.value, (e.i, e.j)) {
          return false;
        }
      }
      NoMatchBefore(data, rows, cols, (v, ij) => !p(v, ij), |es|);
      AllBelow(rows, cols);
      return true;
    }

    /** `some(callback)`: whether some cell satisfies the callback. */
    method Some(p: (int, (nat, nat)) -> bool) returns (b: bool)
      requires Valid()
      ensures b <==> exists i: nat, j: nat :: Hit(p, i, j)
    {
      var found := FindIndex(p);
      return found.Some?;
    }

    /** `findIndex(callback)`: the first cell in row-major order that satisfies the
        callback, or nothing when none does. */
    method FindIndex(p: (int, (nat, nat)) -> bool) returns (r: Option<(nat, nat)>)
      requires Valid()
      ensures r.Some? ==> FirstHit(p, r.value.0, r.value.1)
      ensures r.None? ==> forall i: nat, j: nat :: !Hit(p, i, j)
    {
      var es := Entries();
      for k := 0 to |es|
        invariant forall t :: 0 <= t < k ==> !p(es[t].value, (es[t].i, es[t].j))
      {
        var e := es[k];
        if p(e.value, (e.i, e.j)) {
          NoMatchBefore(data, rows, cols, p, k);
          BeforeIsBelow(rows, cols, e.i, e.j);
          return Option.Some((e.i, e.j));
        }
      }
      NoMatchBefore(data, rows, cols, p, |es|);
      AllBelow(rows, cols);
      return None;
    }

    /** `find(callback)`: the value of the first cell that satisfies the callback. */
    method Find(p: (int, (nat, nat)) -> bool) returns (r: Option<int>)
      requires Valid()
      ensures r.Some? ==> exists i: nat, j: nat :: FirstHit(p, i, j) && data[i][j] == r.value
      ensures r.None? ==> forall i: nat, j: nat :: !Hit(p, i, j)
    {
      var found := FindIndex(p);
      if found.None? {
        return None;
      }
      var (i, j) := found.value;
      return Option.Some(data[i][j]);
    }

    /** `findLastIndex(callback)`: the last cell in row-major order that satisfies the
        callback, scanning the rows and the columns backwards. */
    method FindLastIndex(p: (int, (nat, nat)) -> bool) returns (r: Option<(nat, nat)>)
      requires Valid()
      ensures r.Some? ==> LastHit(p, r.value.0, r.value.1)
      ensures r.None? ==> forall i: nat, j: nat :: !Hit(p, i, j)
    {
      var i: int := rows - 1;
      while i >= 0
        invariant -1 <= i < rows
        invariant forall a: nat, b: nat :: i < a ==> !Hit(p, a, b)
      {
        var j: int := cols - 1;
        while j >= 0
          invariant -1 <= j < cols
          invariant forall a: nat, b: nat :: i < a || (a == i && j < b) ==> !Hit(p, a, b)
        {
          if p(data[i][j], (i, j)) {
            return Option.Some((i, j));
          }
          j := j - 1;
        }
        i := i - 1;
      }
      return None;
    }

    /** `findLast(callback)`: the value of the last cell that satisfies the callback. */
    method FindLast(p: (int, (nat, nat)) -> bool) returns (r: Option<int>)
      requires Valid()
      ensures r.Some? ==> exists i: nat, j: nat :: LastHit(p, i, j) && data[i][j] == r.value
      ensures r.None? ==> forall i: nat, j: nat :: !Hit(p, i, j)
    {
      var found := FindLastIndex(p);
      if found.None? {
        return None;
      }
      var (i, j) := found.value;
      return Option.Some(data[i][j]);
    }

    /** `includes(value)`: whether some cell holds `value`, scanning the values. */
    method Includes(v: int) returns (b: bool)
      requires Valid()
      ensures b <==> exists i, j :: 0 <= i < rows && 0 <= j < cols && data[i][j] == v
    {
      var vs := Iterator();
      FlattenMembers(data, rows, cols, v);
      for k := 0 to |vs|
        invariant v !in vs[..k]
      {
        if vs[k] == v {
          return true;
        }
        assert vs[..k + 1] == vs[..k] + [vs[k]];
      }
      assert vs[..|vs|] == vs;
      return false;
    }

    /** `indexOf(value)`: the first cell in row-major order holding `value`. */
    method IndexOf(v: int) returns (r: Option<(nat, nat)>)
      requires Valid()
      ensures r.Some? ==> FirstHit(Equals(v), r.value.0, r.value.1) && data[r.value.0][r.value.1] == v
      ensures r.None? ==> forall i, j :: 0 <= i < rows && 0 <= j < cols ==> data[i][j] != v
    {
      r := FindIndex(Equals(v));
      if r.None? {
        forall i: nat, j: nat | i < rows && j < cols
          ensures data[i][j] != v
        {
          assert !Hit(Equals(v), i, j);
        }
      }
    }

    /** `lastIndexOf(value)`: the last cell in row-major order holding `value`. */
    method LastIndexOf(v: int) returns (r: Option<(nat, nat)>)
      requires Valid()
      ensures r.Some? ==> LastHit(Equals(v), r.value.0, r.value.1) && data[r.value.0][r.value.1] == v
      ensures r.None? ==> forall i, j :: 0 <= i < rows && 0 <= j < cols ==> data[i][j] != v
    {
      r := FindLastIndex(Equals(v));
      if r.None? {
        forall i: nat, j: nat | i < rows && j < cols
          ensures data[i][j] != v
        {
          assert !Hit(Equals(v), i, j);
        }
      }
    }

    // -------------------------------------------------------------------------
    // Mapping, flattening and filtering

    /** `forEach(callback)`: the callback runs once per cell, in row-major order; the
        model returns the callback's results in the order of the calls. */
    method ForEach<B>(f: (int, (nat, nat)) -> B) returns (calls: seq<B>)
      requires Valid()
      ensures |calls| == rows * cols
      ensures forall i, j :: 0 <= i < rows && 0 <= j < cols ==>
        Offset(i, j, cols) < rows * cols && calls[Offset(i, j, cols)] == f(data[i][j], (i, j))
    {
      var es := Entries();
      calls := [];
      for k := 0 to |es|
        invariant |calls| == k
        invariant forall t :: 0 <= t < k ==> calls[t] == f(es[t].value, (es[t].i, es[t].j))
      {
        var e := es[k];
        calls := calls + [f(e.value, (e.i, e.j))];
      }
      forall i, j | 0 <= i < rows && 0 <= j < cols
        ensures Offset(i, j, cols) < rows * cols && calls[Offset(i, j, cols)] == f(data[i][j], (i, j))
      {
        EntrySlot(data, rows, cols, i, j);
      }
    }

    /** The loop of `map`: `result[i][j] = callback(data[i][j], [i, j])` for every cell. */
    method MapCells<B>(f: (int, (nat, nat)) -> B) returns (result: seq<seq<B>>)
      requires Valid()
      ensures |result| == rows && forall i :: 0 <= i < rows ==> |result[i]| == cols
      ensures forall i, j :: 0 <= i < rows && 0 <= j < cols ==> result[i][j] == f(data[i][j], (i, j))
    {
      result := [];
      for i := 0 to rows
        invariant |result| == i && forall a :: 0 <= a < i ==> |result[a]| == cols
        invariant forall a, b :: 0 <= a < i && 0 <= b < cols ==> result[a][b] == f(data[a][b], (a, b))
      {
        var row := [];
        for j := 0 to cols
          invariant |row| == j && forall b :: 0 <= b < j ==> row[b] == f(data[i][b], (i, b))
        {
          row := row + [f(data[i][j], (i, j))];
        }
        result := result + [row];
      }
    }

    /** `map(callback)`: the matrix of the callback's results. */
    method Map(f: (int, (nat, nat)) -> int) returns (r: Result<Matrix>)
      requires Valid()
      ensures rows == 0 <==> r == Err(TypeError)
      ensures r.Ok? ==> fresh(r.value) && r.value.Valid() && r.value.rows == rows && r.value.cols == cols
      ensures r.Ok? ==> forall i, j :: 0 <= i < rows && 0 <= j < cols ==> r.value.data[i][j] == f(data[i][j], (i, j))
    {
      var result := MapCells(f);
      r := OfRows(result);
    }

    /** `flat()`: the cells in row-major order. */
    function Flat(): (r: seq<int>)
      reads this
      requires Valid()
      ensures |r| == rows * cols
      ensures forall i, j :: 0 <= i < rows && 0 <= j < cols ==>
        Offset(i, j, cols) < rows * cols && r[Offset(i, j, cols)] == data[i][j]
    {
      FlattenCells(data, rows, cols);
      Flatten(data)
    }

    /** `mask(maskValue)`: cells where the mask is truthy keep their value, the others
        become 0. An array mask must have as many rows as the matrix and its first row
        as many cells; its cell (i, j) is falsy when row i is shorter. A matrix mask must
        have the same shape. A mask that is neither array, matrix nor function is a
        TypeError, and so is an array mask with no rows for a matrix with no rows. */
    method Mask(m: MaskValue) returns (r: Result<Matrix>)
      requires Valid()
      requires m.MatrixMask? ==> m.source.Valid()
      ensures m.OtherMask? ==> r == Err(TypeError)
      ensures m.ArrayMask? && rows != |m.grid| ==> r == Err(DimensionMismatch)
      ensures m.ArrayMask? && rows == |m.grid| == 0 ==> r == Err(TypeError)
      ensures m.ArrayMask? && rows == |m.grid| > 0 ==> (r.Ok? <==> cols == |m.grid[0]|)
      ensures m.ArrayMask? && rows == |m.grid| > 0 && cols != |m.grid[0]| ==> r == Err(DimensionMismatch)
      ensures m.MatrixMask? && (rows != m.source.rows || cols != m.source.cols) ==> r == Err(DimensionMismatch)
      ensures m.MatrixMask? && rows == m.source.rows && cols == m.source.cols ==> (rows == 0 <==> r == Err(TypeError))
      ensures m.FunctionMask? ==> (rows == 0 <==> r == Err(TypeError))
      ensures r.Ok? ==> fresh(r.value) && r.value.Valid() && r.value.rows == rows && r.value.cols == cols
      ensures r.Ok? && m.ArrayMask? ==> forall i, j :: 0 <= i < rows && 0 <= j < cols ==>
        r.value.data[i][j] == if j < |m.grid[i]| && m.grid[i][j] != 0 then data[i][j] else 0
      ensures r.Ok? && m.MatrixMask? ==> forall i, j :: 0 <= i < rows && 0 <= j < cols ==>
        r.value.data[i][j] == if m.source.data[i][j] != 0 then data[i][j] else 0
      ensures r.Ok? && m.FunctionMask? ==> forall i, j :: 0 <= i < rows && 0 <= j < cols ==>
        r.value.data[i][j] == if m.f(data[i][j], (i, j)) then data[i][j] else 0
    {
      var maskAt: (int, (nat, nat)) -> bool;
      match m {
        case ArrayMask(grid) =>
          if rows != |grid| {
            return Err(DimensionMismatch);
          }
          if |grid| == 0 {
            return Err(TypeError);
          }
          if cols != |grid[0]| {
            return Err(DimensionMismatch);
          }
          maskAt := (v: int, ij: (nat, nat)) => ij.0 < |grid| && ij.1 < |grid[ij.0]| && grid[ij.0][ij.1] != 0;
        case MatrixMask(source) =>
          if rows != source.rows || cols != source.cols {
            return Err(DimensionMismatch);
          }
          var cells := source.data;
          maskAt := (v: int, ij: (nat, nat)) => ij.0 < |cells| && ij.1 < |cells[ij.0]| && cells[ij.0][ij.1] != 0;
        case FunctionMask(f) =>
          maskAt := f;
        case OtherMask =>
          return Err(TypeError);
      }
      var result := MapCells((v: int, ij: (nat, nat)) => if maskAt(v, ij) then v else 0);
      r := OfRows(result);
    }

    /** `filter(callback)`: the grid of cells that satisfy the callback, with a hole
        (`undefined`) in place of every other cell. */
    method Filter(p: (int, (nat, nat)) -> bool) returns (r: Result<seq<seq<Option<int>>>>)
      requires Valid()
      ensures rows == 0 <==> r == Err(TypeError)
      ensures r.Ok? ==> |r.value| == rows && forall i :: 0 <= i < rows ==> |r.value[i]| == cols
      ensures r.Ok? ==> forall i, j :: 0 <= i < rows && 0 <= j < cols ==>
        (r.value[i][j] == Option.Some(data[i][j]) <==> p(data[i][j], (i, j))) &&
        (r.value[i][j] == None <==> !p(data[i][j], (i, j)))
    {
      var result := MapCells((v: int, ij: (nat, nat)) => if p(v, ij) then Option.Some(v) else None);
      if rows == 0 {
        return Err(TypeError);
      }
      return Ok(result);
    }

    /** `filterNonZero()`: the grid of non-zero cells, with holes for the zeros. */
    method FilterNonZero() returns (r: Result<seq<seq<Option<int>>>>)
      requires Valid()
      ensures rows == 0 <==> r == Err(TypeError)
      ensures r.Ok? ==> |r.value| == rows && forall i :: 0 <= i < rows ==> |r.value[i]| == cols
      ensures r.Ok? ==> forall i, j :: 0 <= i < rows && 0 <= j < cols ==>
        r.value[i][j] == if data[i][j] != 0 then Option.Some(data[i][j]) else None
    {
      var result := MapCells((v: int, ij: (nat, nat)) => if v != 0 then Option.Some(v) else None);
      if rows == 0 {
        return Err(TypeError);
      }
      return Ok(result);
    }

    /** `findMatches(callback)`: the values of the matching cells, in row-major order. */
    method FindMatches(p: (int, (nat, nat)) -> bool) returns (r: seq<int>)
      requires Valid()
      ensures r == Folds.MatchingValues(p, Logical.Entries(data, rows, cols))
      ensures |r| <= rows * cols
    {
      r := Reduce(Folds.MatchValueStep(p), []);
      Folds.FoldMatches(p, Logical.Entries(data, rows, cols));
      Folds.MatchingValuesAlign(p, Logical.Entries(data, rows, cols));
    }

    /** `findIndexOfMatches(callback)`: the positions of the matching cells, in
        row-major order; a position is listed exactly when its cell matches. */
    method FindIndexOfMatches(p: (int, (nat, nat)) -> bool) returns (r: seq<(nat, nat)>)
      requires Valid()
      ensures r == Folds.MatchingIndexes(p, Logical.Entries(data, rows, cols))
      ensures forall ij: (nat, nat) :: ij in r <==> Hit(p, ij.0, ij.1)
    {
      var es := Logical.Entries(data, rows, cols);
      r := Reduce(Folds.MatchIndexStep(p), []);
      Folds.FoldMatches(p, es);
      forall ij: (nat, nat)
        ensures ij in r <==> Hit(p, ij.0, ij.1)
      {
        Folds.MatchingIndexesExact(p, es, ij);
        if Hit(p, ij.0, ij.1) {
          EntrySlot(data, rows, cols, ij.0, ij.1);
          assert (es[Offset(ij.0, ij.1, cols)].i, es[Offset(ij.0, ij.1, cols)].j) == ij;
        }
      }
    }

    // -------------------------------------------------------------------------
    // Flipping, rotating, merging and expanding

    /** `flipHorizontal()`: every row reversed. */
    method FlipHorizontal() returns (r: Result<Matrix>)
      requires Valid()
      ensures rows == 0 <==> r == Err(TypeError)
      ensures r.Ok? ==> fresh(r.value) && r.value.Valid() && r.value.rows == rows && r.value.cols == cols
      ensures r.Ok? ==> r.value.data == Shapes.FlipHorizontal(data)
      ensures r.Ok? ==> forall i, j :: 0 <= i < rows && 0 <= j < cols ==> r.value.data[i][j] == data[i][cols - 1 - j]
    {
      r := OfRows(Shapes.FlipHorizontal(data));
    }

    /** `flipVertical()`: the rows in reverse order. */
    method FlipVertical() returns (r: Result<Matrix>)
      requires Valid()
      ensures rows == 0 <==> r == Err(TypeError)
      ensures r.Ok? ==> fresh(r.value) && r.value.Valid() && r.value.rows == rows && r.value.cols == cols
      ensures r.Ok? ==> r.value.data == Shapes.FlipVertical(data)
      ensures r.Ok? ==> forall i, j :: 0 <= i < rows && 0 <= j < cols ==> r.value.data[i][j] == data[rows - 1 - i][j]
    {
      r := OfRows(Shapes.FlipVertical(data));
    }

    /** `rotateClockwise()`: cell (i, j) moves to (j, rows - 1 - i). Each row of the
        result is a JavaScript array written from its last slot down, so it has holes
        until the last source row is written; the model converts it once it is dense. */
    method RotateClockwise() returns (r: Result<Matrix>)
      requires Valid()
      ensures cols == 0 <==> r == Err(TypeError)
      ensures r.Ok? ==> fresh(r.value) && r.value.Valid() && r.value.rows == cols && r.value.cols == rows
      ensures r.Ok? ==> r.value.data == Shapes.RotateClockwise(data, cols)
      ensures r.Ok? ==> forall i, j :: 0 <= i < rows && 0 <= j < cols ==> r.value.data[j][rows - 1 - i] == data[i][j]
    {
      var result := ClockwiseRows(data, rows, cols);
      ghost var rotated := Shapes.RotateClockwise(data, cols);
      var dense: seq<seq<int>> := [];
      for a := 0 to cols
        invariant dense == rotated[..a]
      {
        ClockwiseDense(data, rows, cols, a);
        var row := JsArrays.Elements(result[a]);
        dense := dense + [row];
      }
      assert dense == rotated;
      r := OfRows(dense);
    }

    /** `rotateCounterClockwise()`: cell (i, j) moves to (cols - 1 - j, i). Source row i
        lands in slot i of every result row, which is then the row's length, so each
        write appends. */
    method RotateCounterClockwise() returns (r: Result<Matrix>)
      requires Valid()
      ensures cols == 0 <==> r == Err(TypeError)
      ensures r.Ok? ==> fresh(r.value) && r.value.Valid() && r.value.rows == cols && r.value.cols == rows
      ensures r.Ok? ==> r.value.data == Shapes.RotateCounterClockwise(data, cols)
      ensures r.Ok? ==> forall i, j :: 0 <= i < rows && 0 <= j < cols ==> r.value.data[cols - 1 - j][i] == data[i][j]
    {
      var result: seq<seq<int>> := seq(cols, _ => []);
      for i := 0 to rows
        invariant |result| == cols
        invariant forall a :: 0 <= a < cols ==> |result[a]| == i
        invariant forall a, b :: 0 <= a < cols && 0 <= b < i ==> result[a][b] == data[b][cols - 1 - a]
      {
        for j := 0 to cols
          invariant |result| == cols
          invariant forall a :: 0 <= a < cols ==> |result[a]| == if cols - 1 - a < j then i + 1 else i
          invariant forall a, b :: 0 <= a < cols && 0 <= b < |result[a]| ==> result[a][b] == data[b][cols - 1 - a]
        {
          assert |result[cols - j - 1]| == i;
          result := result[cols - j - 1 := result[cols - j - 1] + [data[i][j]]];
        }
      }
      ghost var rotated := Shapes.RotateCounterClockwise(data, cols);
      assert forall a :: 0 <= a < cols ==> result[a] == rotated[a];
      assert result == rotated;
      r := OfRows(result);
    }

    /** `mergeCols(matrix)`: the rows of `other` below these; the column counts must agree. */
    method MergeCols(other: Matrix) returns (r: Result<Matrix>)
      requires Valid() && other.Valid()
      ensures cols != other.cols <==> r == Err(DimensionMismatch)
      ensures cols == other.cols ==> (r.Ok? <==> rows + other.rows > 0)
      ensures cols == other.cols && r.Err? ==> r.error == TypeError
      ensures r.Ok? ==> fresh(r.value) && r.value.Valid() && r.value.data == data + other.data
      ensures r.Ok? ==> r.value.rows == rows + other.rows && r.value.cols == cols
      ensures r.Ok? ==> forall i, j :: 0 <= i < rows + other.rows && 0 <= j < cols ==>
        r.value.data[i][j] == if i < rows then data[i][j] else other.data[i - rows][j]
    {
      if cols != other.cols {
        return Err(DimensionMismatch);
      }
      r := OfRows(data + other.data);
    }

    /** `mergeRows(matrix)`: each row of `other` appended to the row of the same index;
        the row counts must agree. */
    method MergeRows(other: Matrix) returns (r: Result<Matrix>)
      requires Valid() && other.Valid()
      ensures rows != other.rows <==> r == Err(DimensionMismatch)
      ensures rows == other.rows ==> (r.Ok? <==> rows > 0)
      ensures rows == other.rows && r.Err? ==> r.error == TypeError
      ensures r.Ok? ==> fresh(r.value) && r.value.Valid() && r.value.data == Shapes.MergeRows(data, other.data)
      ensures r.Ok? ==> r.value.rows == rows && r.value.cols == cols + other.cols
      ensures r.Ok? ==> forall i, j :: 0 <= i < rows && 0 <= j < cols + other.cols ==>
        r.value.data[i][j] == if j < cols then data[i][j] else other.data[i][j - cols]
    {
      if rows != other.rows {
        return Err(DimensionMismatch);
      }
      r := OfRows(Shapes.MergeRows(data, other.data));
    }

    /** `expandRows(rows, fillValue)`: `n` more rows of `fill` below the matrix. */
    method ExpandRows(n: nat, fill: int) returns (r: Result<Matrix>)
      requires Valid()
      ensures rows + n == 0 <==> r == Err(TypeError)
      ensures r.Err? ==> r.error == TypeError
      ensures r.Ok? ==> fresh(r.value) && r.value.Valid() && r.value.rows == rows + n && r.value.cols == cols
      ensures r.Ok? ==> forall i, j :: 0 <= i < rows + n && 0 <= j < cols ==>
        r.value.data[i][j] == if i < rows then data[i][j] else fill
    {
      var extra := new Matrix.Sized(n, cols);
      extra.Fill(fill);
      r := MergeCols(extra);
    }

    /** `expandCols(cols, fillValue)`: `n` more columns of `fill` right of the matrix. */
    method ExpandCols(n: nat, fill: int) returns (r: Result<Matrix>)
      requires Valid()
      ensures rows == 0 <==> r == Err(TypeError)
      ensures r.Err? ==> r.error == TypeError
      ensures r.Ok? ==> fresh(r.value) && r.value.Valid() && r.value.rows == rows && r.value.cols == cols + n
      ensures r.Ok? ==> forall i, j :: 0 <= i < rows && 0 <= j < cols + n ==>
        r.value.data[i][j] == if j < cols then data[i][j] else fill
    {
      var extra := new Matrix.Sized(rows, n);
      extra.Fill(fill);
      r := MergeRows(extra);
    }
  }
}
