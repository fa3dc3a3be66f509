/** `src/matrix/optimized1D.js`: the flat row-major layout of `Flat1D` with its
    operations rewritten as index arithmetic on the buffer. The JavaScript class
    extends `Flat1D` and adds only methods, so each of them is modelled here as a
    method whose receiver `m` is a `Flat1D.Flat1D`. A result buffer that the source
    fills slot by slot is built as a sequence and then becomes the buffer of a fresh
    matrix. */
module Optimized1D {
  import opened Results
  import opened Logical
  import Algebra
  import Shapes
  import Cofactor = Determinant
  import NestedLoops
  import JsArrays
  import Base
  import Flat1D

  /** A fresh flat matrix of the given shape over the buffer `buf`: the object
      `new Matrix([[]])` or `sparseFrom({rows, cols})` makes, once its fields and its
      buffer have been filled in. */
  method FromBuffer(rows: nat, cols: nat, buf: seq<int>) returns (r: Flat1D.Flat1D)
    ensures fresh(r) && fresh(r.data)
    ensures r.rows == rows && r.cols == cols && r.data[..] == buf
  {
    r := new Flat1D.Flat1D([[]]);
    r.data := new int[|buf|](k requires 0 <= k < |buf| => buf[k]);
    r.rows := rows;
    r.cols := cols;
    assert r.data[..] == buf;
  }

  /** A buffer whose every slot is v stands for the matrix filled with v. */
  lemma UnflattenFilled(s: seq<int>, rows: nat, cols: nat, v: int)
    requires |s| == rows * cols && forall k :: 0 <= k < |s| ==> s[k] == v
    ensures Unflatten(s, rows, cols) == Algebra.Filled(rows, cols, v)
  {
    forall i: nat, j: nat | i < rows && j < cols
      ensures Offset(i, j, cols) < |s| && s[Offset(i, j, cols)] == Algebra.Filled(rows, cols, v)[i][j]
    {
      OffsetBound(i, j, rows, cols);
    }
    UnflattenFromCells(s, Algebra.Filled(rows, cols, v), rows, cols);
  }

  /** `fill(value)`: `data.fill(value)` overwrites every slot in place; the buffer keeps
      its length and the matrix its shape, and the matrix becomes the filled one. */
  method Fill(m: Flat1D.Flat1D, value: int)
    modifies m.data
    ensures forall k :: 0 <= k < m.data.Length ==> m.data[k] == value
    ensures m.Valid() ==> m.Cells() == Algebra.Filled(m.rows, m.cols, value)
  {
    for k := 0 to m.data.Length
      invariant forall t :: 0 <= t < k ==> m.data[t] == value
    {
      m.data[k] := value;
    }
    if m.Valid() {
      UnflattenFilled(m.data[..], m.rows, m.cols, value);
    }
  }

  /** `zeroes({rows, cols})`: a buffer of rows * cols zeroes, the all-zero matrix. */
  method Zeroes(rows: nat, cols: nat) returns (r: Flat1D.Flat1D)
    ensures fresh(r) && fresh(r.data) && r.Valid() && r.rows == rows && r.cols == cols
    ensures forall k :: 0 <= k < r.data.Length ==> r.data[k] == 0
    ensures r.Cells() == Algebra.Filled(rows, cols, 0)
  {
    r := FromBuffer(rows, cols, seq(rows * cols, _ => 0));
    UnflattenFilled(r.data[..], rows, cols, 0);
  }

  /** Slot k of `identity({size})`: 1 when k is a multiple of size + 1, else 0. */
  function IdentitySlot(size: nat, k: int): int {
    if k % (size + 1) == 0 then 1 else 0
  }

  /** Cell (i, j) of a size x size buffer lies at a multiple of size + 1 exactly on the
      diagonal: i * size + j is i * (size + 1) + (j - i), and for j < i the remainder
      size + 1 + j - i lies strictly between 0 and size + 1. */
  lemma IdentityDiagonal(size: nat, i: nat, j: nat)
    requires i < size && j < size
    ensures IdentitySlot(size, Offset(i, j, size)) == if i == j then 1 else 0
  {
    var k := Offset(i, j, size);
    if j >= i {
      assert k == i * (size + 1) + (j - i);
      DivModUnique(k, size + 1, i, j - i);
    } else {
      assert k == (i - 1) * (size + 1) + (size + 1 + j - i);
      DivModUnique(k, size + 1, i - 1, size + 1 + j - i);
    }
  }

  /** `identity({size})`: the slot rule gives the identity matrix. */
  method Identity(size: nat) returns (r: Flat1D.Flat1D)
    ensures fresh(r) && fresh(r.data) && r.Valid() && r.rows == size && r.cols == size
    ensures forall k :: 0 <= k < r.data.Length ==> r.data[k] == IdentitySlot(size, k)
    ensures r.Cells() == Algebra.Identity(size)
  {
    r := FromBuffer(size, size, seq(size * size, k => IdentitySlot(size, k)));
    forall i: nat, j: nat | i < size && j < size
      ensures Offset(i, j, size) < |r.data[..]| && r.data[..][Offset(i, j, size)] == Algebra.Identity(size)[i][j]
    {
      OffsetBound(i, j, size, size);
      IdentityDiagonal(size, i, j);
    }
    UnflattenFromCells(r.data[..], Algebra.Identity(size), size, size);
  }

  /** The walk down column j is still inside the buffer exactly while it is on a row. */
  lemma ColumnWalk(a: nat, j: nat, rows: nat, cols: nat)
    requires j < cols
    ensures Offset(a, j, cols) < rows * cols <==> a < rows
  {
    if a < rows {
      OffsetBound(a, j, rows, cols);
    } else {
      MulMonotone(a, rows, cols);
    }
  }

  /** `col(j)`: the bounds check of (0, j), then the stride walk over slots
      j, j + cols, j + 2 * cols, ... to the end of the buffer. It yields one element per
      row, element i being slot i * cols + j, which is cell (i, j). */
  method Col(m: Flat1D.Flat1D, j: int) returns (r: Result<seq<int>>)
    requires m.Valid()
    ensures r.Ok? <==> 0 < m.rows && 0 <= j < m.cols
    ensures r.Err? ==> r.error == RangeError
    ensures r.Ok? ==> |r.value| == m.rows
    ensures r.Ok? ==> forall i :: 0 <= i < m.rows ==> r.value[i] == m.data[m.Index(i, j).value]
    ensures r.Ok? ==> forall i :: 0 <= i < m.rows ==> r.value[i] == m.Cells()[i][j]
  {
    var check := m.Index(0, j);
    if check.Err? {
      return Err(check.error);
    }
    var col: seq<int> := [];
    var i := j;
    while i < m.data.Length
      invariant i == Offset(|col|, j, m.cols) && |col| <= m.rows
      invariant forall t :: 0 <= t < |col| ==> col[t] == m.Cells()[t][j]
      decreases m.data.Length - i
    {
      ColumnWalk(|col|, j, m.rows, m.cols);
      UnflattenAt(m.data[..], m.rows, m.cols, |col|, j);
      col := col + [m.data[i]];
      assert (|col| - 1 + 1) * m.cols == (|col| - 1) * m.cols + m.cols;
      i := i + m.cols;
    }
    ColumnWalk(|col|, j, m.rows, m.cols);
    forall t | 0 <= t < m.rows
      ensures col[t] == m.data[m.Index(t, j).value]
    {
      UnflattenAt(m.data[..], m.rows, m.cols, t, j);
    }
    r := Ok(col);
  }

  /** A buffer that is the slotwise sum of two others stands for the sum matrix. */
  lemma UnflattenAdd(s: seq<int>, t: seq<int>, u: seq<int>, rows: nat, cols: nat)
    requires |s| == rows * cols && |t| == rows * cols && |u| == rows * cols
    requires forall k :: 0 <= k < |u| ==> u[k] == s[k] + t[k]
    ensures Unflatten(u, rows, cols) == Algebra.Add(Unflatten(s, rows, cols), Unflatten(t, rows, cols))
  {
    var want := Algebra.Add(Unflatten(s, rows, cols), Unflatten(t, rows, cols));
    forall i: nat, j: nat | i < rows && j < cols
      ensures Offset(i, j, cols) < |u| && u[Offset(i, j, cols)] == want[i][j]
    {
      UnflattenAt(s, rows, cols, i, j);
      UnflattenAt(t, rows, cols, i, j);
    }
    UnflattenFromCells(u, want, rows, cols);
  }

  /** A buffer that is the slotwise difference of two others stands for the difference. */
  lemma UnflattenSub(s: seq<int>, t: seq<int>, u: seq<int>, rows: nat, cols: nat)
    requires |s| == rows * cols && |t| == rows * cols && |u| == rows * cols
    requires forall k :: 0 <= k < |u| ==> u[k] == s[k] - t[k]
    ensures Unflatten(u, rows, cols) == Algebra.Sub(Unflatten(s, rows, cols), Unflatten(t, rows, cols))
  {
    var want := Algebra.Sub(Unflatten(s, rows, cols), Unflatten(t, rows, cols));
    forall i: nat, j: nat | i < rows && j < cols
      ensures Offset(i, j, cols) < |u| && u[Offset(i, j, cols)] == want[i][j]
    {
      UnflattenAt(s, rows, cols, i, j);
      UnflattenAt(t, rows, cols, i, j);
    }
    UnflattenFromCells(u, want, rows, cols);
  }

  /** A buffer that is another scaled slot by slot stands for the scaled matrix. */
  lemma UnflattenScale(s: seq<int>, u: seq<int>, rows: nat, cols: nat, scalar: int)
    requires |s| == rows * cols && |u| == rows * cols
    requires forall k :: 0 <= k < |u| ==> u[k] == s[k] * scalar
    ensures Unflatten(u, rows, cols) == Algebra.Scale(Unflatten(s, rows, cols), scalar)
  {
    var want := Algebra.Scale(Unflatten(s, rows, cols), scalar);
    forall i: nat, j: nat | i < rows && j < cols
      ensures Offset(i, j, cols) < |u| && u[Offset(i, j, cols)] == want[i][j]
    {
      UnflattenAt(s, rows, cols, i, j);
    }
    UnflattenFromCells(u, want, rows, cols);
  }

  /** `add(matrix)`: a DimensionMismatch unless the shapes agree; otherwise slot k of
      the fresh result is the sum of the two slots k, which makes it the sum matrix.
      The operands are not changed. */
  method Add(m: Flat1D.Flat1D, other: Flat1D.Flat1D) returns (r: Result<Flat1D.Flat1D>)
    requires m.Valid() && other.Valid()
    ensures r.Err? <==> m.rows != other.rows || m.cols != other.cols
    ensures r.Err? ==> r.error == DimensionMismatch
    ensures r.Ok? ==> fresh(r.value) && fresh(r.value.data) && r.value.Valid()
    ensures r.Ok? ==> r.value.rows == m.rows && r.value.cols == m.cols
    ensures r.Ok? ==> forall k :: 0 <= k < m.rows * m.cols ==> r.value.data[k] == m.data[k] + other.data[k]
    ensures r.Ok? ==> r.value.Cells() == Algebra.Add(m.Cells(), other.Cells())
  {
    if m.rows != other.rows || m.cols != other.cols {
      return Err(DimensionMismatch);
    }
    var buf: seq<int> := [];
    for k := 0 to m.rows * m.cols
      invariant |buf| == k && forall t :: 0 <= t < k ==> buf[t] == m.data[t] + other.data[t]
    {
      buf := buf + [m.data[k] + other.data[k]];
    }
    var result := FromBuffer(m.rows, m.cols, buf);
    UnflattenAdd(m.data[..], other.data[..], buf, m.rows, m.cols);
    r := Ok(result);
  }

  /** `subtract(matrix)`: as `add`, with the difference of the slots. */
  method Subtract(m: Flat1D.Flat1D, other: Flat1D.Flat1D) returns (r: Result<Flat1D.Flat1D>)
    requires m.Valid() && other.Valid()
    ensures r.Err? <==> m.rows != other.rows || m.cols != other.cols
    ensures r.Err? ==> r.error == DimensionMismatch
    ensures r.Ok? ==> fresh(r.value) && fresh(r.value.data) && r.value.Valid()
    ensures r.Ok? ==> r.value.rows == m.rows && r.value.cols == m.cols
    ensures r.Ok? ==> forall k :: 0 <= k < m.rows * m.cols ==> r.value.data[k] == m.data[k] - other.data[k]
    ensures r.Ok? ==> r.value.Cells() == Algebra.Sub(m.Cells(), other.Cells())
  {
    if m.rows != other.rows || m.cols != other.cols {
      return Err(DimensionMismatch);
    }
    var buf: seq<int> := [];
    for k := 0 to m.rows * m.cols
      invariant |buf| == k && forall t :: 0 <= t < k ==> buf[t] == m.data[t] - other.data[t]
    {
      buf := buf + [m.data[k] - other.data[k]];
    }
    var result := FromBuffer(m.rows, m.cols, buf);
    UnflattenSub(m.data[..], other.data[..], buf, m.rows, m.cols);
    r := Ok(result);
  }

  /** `multiplyWithScalar(scalar)`: slot k of the fresh result is slot k times the
      scalar, which makes it the scaled matrix. */
  method MultiplyWithScalar(m: Flat1D.Flat1D, scalar: int) returns (r: Flat1D.Flat1D)
    requires m.Valid()
    ensures fresh(r) && fresh(r.data) && r.Valid() && r.rows == m.rows && r.cols == m.cols
    ensures forall k :: 0 <= k < m.rows * m.cols ==> r.data[k] == m.data[k] * scalar
    ensures r.Cells() == Algebra.Scale(m.Cells(), scalar)
  {
    var buf: seq<int> := [];
    for k := 0 to m.rows * m.cols
      invariant |buf| == k && forall t :: 0 <= t < k ==> buf[t] == m.data[t] * scalar
    {
      buf := buf + [m.data[k] * scalar];
    }
    r := FromBuffer(m.rows, m.cols, buf);
    UnflattenScale(m.data[..], buf, m.rows, m.cols, scalar);
  }

  // ---------------------------------------------------------------------------
  // transpose

  /** The slot `transpose()` writes for the k-th pair (i, j) of `indexes()`: j * rows + i. */
  function TransposeTarget(rows: nat, cols: nat, k: nat): nat
    requires k < rows * cols
  {
    var (i, j) := Logical.Indexes(rows, cols)[k];
    j * rows + i
  }

  /** The k-th pair of `indexes()` is the cell (i, j) at slot k; its target is the
      slot of (j, i) in a cols x rows buffer, which lies in the buffer. */
  lemma TransposeTargetAt(rows: nat, cols: nat, k: nat)
    requires k < rows * cols
    ensures cols > 0 && Pos(k, cols).0 < rows
    ensures TransposeTarget(rows, cols, k) == Offset(Pos(k, cols).1, Pos(k, cols).0, rows)
    ensures TransposeTarget(rows, cols, k) < rows * cols
    ensures Pos(TransposeTarget(rows, cols, k), rows) == (Pos(k, cols).1, Pos(k, cols).0)
  {
    PosBound(k, rows, cols);
    var (i, j) := Pos(k, cols);
    OffsetBound(j, i, cols, rows);
    PosOffset(j, i, rows);
  }

  /** The k-th pair (i, j) of `indexes()` reads slot i * cols + j = k of the source and
      writes slot j * rows + i of the result, both in range. */
  lemma TransposePair(rows: nat, cols: nat, k: nat)
    requires k < rows * cols
    ensures var (i, j) := Logical.Indexes(rows, cols)[k];
      i < rows && j < cols && i * cols + j == k && j * rows + i < rows * cols
  {
    PosBound(k, rows, cols);
    var (i, j) := Pos(k, cols);
    OffsetBound(j, i, cols, rows);
  }

  /** Every slot of the cols x rows result is written exactly once: the targets of the
      rows * cols pairs lie in the buffer and no two of them coincide. */
  lemma TransposeTargetsDistinct(rows: nat, cols: nat)
    ensures forall k :: 0 <= k < rows * cols ==> TransposeTarget(rows, cols, k) < rows * cols
    ensures forall k1, k2 :: 0 <= k1 < rows * cols && 0 <= k2 < rows * cols && k1 != k2 ==>
      TransposeTarget(rows, cols, k1) != TransposeTarget(rows, cols, k2)
  {
    forall k | 0 <= k < rows * cols
      ensures TransposeTarget(rows, cols, k) < rows * cols
    {
      TransposeTargetAt(rows, cols, k);
    }
    forall k1, k2 | 0 <= k1 < rows * cols && 0 <= k2 < rows * cols && k1 != k2
      ensures TransposeTarget(rows, cols, k1) != TransposeTarget(rows, cols, k2)
    {
      TransposeTargetAt(rows, cols, k1);
      TransposeTargetAt(rows, cols, k2);
    }
  }

  /** The sparse result of `transpose()` after the first k pairs of `indexes()`: every
      cell (a, b) of the source visited so far sits at the transposed slot, and the
      buffer has not grown past rows * cols. */
  ghost predicate TransposeProgress(d: seq<int>, rows: nat, cols: nat, buf: seq<Option<int>>, k: nat) {
    |d| == rows * cols && k <= rows * cols && |buf| <= rows * cols &&
    forall a: nat, b: nat :: a < rows && b < cols && Offset(a, b, cols) < k ==>
      Offset(b, a, rows) < |buf| && buf[Offset(b, a, rows)] == Some(d[Offset(a, b, cols)])
  }

  /** Writing the k-th pair (i, j) moves the progress on by one pair. */
  lemma TransposeStep(d: seq<int>, rows: nat, cols: nat, buf: seq<Option<int>>, k: nat, i: nat, j: nat)
    requires TransposeProgress(d, rows, cols, buf, k) && k < rows * cols
    requires i < rows && j < cols && Offset(i, j, cols) == k
    ensures Offset(j, i, rows) < rows * cols
    ensures TransposeProgress(d, rows, cols, JsArrays.Put(buf, Offset(j, i, rows), d[k]), k + 1)
  {
    OffsetBound(j, i, cols, rows);
    var next := JsArrays.Put(buf, Offset(j, i, rows), d[k]);
    forall a: nat, b: nat | a < rows && b < cols && Offset(a, b, cols) < k + 1
      ensures Offset(b, a, rows) < |next| && next[Offset(b, a, rows)] == Some(d[Offset(a, b, cols)])
    {
      PosOffset(a, b, cols);
      PosOffset(i, j, cols);
      PosOffset(b, a, rows);
      PosOffset(j, i, rows);
    }
  }

  /** After all pairs every slot of the rows * cols buffer is written, and the buffer,
      read with `rows` columns, is the transpose. */
  lemma TransposeDone(d: seq<int>, rows: nat, cols: nat, buf: seq<Option<int>>)
    requires TransposeProgress(d, rows, cols, buf, rows * cols)
    ensures |buf| == rows * cols && JsArrays.Dense(buf)
    ensures Unflatten(JsArrays.Elements(buf), cols, rows) == Shapes.Transpose(Unflatten(d, rows, cols), cols)
  {
    if rows * cols > 0 {
      OffsetBound(rows - 1, cols - 1, rows, cols);
      assert Offset(cols - 1, rows - 1, rows) == rows * cols - 1;
    }
    forall t | 0 <= t < |buf|
      ensures buf[t].Some?
    {
      PosBound(t, cols, rows);
      var (b, a) := Pos(t, rows);
      OffsetBound(a, b, rows, cols);
    }
    var e := JsArrays.Elements(buf);
    var tr := Shapes.Transpose(Unflatten(d, rows, cols), cols);
    forall b: nat, a: nat | b < cols && a < rows
      ensures Offset(b, a, rows) < |e| && e[Offset(b, a, rows)] == tr[b][a]
    {
      OffsetBound(a, b, rows, cols);
      OffsetBound(b, a, cols, rows);
      UnflattenAt(d, rows, cols, a, b);
    }
    UnflattenFromCells(e, tr, cols, rows);
  }

  /** `transpose()`: for every pair (i, j) of `indexes()`, slot i * cols + j is copied
      to slot j * rows + i of a cols x rows result, which is then the transpose. */
  method Transpose(m: Flat1D.Flat1D) returns (r: Flat1D.Flat1D)
    requires m.Valid()
    ensures fresh(r) && fresh(r.data) && r.Valid() && r.rows == m.cols && r.cols == m.rows
    ensures r.Cells() == Shapes.Transpose(m.Cells(), m.cols)
  {
    var rows, cols := m.rows, m.cols;
    var buf: seq<Option<int>> := [];
    var idx := Base.Indexes(rows, cols);
    for k := 0 to |idx|
      invariant TransposeProgress(m.data[..], rows, cols, buf, k)
    {
      TransposePair(rows, cols, k);
      var (i, j) := idx[k];
      TransposeStep(m.data[..], rows, cols, buf, k, i, j);
      buf := JsArrays.Put(buf, j * rows + i, m.data[i * cols + j]);
    }
    TransposeDone(m.data[..], rows, cols, buf);
    r := FromBuffer(cols, rows, JsArrays.Elements(buf));
  }

  // ---------------------------------------------------------------------------
  // minorSubmatrix

  /** Slot t lies in row `row` or column `col`: the test
      `Math.floor(t / cols) === row || t % cols === col`. With no columns the quotient
      and the remainder are not finite numbers and match nothing. */
  predicate Skipped(t: nat, cols: nat, row: int, col: int) {
    cols > 0 && (t / cols == row || t % cols == col)
  }

  /** The slots of `s` that `minorSubmatrix(row, col)` appends, in increasing order. */
  function Keep(s: seq<int>, cols: nat, row: int, col: int): seq<int>
    decreases |s|
  {
    if |s| == 0 then []
    else Keep(s[..|s| - 1], cols, row, col) + (if Skipped(|s| - 1, cols, row, col) then [] else [s[|s| - 1]])
  }

  /** Walking the first q slots of row p, which follow the p full rows `a`, keeps
      nothing when p is the removed row, and otherwise the row's first q elements
      without column `col`. */
  lemma {:induction false} KeepRow(a: seq<int>, x: seq<int>, cols: nat, row: int, col: int, p: nat, q: nat)
    requires |a| == p * cols && |x| == cols && q <= cols
    ensures Keep(a + x[..q], cols, row, col) ==
      Keep(a, cols, row, col) + (if p == row then [] else Shapes.Without(x[..q], col))
    decreases q
  {
    if q == 0 {
      assert a + x[..q] == a;
    } else {
      KeepRow(a, x, cols, row, col, p, q - 1);
      var o := |a| + q - 1;
      DivModUnique(o, cols, p, q - 1);
      assert (a + x[..q])[..o] == a + x[..q - 1];
      assert x[..q][..q - 1] == x[..q - 1];
    }
  }

  /** The flattened minor of a prefix grows by the new row without column `col`,
      unless the new row is the removed one. */
  lemma MinorFlattenGrow(m: seq<seq<int>>, i: nat, row: int, col: int)
    requires i < |m|
    ensures Flatten(Shapes.Minor(m[..i + 1], row, col)) ==
      Flatten(Shapes.Minor(m[..i], row, col)) + (if i == row then [] else Shapes.Without(m[i], col))
  {
    NestedLoops.MinorGrow(m, i, row, col);
    var before := Shapes.Minor(m[..i], row, col);
    if i != row {
      var x := Shapes.Without(m[i], col);
      assert (before + [x])[..|before + [x]| - 1] == before;
    } else {
      assert before + [] == before;
    }
  }

  /** Over the first p rows the kept slots are the flattening of the minor of those rows. */
  lemma {:induction false} KeepRows(m: seq<seq<int>>, rows: nat, cols: nat, row: int, col: int, p: nat)
    requires IsMatrix(m, rows, cols) && p <= rows
    ensures Keep(Flatten(m[..p]), cols, row, col) == Flatten(Shapes.Minor(m[..p], row, col))
    decreases p
  {
    if p > 0 {
      KeepRows(m, rows, cols, row, col, p - 1);
      var a := Flatten(m[..p - 1]);
      FlattenLength(m[..p - 1], p - 1, cols);
      assert m[..p][..p - 1] == m[..p - 1];
      assert Flatten(m[..p]) == a + m[p - 1];
      KeepRow(a, m[p - 1], cols, row, col, p - 1, cols);
      assert m[p - 1][..cols] == m[p - 1];
      MinorFlattenGrow(m, p - 1, row, col);
    }
  }

  /** For an existing row and column the kept slots are the flattened minor: there are
      (rows - 1) * (cols - 1) of them and, read with cols - 1 columns, they are the
      minor of the matrix. */
  lemma KeepIsMinor(s: seq<int>, rows: nat, cols: nat, row: nat, col: nat)
    requires |s| == rows * cols && row < rows && col < cols
    ensures Keep(s, cols, row, col) == Flatten(Shapes.Minor(Unflatten(s, rows, cols), row, col))
    ensures |Keep(s, cols, row, col)| == (rows - 1) * (cols - 1)
    ensures Unflatten(Keep(s, cols, row, col), rows - 1, cols - 1) == Shapes.Minor(Unflatten(s, rows, cols), row, col)
  {
    var m := Unflatten(s, rows, cols);
    FlattenUnflatten(s, rows, cols);
    KeepRows(m, rows, cols, row, col, rows);
    assert m[..rows] == m;
    var mi := Shapes.Minor(m, row, col);
    assert Keep(s, cols, row, col) == Flatten(mi);
    Shapes.MinorShape(m, rows, cols, row, col);
    UnflattenFlatten(mi, rows - 1, cols - 1);
  }

  /** `minorSubmatrix(row, col)`: the slots outside row `row` and column `col` are
      appended in order to a (rows - 1) x (cols - 1) result. For an existing row and
      column that is the minor; otherwise the buffer does not match the shape. */
  method MinorSubmatrix(m: Flat1D.Flat1D, row: int, col: int) returns (r: Flat1D.Flat1D)
    requires m.Valid() && m.rows > 0 && m.cols > 0
    ensures fresh(r) && fresh(r.data) && r.rows == m.rows - 1 && r.cols == m.cols - 1
    ensures r.data[..] == Keep(m.data[..], m.cols, row, col)
    ensures 0 <= row < m.rows && 0 <= col < m.cols ==>
      r.Valid() && r.Cells() == Shapes.Minor(m.Cells(), row, col)
  {
    var buf: seq<int> := [];
    for k := 0 to m.data.Length
      invariant buf == Keep(m.data[..k], m.cols, row, col)
    {
      assert m.data[..k + 1][..k] == m.data[..k];
      if k / m.cols == row || k % m.cols == col {
        continue;
      }
      buf := buf + [m.data[k]];
    }
    assert m.data[..m.data.Length] == m.data[..];
    if 0 <= row < m.rows && 0 <= col < m.cols {
      KeepIsMinor(m.data[..], m.rows, m.cols, row, col);
    }
    r := FromBuffer(m.rows - 1, m.cols - 1, buf);
  }

  // ---------------------------------------------------------------------------
  // submatrix

  /** How many of the columns c0..c1 come before column q of a row. */
  function Clamp(q: nat, c0: nat, c1: nat): nat
    requires c0 <= c1
  {
    if q < c0 then 0 else if q > c1 then c1 - c0 + 1 else q - c0
  }

  /** The flattening of the submatrix: the slots `submatrix` must append, in order. */
  ghost function SubmatrixSlots(d: seq<int>, rows: nat, cols: nat, r0: nat, c0: nat, r1: nat, c1: nat): (e: seq<int>)
    requires |d| == rows * cols && r0 <= r1 < rows && c0 <= c1 < cols
    ensures |e| == (r1 - r0 + 1) * (c1 - c0 + 1)
  {
    var sub := Shapes.Submatrix(Unflatten(d, rows, cols), cols, r0, c0, r1, c1);
    FlattenLength(sub, r1 - r0 + 1, c1 - c0 + 1);
    Flatten(sub)
  }

  /** The state of the jump-ahead loop of `submatrix` at slot i = p * cols + q: the walk
      stays within rows r0..r1 (or has just left row r1), and the buffer is the prefix
      of `e` made of the selected slots of the rows before p and of row p before q. */
  ghost predicate SubmatrixProgress(e: seq<int>, cols: nat, r0: nat, c0: nat, r1: nat, c1: nat,
                                    i: int, p: nat, q: nat, buf: seq<int>)
    requires c0 <= c1
  {
    i == p * cols + q && q < cols && r0 <= p <= r1 + 1 && (p == r1 + 1 ==> q == 0) &&
    0 <= (p - r0) * (c1 - c0 + 1) + Clamp(q, c0, c1) <= |e| &&
    buf == e[..(p - r0) * (c1 - c0 + 1) + Clamp(q, c0, c1)]
  }

  /** While the loop condition holds the walk is on one of the rows r0..r1. */
  lemma SubmatrixInLoop(e: seq<int>, cols: nat, r0: nat, c0: nat, r1: nat, c1: nat, i: int, p: nat, q: nat, buf: seq<int>)
    requires c0 <= c1 < cols && SubmatrixProgress(e, cols, r0, c0, r1, c1, i, p, q, buf)
    requires i <= r1 * cols + c1
    ensures p <= r1
  {
    OffsetOrder(r1, c1, p, q, cols);
  }

  /** Left of column c0 the loop jumps to column c0 of the same row, appending nothing. */
  lemma SubmatrixSkipLeft(e: seq<int>, cols: nat, r0: nat, c0: nat, r1: nat, c1: nat, i: int, p: nat, q: nat, buf: seq<int>)
    requires c0 <= c1 < cols && SubmatrixProgress(e, cols, r0, c0, r1, c1, i, p, q, buf)
    requires p <= r1 && q < c0
    ensures SubmatrixProgress(e, cols, r0, c0, r1, c1, i + (c0 - q - 1) + 1, p, c0, buf)
  {
  }

  /** Past column c1 the loop jumps to the start of the next row. */
  lemma SubmatrixSkipRight(e: seq<int>, cols: nat, r0: nat, c0: nat, r1: nat, c1: nat, i: int, p: nat, q: nat, buf: seq<int>)
    requires c0 <= c1 < cols && SubmatrixProgress(e, cols, r0, c0, r1, c1, i, p, q, buf)
    requires p <= r1 && c1 < q
    ensures SubmatrixProgress(e, cols, r0, c0, r1, c1, i + (cols - q - 1) + 1, p + 1, 0, buf)
  {
    assert (p + 1) * cols == p * cols + cols;
    assert (p + 1 - r0) * (c1 - c0 + 1) == (p - r0) * (c1 - c0 + 1) + (c1 - c0 + 1);
  }

  /** Cell (p, q) of the matrix, for p in r0..r1 and q in c0..c1, is element
      (p - r0) * w + (q - c0) of the flattened submatrix of width w = c1 - c0 + 1. */
  lemma SubmatrixSlotAt(d: seq<int>, rows: nat, cols: nat, r0: nat, c0: nat, r1: nat, c1: nat, p: nat, q: nat)
    requires |d| == rows * cols && r0 <= p <= r1 < rows && c0 <= q <= c1 < cols
    ensures Offset(p, q, cols) < |d|
    ensures Offset(p - r0, q - c0, c1 - c0 + 1) < (r1 - r0 + 1) * (c1 - c0 + 1)
    ensures SubmatrixSlots(d, rows, cols, r0, c0, r1, c1)[Offset(p - r0, q - c0, c1 - c0 + 1)] == d[Offset(p, q, cols)]
  {
    var m := Unflatten(d, rows, cols);
    var sub := Shapes.Submatrix(m, cols, r0, c0, r1, c1);
    OffsetBound(p, q, rows, cols);
    FlattenAt(sub, r1 - r0 + 1, c1 - c0 + 1, p - r0, q - c0);
    Shapes.SubmatrixAt(m, rows, cols, r0, c0, r1, c1);
    UnflattenAt(d, rows, cols, p, q);
  }

  /** Inside columns c0..c1 the walk appends the next element of the submatrix and
      moves to the next slot, which may start the next row. */
  lemma SubmatrixAppend(e: seq<int>, cols: nat, r0: nat, c0: nat, r1: nat, c1: nat,
                        i: int, p: nat, q: nat, buf: seq<int>) returns (p': nat, q': nat)
    requires c0 <= c1 < cols && SubmatrixProgress(e, cols, r0, c0, r1, c1, i, p, q, buf)
    requires p <= r1 && c0 <= q <= c1 && Offset(p - r0, q - c0, c1 - c0 + 1) < |e|
    ensures (p', q') == if q + 1 < cols then (p, q + 1) else (p + 1, 0)
    ensures SubmatrixProgress(e, cols, r0, c0, r1, c1, i + 1, p', q', buf + [e[Offset(p - r0, q - c0, c1 - c0 + 1)]])
  {
    var w := c1 - c0 + 1;
    var n := (p - r0) * w + (q - c0);
    assert e[..n + 1] == e[..n] + [e[n]];
    if q + 1 < cols {
      p', q' := p, q + 1;
    } else {
      p', q' := p + 1, 0;
      assert (p + 1) * cols == p * cols + cols;
      assert (p + 1 - r0) * w == (p - r0) * w + w;
    }
  }

  /** Once the loop condition fails the whole submatrix has been appended. */
  lemma SubmatrixDone(e: seq<int>, cols: nat, r0: nat, c0: nat, r1: nat, c1: nat, i: int, p: nat, q: nat, buf: seq<int>)
    requires c0 <= c1 < cols && SubmatrixProgress(e, cols, r0, c0, r1, c1, i, p, q, buf)
    requires i > r1 * cols + c1 && |e| == (r1 - r0 + 1) * (c1 - c0 + 1)
    ensures buf == e
  {
    OffsetOrder(r1, c1, p, q, cols);
    assert (r1 + 1 - r0) * (c1 - c0 + 1) == (r1 - r0) * (c1 - c0 + 1) + (c1 - c0 + 1);
  }

  /** With an empty row range and a non-empty column range the walk starts past its
      last slot, so the loop does not run. */
  lemma SubmatrixEmptyRows(cols: nat, r0: nat, c0: nat, r1: nat, c1: nat)
    requires r1 + 1 == r0 && c0 <= c1 < cols
    ensures r1 * cols + c1 < r0 * cols + c0
  {
    assert r0 * cols == r1 * cols + cols;
  }

  /** With an empty column range the slots reached by the walk lie past an empty
      stretch of columns, so the buffer has at least one column and `i % cols` is
      defined. */
  lemma SubmatrixWalkWide(cols: nat, r0: nat, c0: nat, r1: nat, c1: nat, i: int)
    requires c1 < c0 && r0 * cols + c0 <= i <= r1 * cols + c1
    ensures cols > 0
  {
  }

  /** The submatrix over an empty range is the matrix of that shape whose buffer is
      empty. */
  lemma SubmatrixEmpty(m: seq<seq<int>>, rows: nat, cols: nat, r0: nat, c0: nat, r1: nat, c1: nat)
    requires IsMatrix(m, rows, cols) && r0 <= r1 + 1 && c0 <= c1 + 1 && (r1 < r0 || c1 < c0)
    requires c0 <= c1 ==> c1 < cols
    ensures (r1 - r0 + 1) * (c1 - c0 + 1) == 0
    ensures Shapes.Submatrix(m, cols, r0, c0, r1, c1) == Unflatten([], r1 - r0 + 1, c1 - c0 + 1)
  {
    var h, w := r1 - r0 + 1, c1 - c0 + 1;
    var s, u := Shapes.Submatrix(m, cols, r0, c0, r1, c1), Unflatten([], h, w);
    assert h == 0 || w == 0;
    assert |s| == h == |u|;
    forall a | 0 <= a < h
      ensures s[a] == u[a]
    {
      assert |s[a]| == 0 == |u[a]|;
    }
  }

  /** One turn of the jump-ahead loop over non-empty ranges: the walk is at cell (p, q)
      of rows r0..r1, and whichever of the three branches `q` selects keeps the loop's
      progress, the third one appending slot i. */
  lemma SubmatrixStep(d: seq<int>, rows: nat, cols: nat, r0: nat, c0: nat, r1: nat, c1: nat,
                      e: seq<int>, i: int, p: nat, q: nat, buf: seq<int>) returns (p': nat, q': nat)
    requires |d| == rows * cols && r0 <= r1 < rows && c0 <= c1 < cols
    requires e == SubmatrixSlots(d, rows, cols, r0, c0, r1, c1)
    requires SubmatrixProgress(e, cols, r0, c0, r1, c1, i, p, q, buf) && i <= r1 * cols + c1
    ensures 0 <= i < |d| && i % cols == q
    ensures q < c0 ==>
      (p', q') == (p, c0) && SubmatrixProgress(e, cols, r0, c0, r1, c1, i + (c0 - q - 1) + 1, p', q', buf)
    ensures c1 < q ==>
      (p', q') == (p + 1, 0) && SubmatrixProgress(e, cols, r0, c0, r1, c1, i + (cols - q - 1) + 1, p', q', buf)
    ensures c0 <= q <= c1 ==> SubmatrixProgress(e, cols, r0, c0, r1, c1, i + 1, p', q', buf + [d[i]])
  {
    SubmatrixInLoop(e, cols, r0, c0, r1, c1, i, p, q, buf);
    DivModUnique(i, cols, p, q);
    OffsetBound(p, q, rows, cols);
    if q < c0 {
      SubmatrixSkipLeft(e, cols, r0, c0, r1, c1, i, p, q, buf);
      p', q' := p, c0;
    } else if c1 < q {
      SubmatrixSkipRight(e, cols, r0, c0, r1, c1, i, p, q, buf);
      p', q' := p + 1, 0;
    } else {
      SubmatrixSlotAt(d, rows, cols, r0, c0, r1, c1, p, q);
      p', q' := SubmatrixAppend(e, cols, r0, c0, r1, c1, i, p, q, buf);
    }
  }

  /** The jump-ahead loop of `submatrix(rowStart, colStart, rowEnd, colEnd)`: the walk
      runs from slot r0 * cols + c0 to slot r1 * cols + c1, jumping ahead to column c0
      when left of it and to the next row when right of c1, and appends every other
      slot. Over non-empty ranges that is the flattened submatrix. An empty row range
      (r1 == r0 - 1) starts the walk past its end, and an empty column range
      (c1 == c0 - 1) makes every slot a jump, so both append nothing. */
  method SubmatrixWalk(m: Flat1D.Flat1D, r0: nat, c0: nat, r1: nat, c1: nat) returns (buf: seq<int>)
    requires m.Valid() && r0 <= r1 + 1 && c0 <= c1 + 1
    requires c0 <= c1 ==> c1 < m.cols
    requires r0 <= r1 && c0 <= c1 ==> r1 < m.rows
    ensures r0 <= r1 && c0 <= c1 ==> buf == SubmatrixSlots(m.data[..], m.rows, m.cols, r0, c0, r1, c1)
    ensures r1 < r0 || c1 < c0 ==> buf == []
  {
    var cols := m.cols;
    ghost var full := r0 <= r1 && c0 <= c1;
    ghost var e := if full then SubmatrixSlots(m.data[..], m.rows, cols, r0, c0, r1, c1) else [];
    buf := [];
    var i := r0 * cols + c0;
    ghost var p, q := r0, c0;
    if !full && c0 <= c1 {
      SubmatrixEmptyRows(cols, r0, c0, r1, c1);
    }
    while i <= r1 * cols + c1
      invariant full ==> SubmatrixProgress(e, cols, r0, c0, r1, c1, i, p, q, buf)
      invariant !full ==> r0 * cols + c0 <= i && buf == [] && (c1 < c0 || r1 * cols + c1 < i)
      decreases r1 * cols + c1 + 1 - i
    {
      if full {
        p, q := SubmatrixStep(m.data[..], m.rows, cols, r0, c0, r1, c1, e, i, p, q, buf);
      } else {
        assert c1 < c0;
        SubmatrixWalkWide(cols, r0, c0, r1, c1, i);
      }
      var col := i % cols;
      if col < c0 {
        i := i + (c0 - col - 1);
      } else if col > c1 {
        i := i + (cols - col - 1);
      } else {
        buf := buf + [m.data[i]];
      }
      i := i + 1;
    }
    if full {
      SubmatrixDone(e, cols, r0, c0, r1, c1, i, p, q, buf);
    }
  }

  /** `submatrix(rowStart, colStart, rowEnd, colEnd)`: a fresh
      (r1 - r0 + 1) x (c1 - c0 + 1) matrix over the slots the walk appends, which is
      the logical submatrix, empty ranges included. */
  method Submatrix(m: Flat1D.Flat1D, r0: nat, c0: nat, r1: nat, c1: nat) returns (r: Flat1D.Flat1D)
    requires m.Valid() && r0 <= r1 + 1 && c0 <= c1 + 1
    requires c0 <= c1 ==> c1 < m.cols
    requires r0 <= r1 && c0 <= c1 ==> r1 < m.rows
    ensures fresh(r) && fresh(r.data) && r.Valid()
    ensures r.rows == r1 - r0 + 1 && r.cols == c1 - c0 + 1
    ensures r.Cells() == Shapes.Submatrix(m.Cells(), m.cols, r0, c0, r1, c1)
  {
    var buf := SubmatrixWalk(m, r0, c0, r1, c1);
    var h, w := r1 - r0 + 1, c1 - c0 + 1;
    ghost var sub := Shapes.Submatrix(m.Cells(), m.cols, r0, c0, r1, c1);
    if r0 <= r1 && c0 <= c1 {
      UnflattenFlatten(sub, h, w);
    } else {
      SubmatrixEmpty(m.Cells(), m.rows, m.cols, r0, c0, r1, c1);
    }
    r := FromBuffer(h, w, buf);
  }

  // ---------------------------------------------------------------------------
  // determinant

  /** One term of the cofactor sum along row 0, with the sign written as the loop
      writes it. */
  lemma ExpansionTerm(s: seq<int>, n: nat, j: nat, minorDet: int)
    requires |s| == n * n && j < n && j < |s|
    requires IsMatrix(Shapes.Minor(Unflatten(s, n, n), 0, j), n - 1, n - 1)
    requires minorDet == Cofactor.Det(Shapes.Minor(Unflatten(s, n, n), 0, j), n - 1)
    ensures Cofactor.Expansion(Unflatten(s, n, n), n, j + 1) ==
      Cofactor.Expansion(Unflatten(s, n, n), n, j) + (if j % 2 == 0 then 1 else -1) * s[j] * minorDet
  {
    UnflattenAt(s, n, n, 0, j);
    Cofactor.ExpansionStep(Unflatten(s, n, n), n, j);
  }

  /** The loop of `determinant()` for a square matrix of size 3 or more: entry (0, j)
      is slot j, and each minor's determinant comes from `determinant()` on the
      smaller matrix. The sum is the cofactor expansion along row 0. */
  method CofactorSum(m: Flat1D.Flat1D) returns (det: int)
    requires m.Valid() && m.rows == m.cols
    ensures det == Cofactor.Expansion(m.Cells(), m.rows, m.rows)
    decreases m.rows, 1
  {
    var n := m.rows;
    ghost var s := m.data[..];
    det := 0;
    for j := 0 to n
      invariant det == Cofactor.Expansion(Unflatten(s, n, n), n, j)
    {
      var d := MinorDeterminant(m, j);
      MulMonotone(n, 1, n);
      ExpansionTerm(s, n, j, d);
      det := det + (if j % 2 == 0 then 1 else -1) * m.data[j] * d;
    }
  }

  /** `this.minorSubmatrix(0, j).determinant()` inside that loop: the determinant of
      the minor of entry (0, j). */
  method MinorDeterminant(m: Flat1D.Flat1D, j: nat) returns (d: int)
    requires m.Valid() && m.rows == m.cols && j < m.cols
    ensures IsMatrix(Shapes.Minor(m.Cells(), 0, j), m.rows - 1, m.rows - 1)
    ensures d == Cofactor.Det(Shapes.Minor(m.Cells(), 0, j), m.rows - 1)
    decreases m.rows, 0
  {
    var sub := MinorSubmatrix(m, 0, j);
    var r := Determinant(sub);
    d := r.value;
  }

  /** The closed form on a 1 x 1 buffer: slot 0. */
  lemma Det1(s: seq<int>)
    requires |s| == 1
    ensures Cofactor.Det(Unflatten(s, 1, 1), 1) == s[0]
  {
    UnflattenAt(s, 1, 1, 0, 0);
  }

  /** The closed form on a 2 x 2 buffer: slots 0 * 3 - 1 * 2. */
  lemma Det2(s: seq<int>)
    requires |s| == 4
    ensures Cofactor.Det(Unflatten(s, 2, 2), 2) == s[0] * s[3] - s[1] * s[2]
  {
    var m := Unflatten(s, 2, 2);
    UnflattenAt(s, 2, 2, 0, 0);
    UnflattenAt(s, 2, 2, 0, 1);
    UnflattenAt(s, 2, 2, 1, 0);
    UnflattenAt(s, 2, 2, 1, 1);
    assert m[0][0] == s[0] && m[0][1] == s[1] && m[1][0] == s[2] && m[1][1] == s[3];
  }

  /** `determinant()`: a NotSquare error unless rows == cols; slot 0 for 1 x 1, slots
      0 * 3 - 1 * 2 for 2 x 2, and otherwise the cofactor sum over row 0 with slot j as
      the entry (0, j). It is the determinant of the logical matrix. */
  method Determinant(m: Flat1D.Flat1D) returns (r: Result<int>)
    requires m.Valid()
    ensures r.Err? <==> m.rows != m.cols
    ensures r.Err? ==> r.error == NotSquare
    ensures r.Ok? ==> r.value == Cofactor.Det(m.Cells(), m.rows)
    decreases m.rows, 2
  {
    if m.rows != m.cols {
      return Err(NotSquare);
    }
    var n := m.rows;
    ghost var cells := m.Cells();
    if n == 1 {
      Det1(m.data[..]);
      return Ok(m.data[0]);
    }
    if n == 2 {
      Det2(m.data[..]);
      return Ok(m.data[0] * m.data[3] - m.data[1] * m.data[2]);
    }
    var det := CofactorSum(m);
    Cofactor.DetIsExpansion(cells, n);
    r := Ok(det);
  }
}
