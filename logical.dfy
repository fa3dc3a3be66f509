/** The logical matrix every layout stands for: a sequence of `rows` rows of `cols`
    integers each, its row-major placement in a flat buffer, and the row-major
    index and entry sequences the iterators produce. */
module Logical {

  /** `m` is a rows x cols matrix: `rows` rows, each of length `cols`. */
  predicate IsMatrix(m: seq<seq<int>>, rows: nat, cols: nat) {
    |m| == rows && forall i :: 0 <= i < |m| ==> |m[i]| == cols
  }

  /** Every row of `m` has the length of the first one. */
  predicate IsRectangular(m: seq<seq<int>>) {
    |m| > 0 && IsMatrix(m, |m|, |m[0]|)
  }

  /** (i, j) names a cell of a rows x cols matrix: the test behind every layout's
      `checkIndex(i, j)` and `#index(i, j)`. */
  predicate InBounds(i: int, j: int, rows: nat, cols: nat) {
    0 <= i < rows && 0 <= j < cols
  }

  // ---------------------------------------------------------------------------
  // Row-major placement

  /** The flat slot of cell (i, j) in a row-major buffer with `cols` columns. */
  function Offset(i: nat, j: nat, cols: nat): nat {
    i * cols + j
  }

  /** The cell (row, column) stored in flat slot `k`: the inverse of `Offset`. */
  function Pos(k: nat, cols: nat): (p: (nat, nat))
    requires cols > 0
    ensures p.1 < cols && Offset(p.0, p.1, cols) == k
  {
    (k / cols, k % cols)
  }

  /** Multiplication by a non-negative factor is monotone. */
  lemma MulMonotone(a: int, b: int, d: int)
    requires a >= b && d >= 0
    ensures a * d >= b * d
  {
    assert a * d - b * d == (a - b) * d;
  }

  /** Euclidean quotient and remainder are unique. */
  lemma DivModUnique(k: int, d: int, q: int, r: int)
    requires d > 0 && 0 <= r < d && k == q * d + r
    ensures k / d == q && k % d == r
  {
    var q', r' := k / d, k % d;
    assert q' * d + r' == k;
    if q > q' {
      MulMonotone(q - q', 1, d);
    } else if q < q' {
      MulMonotone(q' - q, 1, d);
    }
  }

  /** A cell's slot lies in the buffer. */
  lemma OffsetBound(i: nat, j: nat, rows: nat, cols: nat)
    requires i < rows && j < cols
    ensures Offset(i, j, cols) < rows * cols
  {
    MulMonotone(rows, i + 1, cols);
  }

  /** `Pos` undoes `Offset`. */
  lemma PosOffset(i: nat, j: nat, cols: nat)
    requires j < cols
    ensures Pos(Offset(i, j, cols), cols) == (i, j)
  {
    DivModUnique(Offset(i, j, cols), cols, i, j);
  }

  /** Walking the cells in row-major order: the cell after (p, q), at offset k + 1. */
  lemma NextCell(k: nat, rows: nat, cols: nat, p: nat, q: nat) returns (p': nat, q': nat)
    requires k < rows * cols && k == p * cols + q && q < cols && p <= rows && (q > 0 ==> p < rows)
    ensures p < rows
    ensures (p', q') == if q + 1 < cols then (p, q + 1) else (p + 1, 0)
    ensures k + 1 == p' * cols + q' && q' < cols && p' <= rows && (q' > 0 ==> p' < rows)
  {
    if q + 1 < cols {
      p', q' := p, q + 1;
    } else {
      assert (p + 1) * cols == p * cols + cols;
      p', q' := p + 1, 0;
    }
  }

  /** A slot of the buffer holds a cell of the matrix. */
  lemma PosBound(k: nat, rows: nat, cols: nat)
    requires k < rows * cols
    ensures cols > 0 && Pos(k, cols).0 < rows
  {
    if k / cols >= rows {
      MulMonotone(k / cols, rows, cols);
    }
  }

  /** The row-major offset is a bijection from [0, rows) x [0, cols) onto
      [0, rows * cols): it lands in the buffer, it is one-to-one, and every slot
      is the offset of a cell, the one `Pos` names. */
  lemma OffsetBijection(rows: nat, cols: nat)
    ensures forall i: nat, j: nat :: i < rows && j < cols ==> Offset(i, j, cols) < rows * cols
    ensures forall i1: nat, j1: nat, i2: nat, j2: nat ::
      j1 < cols && j2 < cols && Offset(i1, j1, cols) == Offset(i2, j2, cols) ==> i1 == i2 && j1 == j2
    ensures forall k: nat :: k < rows * cols ==>
      cols > 0 && Pos(k, cols).0 < rows && Offset(Pos(k, cols).0, Pos(k, cols).1, cols) == k
  {
    forall i: nat, j: nat | i < rows && j < cols
      ensures Offset(i, j, cols) < rows * cols
    {
      OffsetBound(i, j, rows, cols);
    }
    forall i1: nat, j1: nat, i2: nat, j2: nat |
      j1 < cols && j2 < cols && Offset(i1, j1, cols) == Offset(i2, j2, cols)
      ensures i1 == i2 && j1 == j2
    {
      PosOffset(i1, j1, cols);
      PosOffset(i2, j2, cols);
    }
    forall k: nat | k < rows * cols
      ensures cols > 0 && Pos(k, cols).0 < rows
    {
      PosBound(k, rows, cols);
    }
  }

  // ---------------------------------------------------------------------------
  // Flattening

  /** The row-major concatenation of the rows of `m` (`data.flat()`). */
  function Flatten(m: seq<seq<int>>): seq<int>
    decreases |m|
  {
    if |m| == 0 then [] else Flatten(m[..|m| - 1]) + m[|m| - 1]
  }

  lemma {:induction false} FlattenLength(m: seq<seq<int>>, rows: nat, cols: nat)
    requires IsMatrix(m, rows, cols)
    ensures |Flatten(m)| == rows * cols
    decreases rows
  {
    if rows > 0 {
      FlattenLength(m[..rows - 1], rows - 1, cols);
      assert (rows - 1) * cols + cols == rows * cols;
    }
  }

  /** Flattening keeps logical position: cell (i, j) lands in slot `Offset(i, j, cols)`. */
  lemma {:induction false} FlattenAt(m: seq<seq<int>>, rows: nat, cols: nat, i: nat, j: nat)
    requires IsMatrix(m, rows, cols) && i < rows && j < cols
    ensures |Flatten(m)| == rows * cols
    ensures Offset(i, j, cols) < rows * cols && Flatten(m)[Offset(i, j, cols)] == m[i][j]
    decreases rows
  {
    FlattenLength(m, rows, cols);
    OffsetBound(i, j, rows, cols);
    FlattenLength(m[..rows - 1], rows - 1, cols);
    if i < rows - 1 {
      FlattenAt(m[..rows - 1], rows - 1, cols, i, j);
    } else {
      assert Offset(i, j, cols) == (rows - 1) * cols + j;
    }
  }

  /** The flattening has one slot per cell, and slot `Offset(i, j)` holds cell (i, j). */
  lemma FlattenCells(m: seq<seq<int>>, rows: nat, cols: nat)
    requires IsMatrix(m, rows, cols)
    ensures |Flatten(m)| == rows * cols
    ensures forall i, j :: 0 <= i < rows && 0 <= j < cols ==>
      Offset(i, j, cols) < rows * cols && Flatten(m)[Offset(i, j, cols)] == m[i][j]
  {
    FlattenLength(m, rows, cols);
    forall i, j | 0 <= i < rows && 0 <= j < cols
      ensures Offset(i, j, cols) < rows * cols && Flatten(m)[Offset(i, j, cols)] == m[i][j]
    {
      OffsetBound(i, j, rows, cols);
      FlattenAt(m, rows, cols, i, j);
    }
  }

  /** A value occurs in the flattening exactly when some cell holds it. */
  lemma FlattenMembers(m: seq<seq<int>>, rows: nat, cols: nat, v: int)
    requires IsMatrix(m, rows, cols)
    ensures v in Flatten(m) <==> exists i, j :: 0 <= i < rows && 0 <= j < cols && m[i][j] == v
  {
    FlattenCells(m, rows, cols);
    if v in Flatten(m) {
      var k :| 0 <= k < |Flatten(m)| && Flatten(m)[k] == v;
      PosBound(k, rows, cols);
      var (i, j) := Pos(k, cols);
      assert m[i][j] == v;
    }
  }

  /** Flattening appends the rows one after another. */
  lemma {:induction false} FlattenConcat(a: seq<seq<int>>, b: seq<seq<int>>)
    ensures Flatten(a + b) == Flatten(a) + Flatten(b)
    decreases |b|
  {
    if |b| == 0 {
      assert a + b == a;
    } else {
      var c, x := b[..|b| - 1], b[|b| - 1];
      assert (a + b)[..|a + b| - 1] == a + c;
      assert (a + b)[|a + b| - 1] == x;
      assert Flatten(a + b) == Flatten(a + c) + x;
      FlattenConcat(a, c);
      assert Flatten(b) == Flatten(c) + x;
    }
  }

  /** Cuts a row-major buffer back into `rows` rows of `cols` elements. */
  function Unflatten(s: seq<int>, rows: nat, cols: nat): (m: seq<seq<int>>)
    requires |s| == rows * cols
    ensures IsMatrix(m, rows, cols)
    decreases rows
  {
    if rows == 0 then []
    else
      assert (rows - 1) * cols + cols == rows * cols;
      Unflatten(s[..(rows - 1) * cols], rows - 1, cols) + [s[(rows - 1) * cols..]]
  }

  /** Cell (i, j) of the unflattened buffer is slot `Offset(i, j, cols)`. */
  lemma {:induction false} UnflattenAt(s: seq<int>, rows: nat, cols: nat, i: nat, j: nat)
    requires |s| == rows * cols && i < rows && j < cols
    ensures Offset(i, j, cols) < |s| && Unflatten(s, rows, cols)[i][j] == s[Offset(i, j, cols)]
    decreases rows
  {
    OffsetBound(i, j, rows, cols);
    assert (rows - 1) * cols + cols == rows * cols;
    if i < rows - 1 {
      UnflattenAt(s[..(rows - 1) * cols], rows - 1, cols, i, j);
    }
  }

  /** Round trip: unflattening the flattening of a rows x cols matrix gives it back. */
  lemma {:induction false} UnflattenFlatten(m: seq<seq<int>>, rows: nat, cols: nat)
    requires IsMatrix(m, rows, cols)
    ensures |Flatten(m)| == rows * cols && Unflatten(Flatten(m), rows, cols) == m
    decreases rows
  {
    FlattenLength(m, rows, cols);
    if rows > 0 {
      var pre := m[..rows - 1];
      FlattenLength(pre, rows - 1, cols);
      assert Flatten(m)[..(rows - 1) * cols] == Flatten(pre);
      assert Flatten(m)[(rows - 1) * cols..] == m[rows - 1];
      UnflattenFlatten(pre, rows - 1, cols);
      assert m == pre + [m[rows - 1]];
    }
  }

  /** Round trip: flattening the unflattened buffer gives the buffer back. */
  lemma {:induction false} FlattenUnflatten(s: seq<int>, rows: nat, cols: nat)
    requires |s| == rows * cols
    ensures Flatten(Unflatten(s, rows, cols)) == s
    decreases rows
  {
    if rows > 0 {
      var p := (rows - 1) * cols;
      assert p + cols == rows * cols;
      var pre, last := s[..p], s[p..];
      var u := Unflatten(s, rows, cols);
      assert u == Unflatten(pre, rows - 1, cols) + [last];
      assert u[..rows - 1] == Unflatten(pre, rows - 1, cols);
      FlattenUnflatten(pre, rows - 1, cols);
      assert Flatten(u) == pre + last;
      assert s == pre + last;
    }
  }

  /** Writing one slot of the buffer writes the one cell it stands for. */
  lemma UnflattenUpdate(s: seq<int>, rows: nat, cols: nat, i: nat, j: nat, v: int)
    requires |s| == rows * cols && i < rows && j < cols
    ensures Offset(i, j, cols) < |s|
    ensures Unflatten(s[Offset(i, j, cols) := v], rows, cols) ==
      Unflatten(s, rows, cols)[i := Unflatten(s, rows, cols)[i][j := v]]
  {
    OffsetBound(i, j, rows, cols);
    var before := Unflatten(s, rows, cols);
    var t := s[Offset(i, j, cols) := v];
    var expected := before[i := before[i][j := v]];
    forall a: nat, b: nat | a < rows && b < cols
      ensures Offset(a, b, cols) < |t| && t[Offset(a, b, cols)] == expected[a][b]
    {
      OffsetBound(a, b, rows, cols);
      UnflattenAt(s, rows, cols, a, b);
      if (a, b) != (i, j) {
        PosOffset(a, b, cols);
        PosOffset(i, j, cols);
      }
    }
    UnflattenFromCells(t, expected, rows, cols);
  }

  /** Two buffers holding the same matrix are equal; the unflattened matrix tells
      everything about the buffer. */
  lemma UnflattenInjective(s: seq<int>, t: seq<int>, rows: nat, cols: nat)
    requires |s| == rows * cols && |t| == rows * cols
    requires Unflatten(s, rows, cols) == Unflatten(t, rows, cols)
    ensures s == t
  {
    FlattenUnflatten(s, rows, cols);
    FlattenUnflatten(t, rows, cols);
  }

  /** A buffer whose slot `Offset(i, j)` holds `m[i][j]` for every cell is the
      flattening of `m`, and unflattens to `m`. */
  lemma UnflattenFromCells(s: seq<int>, m: seq<seq<int>>, rows: nat, cols: nat)
    requires |s| == rows * cols && IsMatrix(m, rows, cols)
    requires forall i: nat, j: nat :: i < rows && j < cols ==>
      Offset(i, j, cols) < |s| && s[Offset(i, j, cols)] == m[i][j]
    ensures Unflatten(s, rows, cols) == m
  {
    var u := Unflatten(s, rows, cols);
    forall i | 0 <= i < rows
      ensures u[i] == m[i]
    {
      forall j | 0 <= j < cols
        ensures u[i][j] == m[i][j]
      {
        UnflattenAt(s, rows, cols, i, j);
      }
    }
  }

  // ---------------------------------------------------------------------------
  // Row-major iteration

  /** The (row, column) pairs of a rows x cols matrix in row-major order (`indexes()`). */
  function Indexes(rows: nat, cols: nat): (idx: seq<(nat, nat)>)
    ensures |idx| == rows * cols
  {
    seq(rows * cols, k requires 0 <= k < rows * cols => (PosBound(k, rows, cols); Pos(k, cols)))
  }

  /** The pair for cell (i, j) stands at position `Offset(i, j, cols)`. */
  lemma IndexesAt(rows: nat, cols: nat, i: nat, j: nat)
    requires i < rows && j < cols
    ensures Offset(i, j, cols) < rows * cols && Indexes(rows, cols)[Offset(i, j, cols)] == (i, j)
  {
    OffsetBound(i, j, rows, cols);
    PosOffset(i, j, cols);
  }

  /** `indexes()` yields every cell of [0, rows) x [0, cols) exactly once and nothing
      else, in row-major order. */
  lemma IndexesRowMajor(rows: nat, cols: nat)
    ensures forall k :: 0 <= k < rows * cols ==>
      Indexes(rows, cols)[k].0 < rows && Indexes(rows, cols)[k].1 < cols
    ensures forall i: nat, j: nat :: i < rows && j < cols ==> (i, j) in Indexes(rows, cols)
    ensures forall k1, k2 :: 0 <= k1 < k2 < rows * cols ==>
      var p1, p2 := Indexes(rows, cols)[k1], Indexes(rows, cols)[k2];
      p1.0 < p2.0 || (p1.0 == p2.0 && p1.1 < p2.1)
  {
    var idx := Indexes(rows, cols);
    forall k | 0 <= k < rows * cols
      ensures idx[k].0 < rows && idx[k].1 < cols
    {
      PosBound(k, rows, cols);
    }
    forall i: nat, j: nat | i < rows && j < cols
      ensures (i, j) in idx
    {
      IndexesAt(rows, cols, i, j);
    }
    forall k1, k2 | 0 <= k1 < k2 < rows * cols
      ensures idx[k1].0 < idx[k2].0 || (idx[k1].0 == idx[k2].0 && idx[k1].1 < idx[k2].1)
    {
      PosBound(k1, rows, cols);
      PosBound(k2, rows, cols);
      var p1, p2 := Pos(k1, cols), Pos(k2, cols);
      assert idx[k1] == p1 && idx[k2] == p2;
      OffsetOrder(p1.0, p1.1, p2.0, p2.1, cols);
    }
  }

  /** Cell (a, b) comes before cell (i, j) in row-major order. */
  predicate Before(a: nat, b: nat, i: nat, j: nat) {
    a < i || (a == i && b < j)
  }

  /** Slot order is row-major order: one cell's slot precedes another's exactly when
      it lies in an earlier row, or earlier in the same row. */
  lemma OffsetOrder(i1: nat, j1: nat, i2: nat, j2: nat, cols: nat)
    requires j1 < cols && j2 < cols
    ensures Offset(i1, j1, cols) < Offset(i2, j2, cols) <==> Before(i1, j1, i2, j2)
  {
    if i1 > i2 {
      MulMonotone(i1, i2 + 1, cols);
    } else if i1 < i2 {
      MulMonotone(i2, i1 + 1, cols);
    }
  }

  /** One element visited by `entries()`: its row, column and value. */
  datatype Entry = Entry(i: nat, j: nat, value: int)

  /** The entry stored in row-major position `k`. */
  function EntryAt(m: seq<seq<int>>, rows: nat, cols: nat, k: nat): (e: Entry)
    requires IsMatrix(m, rows, cols) && k < rows * cols
    ensures e.i < rows && e.j < cols && Offset(e.i, e.j, cols) == k && e.value == m[e.i][e.j]
  {
    PosBound(k, rows, cols);
    var (i, j) := Pos(k, cols);
    Entry(i, j, m[i][j])
  }

  /** The (row, column, value) triples of `m` in row-major order (`entries()`). */
  function Entries(m: seq<seq<int>>, rows: nat, cols: nat): (es: seq<Entry>)
    requires IsMatrix(m, rows, cols)
    ensures |es| == rows * cols
  {
    seq(rows * cols, k requires 0 <= k < rows * cols => EntryAt(m, rows, cols, k))
  }

  /** Entry `Offset(i, j)` is cell (i, j). */
  lemma EntrySlot(m: seq<seq<int>>, rows: nat, cols: nat, i: nat, j: nat)
    requires IsMatrix(m, rows, cols) && i < rows && j < cols
    ensures Offset(i, j, cols) < rows * cols
    ensures Entries(m, rows, cols)[Offset(i, j, cols)] == Entry(i, j, m[i][j])
  {
    OffsetBound(i, j, rows, cols);
    PosOffset(i, j, cols);
  }

  /** Entry `Offset(i, j)` is cell (i, j); the entry values are the flattening. */
  lemma EntriesAt(m: seq<seq<int>>, rows: nat, cols: nat, i: nat, j: nat)
    requires IsMatrix(m, rows, cols) && i < rows && j < cols
    ensures Offset(i, j, cols) < rows * cols && |Flatten(m)| == rows * cols
    ensures Entries(m, rows, cols)[Offset(i, j, cols)] == Entry(i, j, m[i][j])
    ensures Flatten(m)[Offset(i, j, cols)] == m[i][j]
  {
    OffsetBound(i, j, rows, cols);
    PosOffset(i, j, cols);
    FlattenAt(m, rows, cols, i, j);
  }

  /** The values of `entries()` are the flattening of the matrix, position by position. */
  lemma EntryValues(m: seq<seq<int>>, rows: nat, cols: nat)
    requires IsMatrix(m, rows, cols)
    ensures |Flatten(m)| == rows * cols
    ensures forall k :: 0 <= k < rows * cols ==> Entries(m, rows, cols)[k].value == Flatten(m)[k]
  {
    FlattenLength(m, rows, cols);
    forall k | 0 <= k < rows * cols
      ensures Entries(m, rows, cols)[k].value == Flatten(m)[k]
    {
      var e := Entries(m, rows, cols)[k];
      FlattenAt(m, rows, cols, e.i, e.j);
    }
  }
}
