/** Matrix construction and arithmetic on logical matrices: the values every layout's
    `from`/`zeroes`/`identity`, `add`, `subtract`, `multiplyWithScalar` and `multiply`
    must produce. */
module Algebra {
  import opened Logical
  import Folds

  /** `a` and `b` have the same number of rows and equally long rows. */
  predicate SameShape(a: seq<seq<int>>, b: seq<seq<int>>) {
    |a| == |b| && forall i :: 0 <= i < |a| ==> |a[i]| == |b[i]|
  }

  /** A rows x cols matrix with every cell `v` (`fill(v)`; `from`/`zeroes` use 0). */
  function Filled(rows: nat, cols: nat, v: int): (m: seq<seq<int>>)
    ensures IsMatrix(m, rows, cols)
  {
    seq(rows, _ => seq(cols, _ => v))
  }

  /** The n x n identity matrix. */
  function Identity(n: nat): (m: seq<seq<int>>)
    ensures IsMatrix(m, n, n)
  {
    seq(n, i => seq(n, j => if i == j then 1 else 0))
  }

  /** Elementwise sum of two equally shaped matrices. */
  function Add(a: seq<seq<int>>, b: seq<seq<int>>): (r: seq<seq<int>>)
    requires SameShape(a, b)
    ensures SameShape(r, a)
  {
    seq(|a|, i requires 0 <= i < |a| => seq(|a[i]|, j requires 0 <= j < |a[i]| => a[i][j] + b[i][j]))
  }

  /** Elementwise difference of two equally shaped matrices. */
  function Sub(a: seq<seq<int>>, b: seq<seq<int>>): (r: seq<seq<int>>)
    requires SameShape(a, b)
    ensures SameShape(r, a)
  {
    seq(|a|, i requires 0 <= i < |a| => seq(|a[i]|, j requires 0 <= j < |a[i]| => a[i][j] - b[i][j]))
  }

  /** Every cell multiplied by `s`. */
  function Scale(a: seq<seq<int>>, s: int): (r: seq<seq<int>>)
    ensures SameShape(r, a)
  {
    seq(|a|, i requires 0 <= i < |a| => seq(|a[i]|, j requires 0 <= j < |a[i]| => a[i][j] * s))
  }

  /** The first n diagonal cells m[0][0], ..., m[n-1][n-1] (`diagonal()` with n the
      smaller dimension). */
  function Diagonal(m: seq<seq<int>>, n: nat): (d: seq<int>)
    requires n <= |m| && forall i :: 0 <= i < n ==> n <= |m[i]|
    ensures |d| == n
  {
    seq(n, i requires 0 <= i < n => m[i][i])
  }

  /** The trace of the n x n identity is n: each of the first k diagonal cells is 1. */
  lemma {:induction false} TraceIdentity(n: nat, k: nat)
    requires k <= n
    ensures Folds.Sum(Diagonal(Identity(n), n)[..k]) == k
    decreases k
  {
    if k > 0 {
      var d := Diagonal(Identity(n), n);
      assert d[..k][..k - 1] == d[..k - 1];
      TraceIdentity(n, k - 1);
    }
  }

  /** The trace of a sum is the sum of the traces, prefix by prefix. */
  lemma TraceAdd(a: seq<seq<int>>, b: seq<seq<int>>, n: nat, k: nat)
    requires IsMatrix(a, n, n) && IsMatrix(b, n, n) && k <= n
    ensures SameShape(a, b) && IsMatrix(Add(a, b), n, n)
    ensures Folds.Sum(Diagonal(Add(a, b), n)[..k]) == Folds.Sum(Diagonal(a, n)[..k]) + Folds.Sum(Diagonal(b, n)[..k])
  {
    SumPointwise(Diagonal(Add(a, b), n), Diagonal(a, n), Diagonal(b, n), k);
  }

  /** Summing a pointwise sum of two sequences adds their sums. */
  lemma {:induction false} SumPointwise(d: seq<int>, da: seq<int>, db: seq<int>, k: nat)
    requires k <= |d| == |da| == |db|
    requires forall i :: 0 <= i < k ==> d[i] == da[i] + db[i]
    ensures Folds.Sum(d[..k]) == Folds.Sum(da[..k]) + Folds.Sum(db[..k])
    decreases k
  {
    if k > 0 {
      assert d[..k][..k - 1] == d[..k - 1];
      assert da[..k][..k - 1] == da[..k - 1];
      assert db[..k][..k - 1] == db[..k - 1];
      SumPointwise(d, da, db, k - 1);
    }
  }

  /** Addition does not depend on the order of the operands. */
  lemma AddCommutative(a: seq<seq<int>>, b: seq<seq<int>>)
    requires SameShape(a, b)
    ensures SameShape(b, a) && Add(a, b) == Add(b, a)
  {
    forall i | 0 <= i < |a|
      ensures Add(a, b)[i] == Add(b, a)[i]
    {
    }
  }

  /** Subtracting and then adding back the same matrix restores the original. */
  lemma SubThenAdd(a: seq<seq<int>>, b: seq<seq<int>>)
    requires SameShape(a, b)
    ensures SameShape(Sub(a, b), b) && Add(Sub(a, b), b) == a
  {
    var d := Sub(a, b);
    forall i | 0 <= i < |a|
      ensures Add(d, b)[i] == a[i]
    {
    }
  }

  /** Scaling twice is scaling by the product; scaling by 1 changes nothing. */
  lemma ScaleCompose(a: seq<seq<int>>, s: int, t: int)
    ensures Scale(Scale(a, s), t) == Scale(a, s * t)
    ensures Scale(a, 1) == a
  {
    forall i | 0 <= i < |a|
      ensures Scale(Scale(a, s), t)[i] == Scale(a, s * t)[i]
    {
      forall j | 0 <= j < |a[i]|
        ensures Scale(Scale(a, s), t)[i][j] == Scale(a, s * t)[i][j]
      {
        assert (a[i][j] * s) * t == a[i][j] * (s * t);
      }
    }
    forall i | 0 <= i < |a|
      ensures Scale(a, 1)[i] == a[i]
    {
    }
  }

  /** The sum a[i][0] * b[0][j] + ... + a[i][n-1] * b[n-1][j]. */
  function Dot(a: seq<seq<int>>, b: seq<seq<int>>, i: nat, j: nat, n: nat): int
    requires i < |a| && n <= |a[i]| && n <= |b|
    requires forall k :: 0 <= k < n ==> j < |b[k]|
    decreases n
  {
    if n == 0 then 0 else Dot(a, b, i, j, n - 1) + a[i][n - 1] * b[n - 1][j]
  }

  /** The product of an m x inner matrix and an inner x bcols matrix. */
  function Mul(a: seq<seq<int>>, b: seq<seq<int>>, inner: nat, bcols: nat): (r: seq<seq<int>>)
    requires IsMatrix(a, |a|, inner) && IsMatrix(b, inner, bcols)
    ensures IsMatrix(r, |a|, bcols)
  {
    seq(|a|, i requires 0 <= i < |a| => seq(bcols, j requires 0 <= j < bcols => Dot(a, b, i, j, inner)))
  }

  /** Against the identity, the first n terms of a dot product pick out cell (i, j)
      if i < n, and nothing otherwise. */
  lemma {:induction false} DotIdentityLeft(a: seq<seq<int>>, size: nat, cols: nat, i: nat, j: nat, n: nat)
    requires IsMatrix(a, size, cols) && i < size && j < cols && n <= size
    ensures Dot(Identity(size), a, i, j, n) == if i < n then a[i][j] else 0
    decreases n
  {
    if n > 0 {
      DotIdentityLeft(a, size, cols, i, j, n - 1);
    }
  }

  lemma {:induction false} DotIdentityRight(a: seq<seq<int>>, rows: nat, size: nat, i: nat, j: nat, n: nat)
    requires IsMatrix(a, rows, size) && i < rows && j < size && n <= size
    ensures Dot(a, Identity(size), i, j, n) == if j < n then a[i][j] else 0
    decreases n
  {
    if n > 0 {
      DotIdentityRight(a, rows, size, i, j, n - 1);
    }
  }

  /** The identity is neutral for multiplication on both sides. */
  lemma MulIdentity(a: seq<seq<int>>, rows: nat, cols: nat)
    requires IsMatrix(a, rows, cols)
    ensures Mul(Identity(rows), a, rows, cols) == a
    ensures Mul(a, Identity(cols), cols, cols) == a
  {
    forall i | 0 <= i < rows
      ensures Mul(Identity(rows), a, rows, cols)[i] == a[i]
    {
      forall j | 0 <= j < cols
        ensures Mul(Identity(rows), a, rows, cols)[i][j] == a[i][j]
      {
        DotIdentityLeft(a, rows, cols, i, j, rows);
      }
    }
    forall i | 0 <= i < rows
      ensures Mul(a, Identity(cols), cols, cols)[i] == a[i]
    {
      forall j | 0 <= j < cols
        ensures Mul(a, Identity(cols), cols, cols)[i][j] == a[i][j]
      {
        DotIdentityRight(a, rows, cols, i, j, cols);
      }
    }
  }

  /** The product from the test suite: a 4 x 3 matrix times a 3 x 3 matrix. */
  lemma MultiplyExample()
    ensures Mul([[1, 0, 1], [2, 1, 1], [0, 1, 1], [1, 1, 2]], [[1, 2, 1], [2, 3, 1], [4, 2, 2]], 3, 3)
         == [[5, 4, 3], [8, 9, 5], [6, 5, 3], [11, 9, 6]]
  {
    var a, b := [[1, 0, 1], [2, 1, 1], [0, 1, 1], [1, 1, 2]], [[1, 2, 1], [2, 3, 1], [4, 2, 2]];
    var e := [[5, 4, 3], [8, 9, 5], [6, 5, 3], [11, 9, 6]];
    var r := Mul(a, b, 3, 3);
    forall i | 0 <= i < 4
      ensures r[i] == e[i]
    {
      forall j | 0 <= j < 3
        ensures r[i][j] == e[i][j]
      {
        assert r[i][j] == a[i][0] * b[0][j] + a[i][1] * b[1][j] + a[i][2] * b[2][j];
      }
    }
  }
}
