/** `src/matrix/naive2D.js`: the minimal nested-rows backend, with bounds-checked
    `get`/`set` and row-major iteration only. */
module Naive2D {
  import opened Results
  import opened Logical

  class Naive2D {
    var data: seq<seq<int>>
    var rows: nat
    var cols: nat

    /** The fields describe a rows x cols matrix. */
    ghost predicate Valid()
      reads this
    {
      IsMatrix(data, rows, cols)
    }

    /** `new Naive2D(data)`: the rows as given, rows from their count and columns from
        the first row's length. */
    constructor (data: seq<seq<int>>)
      requires IsRectangular(data)
      ensures Valid() && this.data == data && rows == |data| && cols == |data[0]|
    {
      this.data := data;
      rows := |data|;
      cols := |data[0]|;
    }

    /** `[Symbol.iterator]()`: every cell, row by row; `rows * cols` values in the
        row-major order of the flattening. */
    method Iterator() returns (vs: seq<int>)
      requires Valid()
      ensures |vs| == rows * cols && vs == Flatten(data)
    {
      vs := [];
      for i := 0 to rows
        invariant vs == Flatten(data[..i])
      {
        for j := 0 to cols
          invariant vs == Flatten(data[..i]) + data[i][..j]
        {
          assert data[i][..j + 1] == data[i][..j] + [data[i][j]];
          vs := vs + [data[i][j]];
        }
        assert data[..i + 1][..i] == data[..i];
        assert data[i][..cols] == data[i];
      }
      assert data[..rows] == data;
      FlattenLength(data, rows, cols);
    }

    /** `#checkIndex(i, j)`: a RangeError exactly when (i, j) is not a cell. */
    function CheckIndex(i: int, j: int): (o: Outcome)
      reads this
      ensures o.Pass? <==> InBounds(i, j, rows, cols)
      ensures o.Fail? ==> o.error == RangeError
    {
      if i < 0 || i >= rows || j < 0 || j >= cols then Fail(RangeError) else Pass
    }

    /** `get(i, j)`: the cell, after the bounds check. */
    function Get(i: int, j: int): (r: Result<int>)
      reads this
      requires Valid()
      ensures r.Ok? <==> InBounds(i, j, rows, cols)
      ensures r.Err? ==> r.error == RangeError
      ensures r.Ok? ==> r.value == data[i][j]
    {
      match CheckIndex(i, j)
      case Fail(e) => Err(e)
      case Pass => Ok(data[i][j])
    }

    /** `set(i, j, value)`: the check runs first, so a failed `set` writes nothing; a
        successful one changes cell (i, j), which `get` then returns, and no other. */
    method Set(i: int, j: int, value: int) returns (o: Outcome)
      requires Valid()
      modifies this
      ensures Valid() && rows == old(rows) && cols == old(cols)
      ensures o == CheckIndex(i, j)
      ensures o.Fail? ==> data == old(data)
      ensures o.Pass? ==> data[i][j] == value && Get(i, j) == Ok(value)
      ensures o.Pass? ==> forall a, b :: 0 <= a < rows && 0 <= b < cols && (a, b) != (i, j) ==>
        data[a][b] == old(data)[a][b]
    {
      o := CheckIndex(i, j);
      if o.Pass? {
        data := data[i := data[i][j := value]];
      }
    }
  }
}
