/** `src/matrix/flat1D.js`: one buffer of rows * cols elements in row-major order,
    cell (i, j) at slot `i * cols + j`. The abstraction `Cells()` reads the buffer
    back as a rows x cols matrix. */
module Flat1D {
  import opened Results
  import opened Logical

  class Flat1D {
    var rows: nat
    var cols: nat
    var data: array<int>

    /** The buffer holds one slot per cell. */
    ghost predicate Valid()
      reads this
    {
      data.Length == rows * cols
    }

    /** The logical matrix the buffer stands for. */
    ghost function Cells(): (m: seq<seq<int>>)
      reads this, data
      requires Valid()
      ensures IsMatrix(m, rows, cols)
    {
      Unflatten(data[..], rows, cols)
    }

    /** `new Flat1D(data)`: rows from the array's length, columns from its first row,
        and the buffer as the row-major flattening, so every cell keeps its position. */
    constructor (d: seq<seq<int>>)
      requires IsRectangular(d)
      ensures Valid() && fresh(data) && rows == |d| && cols == |d[0]|
      ensures data[..] == Flatten(d) && Cells() == d
    {
      rows := |d|;
      cols := |d[0]|;
      var flat := Flatten(d);
      UnflattenFlatten(d, |d|, |d[0]|);
      data := new int[|flat|](k requires 0 <= k < |flat| => flat[k]);
      new;
      assert data[..] == flat;
    }

    /** `[Symbol.iterator]()`: slots 0 .. rows * cols - 1 in order, which is the
        row-major order of the cells. */
    method Iterator() returns (vs: seq<int>)
      requires Valid()
      ensures vs == data[..] && vs == Flatten(Cells())
    {
      vs := [];
      for k := 0 to rows * cols
        invariant vs == data[..k]
      {
        vs := vs + [data[k]];
      }
      assert data[..rows * cols] == data[..];
      FlattenUnflatten(data[..], rows, cols);
    }

    /** `#index(i, j)`: a RangeError unless (i, j) is a cell, and otherwise its slot,
        which lies inside the buffer. */
    function Index(i: int, j: int): (r: Result<nat>)
      reads this
      ensures r.Ok? <==> InBounds(i, j, rows, cols)
      ensures r.Err? ==> r.error == RangeError
      ensures r.Ok? ==> r.value == Offset(i, j, cols) && r.value < rows * cols
    {
      if i < 0 || i >= rows || j < 0 || j >= cols then Err(RangeError)
      else
        OffsetBound(i, j, rows, cols);
        Ok(i * cols + j)
    }

    /** `get(i, j)`: the slot of (i, j), which holds cell (i, j) of the logical matrix. */
    function Get(i: int, j: int): (r: Result<int>)
      reads this, data
      requires Valid()
      ensures r.Ok? <==> InBounds(i, j, rows, cols)
      ensures r.Err? ==> r.error == RangeError
      ensures r.Ok? ==> r.value == Cells()[i][j]
    {
      match Index(i, j)
      case Err(e) => Err(e)
      case Ok(k) =>
        UnflattenAt(data[..], rows, cols, i, j);
        Ok(data[k])
    }

    /** `set(i, j, value)`: the index is computed, and checked, before the write, so a
        failed `set` changes nothing; a successful one changes exactly one slot, which
        is cell (i, j) of the logical matrix. */
    method Set(i: int, j: int, value: int) returns (o: Outcome)
      requires Valid()
      modifies data
      ensures Valid()
      ensures o.Pass? <==> InBounds(i, j, rows, cols)
      ensures o.Fail? ==> o.error == RangeError && data[..] == old(data[..])
      ensures o.Pass? ==> data[..] == old(data[..])[Index(i, j).value := value]
      ensures o.Pass? ==> Get(i, j) == Ok(value)
      ensures o.Pass? ==> Cells() == old(Cells())[i := old(Cells())[i][j := value]]
    {
      var index := Index(i, j);
      if index.Err? {
        return Fail(index.error);
      }
      UnflattenUpdate(data[..], rows, cols, i, j, value);
      UnflattenAt(data[..][index.value := value], rows, cols, i, j);
      data[index.value] := value;
      o := Pass;
    }
  }
}
