# matrix-playground in Dafny

This project models the matrix library `matrix-playground`: one full-featured matrix class and
five alternative storage layouts ("backends") for the same logical matrix.

- `src/matrix.js` is the full-featured class. It keeps the matrix as an array of row arrays and
  offers construction, iteration, access, arithmetic, reductions, searches, callbacks, masking,
  reshaping, minors, submatrices and the cofactor determinant.
- `src/matrix/optimized2D.js` keeps the same nested rows. It implements a smaller set of
  operations with explicit loops.
- `src/matrix/flat1D.js` keeps one row-major buffer of `rows * cols` numbers. Cell (i, j) sits in
  slot `i * cols + j`.
- `src/matrix/optimized1D.js` extends the flat layout. Its operations are index arithmetic on the
  buffer: stride walks, slot tests, jump-ahead loops.
- `src/matrix/naive2D.js` is the minimal nested backend. It offers bounds-checked `get`/`set` and
  row-major iteration.
- `src/matrix/base.js` holds generic `add`, `subtract` and `multiply` routines. They are written
  only against a backend's `get`, `set`, `indexes` and `sparseFrom`.

Every layout is proved against one set of definitions on the logical matrix, a `seq<seq<int>>`
with `IsMatrix(m, rows, cols)`:

| module | file | defines |
|---|---|---|
| `Logical` | `logical.dfy` | row-major offsets and their inverse, flattening and unflattening, the `indexes()` pairs and `entries()` triples |
| `Algebra` | `algebra.dfy` | filled and identity matrices, elementwise sum, difference and scaling, the product, the diagonal |
| `Shapes` | `shapes.dfy` | transpose, the two rotations, the two flips, merging, minors, submatrices |
| `Determinant` | `determinant.dfy` | the cofactor determinant the library computes |
| `Folds` | `folds.dfy` | sums, products, extremes, first-extreme positions, the left and right folds, match collection |
| `JsArrays` | `jsarrays.dfy` | JavaScript assignment past an array's end, which leaves holes |
| `Results` | `results.dfy` | the library's exceptions as values: `RangeError`, `DimensionMismatch`, `NotSquare`, `TypeError` |

Each source class is modelled in place:

| module | file | source class | model |
|---|---|---|---|
| `MatrixNested.Matrix` | `matrix.dfy` | `src/matrix.js` | class with `rows`, `cols` and nested `data` fields |
| `Optimized2D.Matrix` | `optimized2d.dfy` | `src/matrix/optimized2D.js` | class with the same three fields |
| `NestedLoops` | `nestedloops.dfy` | loops shared by the two nested layouts | the result-building loops of `multiply`, `transpose`, `minorSubmatrix` and `submatrix` |
| `Flat1D.Flat1D` | `flat1d.dfy` | `src/matrix/flat1D.js` | class over an `array<int>` buffer, read back as a matrix by the ghost `Cells()` |
| `Optimized1D` | `optimized1d.dfy` | `src/matrix/optimized1D.js` | methods whose receiver `m` is a `Flat1D.Flat1D`, because the JavaScript class only adds methods |
| `Naive2D.Naive2D` | `naive2d.dfy` | `src/matrix/naive2D.js` | class with nested rows |
| `Base` | `base.dfy` | `src/matrix/base.js` | the generic routines over a backend `Base.Backend`, a grid of optional cells: `sparseFrom` gives the shape with nothing written, `set` writes one cell |

The nested constructor reads `data[0].length`. An operation that builds its result with
`new Matrix(result)` therefore raises a `TypeError` when `result` has no rows. `submatrix` also
raises one when it reads a cell of a row past the last, which is `undefined`. The model returns
`Err(TypeError)` exactly in those cases.

## Model

| member | source | states |
|---|---|---|
| Logical.Pos | src/matrix/optimized1D.js:74 | the (row, column) of a flat slot is the cell whose row-major offset is that slot |
| Logical.OffsetBijection | src/matrix/flat1D.js:14-19 | row-major offsets map the cells one-to-one onto the slots 0 .. rows*cols-1, and every slot is the offset of a cell |
| Logical.OffsetOrder | src/matrix.js:34-37 | one slot precedes another exactly when its cell comes earlier in row-major order |
| Logical.FlattenAt | src/matrix.js:541-543 | cell (i, j) lands in slot i*cols+j of the flattening |
| Logical.FlattenCells | src/matrix.js:541-543 | the flattening has rows*cols slots, and each slot holds the cell of that offset |
| Logical.FlattenMembers | src/matrix.js:484-488 | a value occurs in the flattening exactly when some cell holds it |
| Logical.FlattenConcat | src/matrix.js:633-638 | flattening stacked rows appends the two flattenings |
| Logical.UnflattenAt | src/matrix/flat1D.js:21-23 | cell (i, j) of an unflattened buffer is slot i*cols+j |
| Logical.UnflattenFlatten | src/matrix/flat1D.js:2-6 | unflattening the flattening of a matrix gives the matrix back |
| Logical.FlattenUnflatten | src/matrix/flat1D.js:8-12 | flattening an unflattened buffer gives the buffer back |
| Logical.UnflattenUpdate | src/matrix/flat1D.js:25-27 | writing one slot of the buffer changes exactly the cell it stands for |
| Logical.UnflattenInjective | src/matrix/flat1D.js:2-6 | two buffers that stand for the same matrix are equal |
| Logical.UnflattenFromCells | src/matrix/optimized1D.js:68-78 | a buffer whose slot i*cols+j holds m[i][j] for every cell unflattens to m |
| Logical.Indexes | src/matrix.js:34-37 | there are rows*cols index pairs |
| Logical.IndexesAt | src/matrix.js:34-37 | the pair of cell (i, j) stands at its row-major offset |
| Logical.IndexesRowMajor | src/matrix.js:34-37 | the index pairs lie in the shape, cover every cell, and come in strictly increasing row-major order |
| Logical.EntriesAt | src/matrix.js:43-45 | entry i*cols+j is (i, j, m[i][j]), and the flattening holds the same value there |
| Logical.EntryValues | src/matrix.js:39-49 | the values of `entries()` are the values of the iterator, slot by slot |
| Logical.NextCell | src/matrix.js:35-36 | the cell after (p, q) in the nested loop is at the next offset |
| Algebra.Filled | src/matrix.js:53-57 | the filled matrix has the requested shape |
| Algebra.Identity | src/matrix.js:24-30 | the identity of size n is n x n |
| Algebra.TraceIdentity | src/matrix.js:379-384 | the trace of the n x n identity is n |
| Algebra.TraceAdd | src/matrix.js:379-384 | the trace of a sum is the sum of the traces |
| Algebra.SumPointwise | src/matrix.js:379-384 | the sum of a pointwise sum of two sequences is the sum of their sums |
| Algebra.AddCommutative | src/matrix.js:94-103 | `add` does not depend on the order of its operands |
| Algebra.SubThenAdd | src/matrix.js:105-114 | subtracting and then adding back a matrix restores the original |
| Algebra.ScaleCompose | src/matrix.js:134-136 | scaling twice is scaling by the product, and scaling by 1 changes nothing |
| Algebra.Mul | src/matrix.js:116-132 | the product of a rows x inner and an inner x bcols matrix is rows x bcols |
| Algebra.DotIdentityLeft | src/matrix.js:116-132 | a dot product against the identity on the left picks out one cell |
| Algebra.DotIdentityRight | src/matrix.js:116-132 | a dot product against the identity on the right picks out one cell |
| Algebra.MulIdentity | src/matrix.js:116-132 | the identity is neutral for `multiply` on both sides |
| Algebra.MultiplyExample | spec/matrix.test.js:225-246 | the 4 x 3 by 3 x 3 product of the test suite |
| Shapes.Transpose | src/matrix.js:360-367 | the transpose of a rows x cols matrix is cols x rows |
| Shapes.TransposeTwice | src/matrix.js:360-367 | transposing twice gives the matrix back |
| Shapes.RotateViaTranspose | src/matrix.js:611-629 | a clockwise turn is a transpose followed by a horizontal flip; a counter-clockwise turn is a transpose followed by a vertical flip |
| Shapes.RotateInverse | src/matrix.js:611-629 | a counter-clockwise turn undoes a clockwise turn |
| Shapes.FlipTwice | src/matrix.js:599-607 | each flip undoes itself |
| Shapes.ReverseSuffix | src/matrix.js:529-537 | reversing a longer suffix puts the extra element last (helper of MatrixNested.FoldRightIsReversedFold) |
| Shapes.MergeRows | src/matrix.js:640-645 | each merged row is as long as the two rows together |
| Shapes.TransposeMergeRows | src/matrix.js:633-645 | merging side by side is stacking seen through a transpose |
| Shapes.WithoutAt | src/matrix.js:388-402 | removing an existing position shortens the row by one and shifts the later elements down; removing a missing position changes nothing |
| Shapes.MinorAt | src/matrix.js:388-402 | for an existing row and column the minor is (rows-1) x (cols-1), and its cell (a, b) is the cell that skips the removed row and column |
| Shapes.MinorDims | src/matrix.js:388-402 | a row or column that does not exist removes nothing from the shape |
| Shapes.MinorShape | src/matrix.js:388-402 | the minor at an existing row and column has one row and one column fewer |
| Shapes.Submatrix | src/matrix.js:404-415 | the submatrix spans the inclusive row and column ranges, an empty range giving no rows or columns; the bounds are any integers, and only a range with cells in it must lie inside the matrix |
| Shapes.SubmatrixAt | src/matrix.js:404-415 | cell (a, b) of the submatrix is cell (r0+a, c0+b), which lies inside the matrix |
| Shapes.SubmatrixWhole | src/matrix.js:404-415 | the submatrix over every row and column is the matrix itself |
| Shapes.MinorOfCorner | src/matrix.js:388-415 | removing row 0 and column 0 gives the submatrix from (1, 1) |
| Determinant.DetEmpty | src/matrix.js:417-436 | the 0 x 0 matrix has determinant 0, the empty cofactor sum |
| Determinant.DetIsExpansion | src/matrix.js:423-435 | the 2 x 2 closed form agrees with the cofactor expansion, so the expansion rule holds at every size but 1 |
| Determinant.DetThree | src/matrix.js:417-436 | the determinant of a 3 x 3 matrix is the rule of Sarrus |
| Determinant.ExpansionThree | src/matrix.js:428-435 | a 3 x 3 determinant is the signed sum of its three row-0 cofactors |
| Determinant.MinorTwo | src/matrix.js:425-426 | the determinant of each 2 x 2 minor of row 0 of a 3 x 3 matrix in closed form |
| Determinant.MinorIdentity | src/matrix.js:388-402 | removing row 0 and column 0 of the identity gives the identity one size smaller |
| Determinant.ExpansionFirstOnly | src/matrix.js:428-435 | when row 0 is zero past its first cell, only the first cofactor term remains |
| Determinant.DetIdentity | src/matrix.js:417-436 | the identity has determinant 1 at every positive size |
| Determinant.DetZeroRow | src/matrix.js:417-436 | a matrix with an all-zero row has determinant 0 |
| Determinant.ExpansionZeroRow | src/matrix.js:428-435 | every partial cofactor sum of a matrix with a zero row is 0 |
| Determinant.ExpansionStep | src/matrix.js:430-433 | one more loop iteration adds the signed cofactor term of the next column |
| Determinant.DetFour | src/matrix.js:428-435 | a 4 x 4 determinant is the signed sum of its four row-0 cofactors |
| Determinant.ExpansionFour | src/matrix.js:428-435 | the full 4 x 4 cofactor sum along row 0, term by term |
| Determinant.ExpansionFourHalf | src/matrix.js:428-435 | the first two terms of the 4 x 4 cofactor sum |
| Determinant.DetExamplesSmall | spec/matrix.test.js:338-354 | the test suite's 2 x 2 and 3 x 3 determinants are -19 and 0 |
| Determinant.DetExampleFour | spec/matrix.test.js:356-364 | the test suite's 4 x 4 determinant is -376 |
| Determinant.ExampleFourMinors01 | spec/matrix.test.js:356-364 | the first two row-0 minors of that matrix have determinants 104 and -235 |
| Determinant.ExampleFourMinors23 | spec/matrix.test.js:356-364 | the last two row-0 minors have determinants -39 and 110 |
| Determinant.MinorThreeValue | src/matrix.js:428-435 | a 3 x 3 minor given cell by cell has its Sarrus value as determinant |
| Determinant.MinorLiteral | src/matrix.js:388-402 | a 3 x 3 minor of a 4 x 4 matrix given cell by cell is that minor |
| Folds.PlusTimesMonoid | src/matrix.js:200-228 | addition with 0 and multiplication with 1 are monoids (helper of Folds.RowTotals) |
| Folds.CombineConcat | src/matrix.js:200-228 | reducing a concatenation combines the reductions of the parts |
| Folds.PerRow | src/matrix.js:204-206 | there is one per-row result per row |
| Folds.RowTotals | src/matrix.js:204-221 | `sumPerRow()` adds up to `sum()` and `prodPerRow()` multiplies up to `prod()` |
| Folds.PerRowSnoc | src/matrix.js:204-221 | the per-row results of a matrix are those of its rows but the last, followed by the last row's result |
| Folds.MaxOfIsMax | src/matrix.js:140-146 | `Math.max` of a non-empty row is an element of it and no element exceeds it |
| Folds.MinOfIsMin | src/matrix.js:170-176 | `Math.min` of a non-empty row is an element of it and no element is below it |
| Folds.ArgMax | src/matrix.js:157-168 | the first-maximum position lies inside the sequence |
| Folds.ArgMin | src/matrix.js:187-198 | the first-minimum position lies inside the sequence |
| Folds.ArgMaxIsFirstMax | src/matrix.js:157-168 | the position holds a largest element and every earlier element is strictly smaller |
| Folds.ArgMinIsFirstMin | src/matrix.js:187-198 | the position holds a smallest element and every earlier element is strictly larger |
| Folds.RowsExtremes | src/matrix.js:144-146 | each row's `Math.max` and `Math.min` are elements of the row and bound it (helper of Folds.PerRowMax and Folds.PerRowMin) |
| Folds.PerRowMax | src/matrix.js:144-146 | one result per row, which is an element of that row and no smaller than any of its elements |
| Folds.PerRowMin | src/matrix.js:174-176 | one result per row, which is an element of that row and no larger than any of its elements |
| Folds.CombineLarger | src/matrix.js:148-155 | running the strict "larger" update from the first element ends on the largest element |
| Folds.CombineSmaller | src/matrix.js:178-185 | running the strict "smaller" update from the first element ends on the smallest element |
| Folds.Column | src/matrix.js:87-90 | a column has one element per row |
| Folds.Values | src/matrix.js:43-49 | there is one value per entry |
| Folds.ValuesPrefix | src/matrix.js:43-49 | the values of a prefix of the entries are a prefix of the values (helper of Folds.FoldLeftSnoc) |
| Folds.FoldLeftSnoc | src/matrix.js:520-527 | reducing one more entry applies the callback once more (helper of MatrixNested.Matrix.Reduce) |
| Folds.FoldMax | src/matrix.js:140-142 | folding `Math.max` from the first value gives the largest value |
| Folds.FoldMin | src/matrix.js:170-172 | folding `Math.min` from the first value gives the smallest value |
| Folds.FoldArgMax | src/matrix.js:157-168 | folding the `maxIndex` reducer ends on the entry of the first largest value |
| Folds.FoldArgMin | src/matrix.js:187-198 | folding the `minIndex` reducer ends on the entry of the first smallest value |
| Folds.FoldSumProd | src/matrix.js:200-217 | folding `+` from 0 is the sum and folding `*` from 1 is the product |
| Folds.FoldMatches | src/matrix.js:583-595 | folding the push reducers from [] collects the matching values and positions |
| Folds.MatchingIndexesExact | src/matrix.js:590-595 | a position is collected exactly when its entry satisfies the callback |
| Folds.MatchingValuesAlign | src/matrix.js:583-595 | the collected values pair up with the collected positions and satisfy the callback there |
| JsArrays.Put | src/matrix.js:611-619 | assigning past an array's end pads it with holes to the new length; only slot k changes |
| JsArrays.Elements | src/matrix.js:611-619 | the elements of a hole-free array, slot by slot |
| MatrixNested.Matrix.constructor | src/matrix.js:2-6 | `new Matrix(array)`: shape from the array's length and its first row, which the matrix keeps |
| MatrixNested.Matrix.Sized | src/matrix.js:7-11 | `new Matrix({rows, cols})`: the given shape, every cell 0 |
| MatrixNested.Matrix.OfRows | src/matrix.js:2-6 | a TypeError exactly when the row list is empty; otherwise a fresh matrix over it |
| MatrixNested.Matrix.From | src/matrix.js:16-18 | a fresh rows x cols matrix of zeroes |
| MatrixNested.Matrix.Zeroes | src/matrix.js:20-22 | a fresh rows x cols matrix of zeroes |
| MatrixNested.Matrix.Identity | src/matrix.js:24-30 | 1 exactly on the diagonal; a TypeError at size 0 |
| MatrixNested.Matrix.Indexes | src/matrix.js:34-37 | the row-major index pairs |
| MatrixNested.Matrix.Iterator | src/matrix.js:47-49 | the cells in row-major order, which is the flattening |
| MatrixNested.Matrix.Values | src/matrix.js:39-41 | the same values as the iterator |
| MatrixNested.Matrix.Entries | src/matrix.js:43-45 | the row-major (row, column, value) triples |
| MatrixNested.Matrix.Fill | src/matrix.js:53-57 | every cell becomes the value and the shape stays |
| MatrixNested.Matrix.Copy | src/matrix.js:59-61 | a fresh matrix with the same cells; a TypeError without rows |
| MatrixNested.Matrix.CheckIndex | src/matrix.js:65-68 | a RangeError exactly when (i, j) is not a cell |
| MatrixNested.Matrix.Get | src/matrix.js:72-75 | the cell when (i, j) is a cell, else a RangeError |
| MatrixNested.Matrix.Set | src/matrix.js:77-80 | a failed check changes nothing; a successful one changes cell (i, j) only, and `get` then returns the value |
| MatrixNested.Matrix.Row | src/matrix.js:82-85 | row i exactly when i is a row and there is a column, else a RangeError |
| MatrixNested.Matrix.Col | src/matrix.js:87-90 | column j exactly when j is a column and there is a row, else a RangeError |
| MatrixNested.Matrix.Add | src/matrix.js:94-103 | a DimensionMismatch unless the shapes agree; otherwise the pairwise sums, or a TypeError without rows |
| MatrixNested.Matrix.Subtract | src/matrix.js:105-114 | as `add`, with the pairwise differences |
| MatrixNested.Matrix.Multiply | src/matrix.js:116-132 | a DimensionMismatch unless cols equals the other's rows; otherwise the product, or a TypeError without rows |
| MatrixNested.Matrix.MultiplyWithScalar | src/matrix.js:134-136 | every cell times the scalar; a TypeError without rows |
| MatrixNested.Matrix.Reduce | src/matrix.js:520-527 | the callback folded over `entries()` from the first one |
| MatrixNested.Matrix.ReduceRight | src/matrix.js:529-537 | the callback folded over the entries from the last back to the first, which is the left fold over the reversed entries |
| MatrixNested.RowEntries | src/matrix.js:532-535 | row i occupies the entries i*cols .. i*cols+cols-1, in column order (helper of MatrixNested.Matrix.ReduceRight) |
| MatrixNested.ReduceRightRow | src/matrix.js:532-535 | the inner loop extends the fold from the back by one row |
| MatrixNested.FoldRightStep | src/matrix.js:532-535 | folding from one slot further back applies the callback to that entry (helper of MatrixNested.ReduceRightRow) |
| MatrixNested.FoldRightIsReversedFold | src/matrix.js:529-537 | the fold from the back equals the left fold over the reversed entries |
| MatrixNested.Matrix.Max | src/matrix.js:140-142 | a cell that no cell exceeds; a TypeError without rows; `undefined` without columns |
| MatrixNested.Matrix.Min | src/matrix.js:170-172 | a cell that no cell is below, with the failure cases of `max` |
| MatrixNested.Matrix.MaxIndex | src/matrix.js:157-168 | the position of a largest cell such that every earlier cell in row-major order is smaller; (0, 0) without columns; a TypeError without rows |
| MatrixNested.Matrix.MinIndex | src/matrix.js:187-198 | the position of the first smallest cell, with the failure cases of `maxIndex` |
| MatrixNested.Matrix.MaxPerRow | src/matrix.js:144-146 | each row's result is a cell of the row that no cell of the row exceeds |
| MatrixNested.Matrix.MinPerRow | src/matrix.js:174-176 | each row's result is a cell of the row that no cell of the row is below |
| MatrixNested.Matrix.PerColumn | src/matrix.js:148-155 | column j ends as its seed run through the update over the column's cells from the top |
| MatrixNested.ColumnsAdvance | src/matrix.js:151-152 | entry k is the cell (p, q), and folding it into column q settles one more cell |
| MatrixNested.SettleStep | src/matrix.js:151-152 | visiting a cell settles one more cell of its column |
| MatrixNested.CombineColumnStep | src/matrix.js:151-152 | the running value down a column gains one more cell |
| MatrixNested.ColumnExtremes | src/matrix.js:148-155 | the strict update down a column from its top cell ends on a cell of the column that bounds the column |
| MatrixNested.Matrix.MaxPerCol | src/matrix.js:148-155 | each column's result is a cell of the column that no cell of it exceeds; a TypeError with columns but no rows |
| MatrixNested.Matrix.MinPerCol | src/matrix.js:178-185 | each column's result is a cell of the column that no cell of it is below; a TypeError with columns but no rows |
| MatrixNested.Matrix.Sum | src/matrix.js:200-202 | the sum of the flattened cells |
| MatrixNested.Matrix.Prod | src/matrix.js:215-217 | the product of the flattened cells |
| MatrixNested.Matrix.ValuesAreFlattening | src/matrix.js:39-49 | the values of the entries are the flattening |
| MatrixNested.Matrix.SumPerRow | src/matrix.js:204-206 | each row's sum, and together these add up to `sum()` |
| MatrixNested.Matrix.ProdPerRow | src/matrix.js:219-221 | each row's product, and together these multiply up to `prod()` |
| MatrixNested.Matrix.SumPerCol | src/matrix.js:208-213 | each column's sum |
| MatrixNested.Matrix.ProdPerCol | src/matrix.js:223-228 | each column's product |
| MatrixNested.Matrix.CumulativeEntries | src/matrix.js:282-292 | the cell in row-major slot k holds the running value over the first k+1 cells |
| MatrixNested.CumulativeAdvance | src/matrix.js:286-290 | visiting entry k appends the running value that includes it to its row |
| MatrixNested.RowsSettleStep | src/matrix.js:286-290 | writing the running value of a slot settles one more cell (helper of MatrixNested.Matrix.CumulativeRows) |
| MatrixNested.RowsSettledDone | src/matrix.js:282-292 | after every entry the settled rows form a rows x cols matrix of running values |
| MatrixNested.Matrix.CumulativeRows | src/matrix.js:294-305 | cell (i, j) holds the running value over row i up to column j |
| MatrixNested.Matrix.CumulativeCols | src/matrix.js:307-318 | cell (i, j) holds the running value over column j down to row i |
| MatrixNested.Matrix.CumulativeSum | src/matrix.js:282-292 | the cell in slot k holds the sum of the first k+1 cells; a TypeError without rows |
| MatrixNested.Matrix.CumulativeProd | src/matrix.js:320-330 | the cell in slot k holds the product of the first k+1 cells; a TypeError without rows |
| MatrixNested.Matrix.CumulativeSumPerRow | src/matrix.js:294-305 | cell (i, j) holds data[i][0] + ... + data[i][j] |
| MatrixNested.Matrix.CumulativeProdPerRow | src/matrix.js:332-343 | cell (i, j) holds data[i][0] * ... * data[i][j] |
| MatrixNested.Matrix.CumulativeSumPerCol | src/matrix.js:307-318 | cell (i, j) holds data[0][j] + ... + data[i][j] |
| MatrixNested.Matrix.CumulativeProdPerCol | src/matrix.js:345-356 | cell (i, j) holds data[0][j] * ... * data[i][j] |
| MatrixNested.Matrix.Transpose | src/matrix.js:360-367 | the cols x rows transpose, cell (j, i) being cell (i, j); a TypeError without columns |
| MatrixNested.Matrix.Diagonal | src/matrix.js:371-377 | data[i][i] for each i below the smaller dimension |
| MatrixNested.Matrix.Trace | src/matrix.js:379-384 | a NotSquare error exactly when not square; otherwise the sum of the diagonal |
| MatrixNested.Matrix.MinorSubmatrix | src/matrix.js:388-402 | the minor with its shape and cell formula; a TypeError when no row is left |
| MatrixNested.Matrix.Submatrix | src/matrix.js:404-415 | the inclusive submatrix, cell (a, b) being cell (r0+a, c0+b); an empty column range gives r1-r0+1 empty rows whatever r1 is; a TypeError exactly when the row range is empty, or a non-empty column range meets a row before the first (a negative start) or past the last |
| MatrixNested.Matrix.Determinant | src/matrix.js:417-436 | a NotSquare error unless square; otherwise the cofactor determinant, 0 for the 0 x 0 matrix |
| MatrixNested.Matrix.Every | src/matrix.js:440-445 | true exactly when every cell satisfies the callback |
| MatrixNested.Matrix.Some | src/matrix.js:447-452 | true exactly when some cell satisfies the callback |
| MatrixNested.Matrix.FindIndex | src/matrix.js:461-466 | the first matching cell in row-major order, or none when no cell matches |
| MatrixNested.Matrix.Find | src/matrix.js:454-459 | the value of the first matching cell, or none when no cell matches |
| MatrixNested.NoMatchBefore | src/matrix.js:454-466 | a scan that found no match in its first k entries has no matching cell below slot k |
| MatrixNested.BeforeIsBelow | src/matrix.js:454-466 | cells before (i, j) in row-major order have smaller slots |
| MatrixNested.AllBelow | src/matrix.js:454-466 | every cell's slot lies below rows*cols |
| MatrixNested.Matrix.FindLastIndex | src/matrix.js:476-482 | the last matching cell in row-major order, or none when no cell matches |
| MatrixNested.Matrix.FindLast | src/matrix.js:468-474 | the value of the last matching cell, or none when no cell matches |
| MatrixNested.Matrix.Includes | src/matrix.js:484-488 | true exactly when some cell holds the value |
| MatrixNested.Matrix.IndexOf | src/matrix.js:490-494 | the first cell holding the value, or none when no cell does |
| MatrixNested.Matrix.LastIndexOf | src/matrix.js:496-502 | the last cell holding the value, or none when no cell does |
| MatrixNested.Matrix.ForEach | src/matrix.js:506-508 | one callback call per cell, in row-major order |
| MatrixNested.Matrix.MapCells | src/matrix.js:510-518 | cell (i, j) of the result is the callback on cell (i, j) |
| MatrixNested.Matrix.Map | src/matrix.js:510-518 | the matrix of callback results; a TypeError without rows |
| MatrixNested.Matrix.Flat | src/matrix.js:541-543 | rows*cols values, with cell (i, j) at slot i*cols+j |
| MatrixNested.Matrix.Mask | src/matrix.js:551-571 | cells with a truthy mask keep their value and the others become 0, for array, matrix and function masks; the dimension and type errors of each kind of mask |
| MatrixNested.Matrix.Filter | src/matrix.js:573-577 | a cell is kept exactly when it satisfies the callback, and is a hole exactly when it does not |
| MatrixNested.Matrix.FilterNonZero | src/matrix.js:579-581 | the non-zero cells are kept and the zeros become holes |
| MatrixNested.Matrix.FindMatches | src/matrix.js:583-588 | the values of the matching cells in row-major order, at most one per cell |
| MatrixNested.Matrix.FindIndexOfMatches | src/matrix.js:590-595 | the positions of the matching cells in row-major order; a position is listed exactly when its cell matches |
| MatrixNested.Matrix.FlipHorizontal | src/matrix.js:599-602 | every row reversed; a TypeError without rows |
| MatrixNested.Matrix.FlipVertical | src/matrix.js:604-607 | the rows in reverse order; a TypeError without rows |
| MatrixNested.Matrix.RotateClockwise | src/matrix.js:611-619 | cell (i, j) moves to (j, rows-1-i); a TypeError without columns |
| MatrixNested.ClockwiseStep | src/matrix.js:615-616 | writing one source row into a result row extends the filled part from the back (helper of MatrixNested.ClockwiseRows) |
| MatrixNested.ClockwiseRows | src/matrix.js:613-617 | after the loops each result row holds its whole partial column |
| MatrixNested.ClockwiseDense | src/matrix.js:611-619 | once every source row is written, each result row has no holes and is the rotated row (helper of MatrixNested.Matrix.RotateClockwise) |
| MatrixNested.Matrix.RotateCounterClockwise | src/matrix.js:621-629 | cell (i, j) moves to (cols-1-j, i); a TypeError without columns |
| MatrixNested.Matrix.MergeCols | src/matrix.js:633-638 | the other's rows stacked below; a DimensionMismatch exactly when the column counts differ |
| MatrixNested.Matrix.MergeRows | src/matrix.js:640-645 | the other's columns appended to the right; a DimensionMismatch exactly when the row counts differ |
| MatrixNested.Matrix.ExpandRows | src/matrix.js:649-654 | n more rows of the fill value below the matrix |
| MatrixNested.Matrix.ExpandCols | src/matrix.js:656-661 | n more columns of the fill value to the right of the matrix |
| NestedLoops.MultiplyRows | src/matrix/optimized2D.js:101-118 | the triple loop builds the matrix product |
| NestedLoops.TransposeRows | src/matrix/optimized2D.js:124-135 | the double loop builds the transpose |
| NestedLoops.MinorRows | src/matrix/optimized2D.js:137-151 | the loop builds the minor |
| NestedLoops.MinorGrow | src/matrix/optimized2D.js:140-148 | extending the walked rows by one extends the minor by that row without its column, unless it is the removed row |
| NestedLoops.SubmatrixRows | src/matrix/optimized2D.js:153-165 | the double loop builds the inclusive submatrix for any integer bounds, or raises a TypeError exactly when a non-empty column range meets a row before the first (a negative start) or past the last |
| Optimized2D.Matrix.constructor | src/matrix/optimized2D.js:2-14 | `new Matrix(array)`: shape from the array's length and its first row |
| Optimized2D.Matrix.Sized | src/matrix/optimized2D.js:2-14 | `new Matrix({rows, cols})`: the given shape, every cell 0 |
| Optimized2D.Matrix.OfRows | src/matrix/optimized2D.js:2-14 | a TypeError exactly when the row list is empty |
| Optimized2D.Matrix.Fill | src/matrix/optimized2D.js:16-20 | every cell becomes the value and the shape stays |
| Optimized2D.Matrix.From | src/matrix/optimized2D.js:22-24 | a fresh all-zero matrix |
| Optimized2D.Matrix.Zeroes | src/matrix/optimized2D.js:26-28 | a fresh all-zero matrix |
| Optimized2D.Matrix.Identity | src/matrix/optimized2D.js:30-36 | the identity matrix; a TypeError at size 0 |
| Optimized2D.Matrix.Indexes | src/matrix/optimized2D.js:38-44 | the row-major index pairs |
| Optimized2D.Matrix.Iterator | src/matrix/optimized2D.js:46-52 | the cells in row-major order |
| Optimized2D.Matrix.CheckIndex | src/matrix/optimized2D.js:54-57 | a RangeError exactly when (i, j) is not a cell |
| Optimized2D.Matrix.Get | src/matrix/optimized2D.js:59-62 | the cell when (i, j) is a cell, else a RangeError |
| Optimized2D.Matrix.Set | src/matrix/optimized2D.js:64-67 | a failed check changes nothing; a successful one changes cell (i, j) only |
| Optimized2D.Matrix.Row | src/matrix/optimized2D.js:69-72 | row i exactly when i is a row and there is a column |
| Optimized2D.Matrix.Col | src/matrix/optimized2D.js:74-77 | column j exactly when j is a column and there is a row |
| Optimized2D.Matrix.Add | src/matrix/optimized2D.js:79-88 | the logical sum; a DimensionMismatch unless the shapes agree |
| Optimized2D.Matrix.Subtract | src/matrix/optimized2D.js:90-99 | the logical difference; a DimensionMismatch unless the shapes agree |
| Optimized2D.Matrix.Multiply | src/matrix/optimized2D.js:101-118 | the logical product; a DimensionMismatch unless cols equals the other's rows |
| Optimized2D.Matrix.MultiplyWithScalar | src/matrix/optimized2D.js:120-122 | the logical scaling |
| Optimized2D.Matrix.Transpose | src/matrix/optimized2D.js:124-135 | the logical transpose; a TypeError without columns |
| Optimized2D.Matrix.MinorSubmatrix | src/matrix/optimized2D.js:137-151 | the logical minor with its shape and cell formula |
| Optimized2D.Matrix.Submatrix | src/matrix/optimized2D.js:153-165 | the logical inclusive submatrix; a TypeError exactly when the row range is empty, or a non-empty column range meets a row before the first (a negative start) or past the last |
| Optimized2D.Matrix.Determinant | src/matrix/optimized2D.js:167-186 | a NotSquare error unless square; otherwise the cofactor determinant |
| Flat1D.Flat1D.Cells | src/matrix/flat1D.js:2-6 | the buffer stands for a rows x cols matrix |
| Flat1D.Flat1D.constructor | src/matrix/flat1D.js:2-6 | the buffer is the row-major flattening of the rows, so the matrix keeps every cell |
| Flat1D.Flat1D.Iterator | src/matrix/flat1D.js:8-12 | the buffer, which is the flattening of the matrix |
| Flat1D.Flat1D.Index | src/matrix/flat1D.js:14-19 | a RangeError exactly when (i, j) is not a cell; otherwise its slot, which lies in the buffer |
| Flat1D.Flat1D.Get | src/matrix/flat1D.js:21-23 | cell (i, j) of the logical matrix, or a RangeError |
| Flat1D.Flat1D.Set | src/matrix/flat1D.js:25-27 | a failed check changes nothing; a successful one changes one slot, which is cell (i, j) of the logical matrix |
| Naive2D.Naive2D.constructor | src/matrix/naive2D.js:2-6 | shape from the array's length and its first row |
| Naive2D.Naive2D.Iterator | src/matrix/naive2D.js:8-14 | rows*cols values in row-major order, the flattening |
| Naive2D.Naive2D.CheckIndex | src/matrix/naive2D.js:16-19 | a RangeError exactly when (i, j) is not a cell |
| Naive2D.Naive2D.Get | src/matrix/naive2D.js:21-24 | the cell when (i, j) is a cell, else a RangeError |
| Naive2D.Naive2D.Set | src/matrix/naive2D.js:26-29 | a failed check writes nothing; a successful one changes cell (i, j) only |
| Optimized1D.FromBuffer | src/matrix/optimized1D.js:8-14 | a fresh flat matrix of the given shape over the given buffer |
| Optimized1D.UnflattenFilled | src/matrix/optimized1D.js:4-6 | a buffer of equal slots stands for the filled matrix |
| Optimized1D.Fill | src/matrix/optimized1D.js:4-6 | every slot becomes the value, so the matrix is the filled one |
| Optimized1D.Zeroes | src/matrix/optimized1D.js:8-14 | a fresh all-zero matrix |
| Optimized1D.IdentityDiagonal | src/matrix/optimized1D.js:18-20 | the slot of cell (i, j) is a multiple of size+1 exactly when i == j |
| Optimized1D.Identity | src/matrix/optimized1D.js:16-24 | the slot rule gives the identity matrix |
| Optimized1D.ColumnWalk | src/matrix/optimized1D.js:28-31 | the stride walk down a column stays in the buffer exactly while it is on a row |
| Optimized1D.Col | src/matrix/optimized1D.js:26-33 | column j of the logical matrix; a RangeError unless j is a column and there is a row |
| Optimized1D.UnflattenAdd | src/matrix/optimized1D.js:35-45 | a slotwise sum of buffers stands for the sum of the matrices |
| Optimized1D.UnflattenSub | src/matrix/optimized1D.js:47-57 | a slotwise difference stands for the difference |
| Optimized1D.UnflattenScale | src/matrix/optimized1D.js:59-66 | a slotwise scaling stands for the scaled matrix |
| Optimized1D.Add | src/matrix/optimized1D.js:35-45 | the slotwise sum, which is the logical sum; a DimensionMismatch exactly when the shapes differ |
| Optimized1D.Subtract | src/matrix/optimized1D.js:47-57 | the slotwise difference, which is the logical difference |
| Optimized1D.MultiplyWithScalar | src/matrix/optimized1D.js:59-66 | the slotwise scaling, which is the logical scaling |
| Optimized1D.TransposeTargetAt | src/matrix/optimized1D.js:74-75 | pair k is written to the slot of the transposed cell, inside the buffer |
| Optimized1D.TransposePair | src/matrix/optimized1D.js:74-75 | pair k reads source slot k and writes a slot inside the result |
| Optimized1D.TransposeTargetsDistinct | src/matrix/optimized1D.js:74-75 | every result slot is written exactly once |
| Optimized1D.TransposeStep | src/matrix/optimized1D.js:74-75 | writing one more pair keeps every visited cell at its transposed slot |
| Optimized1D.TransposeDone | src/matrix/optimized1D.js:68-78 | after all pairs the result has no holes and is the transpose |
| Optimized1D.Transpose | src/matrix/optimized1D.js:68-78 | the logical transpose |
| Optimized1D.KeepRow | src/matrix/optimized1D.js:86-89 | walking part of a row keeps nothing in the removed row and otherwise the row without the removed column |
| Optimized1D.MinorFlattenGrow | src/matrix/optimized1D.js:86-89 | the flattened minor grows by each row that is not the removed one, without its removed column |
| Optimized1D.KeepRows | src/matrix/optimized1D.js:86-89 | over the first p rows the kept slots flatten the minor of those rows |
| Optimized1D.KeepIsMinor | src/matrix/optimized1D.js:80-92 | for an existing row and column the kept slots are (rows-1)*(cols-1) and unflatten to the minor |
| Optimized1D.MinorSubmatrix | src/matrix/optimized1D.js:80-92 | the slots outside the row and column, in order; for an existing row and column that is the logical minor |
| Optimized1D.SubmatrixSlots | src/matrix/optimized1D.js:94-118 | the slots to append total (r1-r0+1)*(c1-c0+1) |
| Optimized1D.SubmatrixInLoop | src/matrix/optimized1D.js:100-104 | while the loop goes on, the walk is on one of rows r0..r1 |
| Optimized1D.SubmatrixSkipLeft | src/matrix/optimized1D.js:106-109 | left of column c0 the jump to column c0 keeps the progress (helper of Optimized1D.SubmatrixStep) |
| Optimized1D.SubmatrixSkipRight | src/matrix/optimized1D.js:111-114 | past column c1 the jump to the next row keeps the progress |
| Optimized1D.SubmatrixSlotAt | src/matrix/optimized1D.js:115 | cell (p, q) of the range is the matching element of the flattened submatrix |
| Optimized1D.SubmatrixAppend | src/matrix/optimized1D.js:115 | inside the column range the walk appends the next submatrix element |
| Optimized1D.SubmatrixStep | src/matrix/optimized1D.js:105-116 | one turn of the loop over non-empty ranges: the slot is in the buffer, its column is i % cols, and each of the three branches keeps the progress |
| Optimized1D.SubmatrixDone | src/matrix/optimized1D.js:100-117 | once the loop ends the whole submatrix has been appended |
| Optimized1D.SubmatrixEmptyRows | src/matrix/optimized1D.js:100-104 | with an empty row range the walk starts past its last slot (helper of Optimized1D.SubmatrixWalk) |
| Optimized1D.SubmatrixEmpty | src/matrix/optimized1D.js:95-98 | over an empty range the submatrix is the empty buffer read in the declared shape (helper of Optimized1D.Submatrix) |
| Optimized1D.SubmatrixWalk | src/matrix/optimized1D.js:100-116 | over non-empty ranges the jump-ahead walk appends exactly the flattened submatrix; over an empty row or column range it appends nothing |
| Optimized1D.Submatrix | src/matrix/optimized1D.js:94-118 | the logical inclusive submatrix in the (r1-r0+1) x (c1-c0+1) shape, empty ranges included |
| Optimized1D.ExpansionTerm | src/matrix/optimized1D.js:129-132 | one term of the loop is one term of the cofactor expansion, with slot j as entry (0, j) |
| Optimized1D.CofactorSum | src/matrix/optimized1D.js:128-133 | the loop computes the cofactor expansion along row 0 |
| Optimized1D.MinorDeterminant | src/matrix/optimized1D.js:130 | the determinant of the minor of entry (0, j) |
| Optimized1D.Det1 | src/matrix/optimized1D.js:124 | the 1 x 1 closed form is the determinant |
| Optimized1D.Det2 | src/matrix/optimized1D.js:125-126 | the 2 x 2 closed form on slots 0, 1, 2, 3 is the determinant |
| Optimized1D.Determinant | src/matrix/optimized1D.js:120-134 | a NotSquare error exactly when not square; otherwise the determinant of the logical matrix |
| Base.Indexes | src/matrix/base.js:2-8 | the row-major index pairs |
| Base.Backend.Matrix | src/matrix/base.js:10-51 | a fully written backend holds a rows x cols matrix whose cells are the written values |
| Base.Backend.SparseFrom | src/matrix/base.js:14 | the shape, with no cell written |
| Base.Backend.Get | src/matrix/base.js:17 | the cell, written or not, or a RangeError |
| Base.Backend.Set | src/matrix/base.js:17 | a failed check writes nothing; a successful one writes exactly cell (i, j), which `get` returns |
| Base.WrittenStep | src/matrix/base.js:16-17 | writing the cell at offset k extends the written prefix by one cell |
| Base.WrittenAll | src/matrix/base.js:16-17 | once the walk has passed every cell, every cell holds its value |
| Base.Backend.ZipInto | src/matrix/base.js:16-17 | every cell of the result is written once, with the operation on the two operands' cells |
| Base.Backend.Add | src/matrix/base.js:10-20 | the logical sum, every cell written; a DimensionMismatch exactly when the shapes differ |
| Base.Backend.Subtract | src/matrix/base.js:22-32 | the logical difference, every cell written |
| Base.Backend.SumOfProducts | src/matrix/base.js:42-45 | the dot product of row i and column j |
| Base.ProductStep | src/matrix/base.js:46 | writing product cell (i, j) moves the loops on by one cell (helper of Base.Backend.ProductInto) |
| Base.Backend.ProductInto | src/matrix/base.js:40-48 | every product cell written, or a RangeError exactly when some row exists and the product is wider than the result |
| Base.WrittenProduct | src/matrix/base.js:34-51 | what the as-written `multiply` yields has the receiver's shape |
| Base.WrittenProductVersusMul | src/matrix/base.js:38 | the as-written product fails exactly when some row exists and the product is wider than the receiver; otherwise it holds the true product with holes past it, and it equals the true product exactly when the widths agree |
| Base.MultiplyShapeCounterexample | src/matrix/base.js:38 | [[1, 2]] x [[3], [4]] leaves a hole beside 11, and [[5]] x [[1, 2]] fails although the product [[5, 10]] exists |
| Base.Backend.Multiply | src/matrix/base.js:34-51 | as written: a DimensionMismatch unless cols equals the other's rows, then exactly the outcome `WrittenProduct` describes |
| Base.Backend.MultiplyCorrected | src/matrix/base.js:34-51 | with the result allocated rows x other.cols: every cell written with the product |

## Left out

- `mean`, `meanPerRow`, `meanPerCol`, `variance`, `variancePerRow`, `variancePerCol`, `std`, `stdPerRow` and `stdPerCol` (`src/matrix.js:230-280`) are left out. They divide and take square roots in floating point, and cells are modelled as integers.
- `flatMap` (`src/matrix.js:545-547`) is left out. The callback may return arrays of any depth, which `flat()` then splices in; the model's cells are integers.
- `toString`, `toLocaleString`, `toJSON` and `fromJSON` (`src/matrix.js:665-681`) are left out. They format strings and parse JSON, which is not the matrix logic.
- Numbers are unbounded integers. JavaScript doubles, `NaN`, `Infinity` and rounding are not modelled, and `===` is integer equality. Truthiness in `mask` and `filterNonZero` is "non-zero".
- Callbacks are pure functions of the value and the position `[i, j]`. The third `this` argument, side effects of a callback and exceptions thrown inside one are not modelled. `forEach` returns the sequence of callback results so that its order of calls can be stated.
- Generators are modelled as the sequences they yield. Laziness and stopping early are not modelled.
- Aliasing is not modelled. `new Matrix(array)` keeps the caller's array and `row(i)` returns the live row in the source; in the model both are values.
- MatrixNested.Matrix.MaxPerRow: requires every row to have a column. `Math.max()` of an empty row is `-Infinity`, which an integer cannot hold.
- MatrixNested.Matrix.MinPerRow: requires every row to have a column, for the same reason (`Infinity`).
- MatrixNested.Matrix.Filter: the result is a grid of optional values, `None` standing for the hole that `filter` leaves. The source wraps that grid in a matrix.
- MatrixNested.Matrix.FilterNonZero: the same grid of optional values as `filter`.
- MatrixNested.Matrix.Submatrix: the bounds are any integers, but when both ranges are non-empty and the row start r0 is a row of the matrix it requires 0 <= c0 and c1 < cols. With c0 < 0 or c1 >= cols the source pushes the `undefined` cells outside the columns into its rows, which an integer matrix cannot hold; when the row range also reaches past the last row the source raises a TypeError instead, which the model does not cover on these inputs. A row start outside the matrix needs no such requirement: its first cell read is the TypeError the contract states.
- Optimized2D.Matrix.Submatrix: the same requirement as MatrixNested.Matrix.Submatrix, for the same reason.
- SubmatrixRows (NestedLoops.SubmatrixRows): the same requirement as MatrixNested.Matrix.Submatrix, for the same reason.
- Optimized1D.Submatrix: r0, c0, r1 and c1 are `nat`. With a negative start the walk begins at a negative slot, and JavaScript's truncating `%` gives a column that is negative or zero, so the source appends `undefined` slots, which an integer buffer cannot hold. The member also requires r0 <= r1 + 1 and c0 <= c1 + 1, c1 < cols when the column range is non-empty, and r1 < rows when both ranges are non-empty. A range shorter than empty gives `sparseFrom` a negative shape. With non-empty ranges past the last row or column the walk reads slots past the end of the buffer (`undefined`) or wraps into the next row, so the buffer no longer matches the declared shape. With an empty row range and c1 >= cols the walk can start inside the buffer and append slots to a result of zero rows.
- Optimized1D.SubmatrixWalk: the same `nat` bounds and requirements as Optimized1D.Submatrix, for the same reasons.
- Optimized1D.MinorSubmatrix: requires at least one row and one column, since `sparseFrom` would get a negative shape otherwise. For a row or column that does not exist, the contract states the buffer the loop builds but not a logical matrix, because that buffer is longer than the declared (rows-1) x (cols-1) shape.
- MatrixNested.Matrix.constructor: the array path requires a non-empty array whose rows all have the length of the first one (`Logical.IsRectangular`). The source checks neither. An empty array makes `data[0].length` a TypeError, which `MatrixNested.Matrix.OfRows` models. Ragged rows give a matrix whose `cols` does not fit its later rows, which the model's rows x cols invariant cannot hold.
- Optimized2D.Matrix.constructor: the same requirement, for the same reasons; `Optimized2D.Matrix.OfRows` models the empty array's TypeError.
- Flat1D.Flat1D.constructor: the same requirement. `new Flat1D([])` raises the TypeError of `data[0].length`, which this constructor does not model, and ragged rows give a buffer whose length is not rows x cols.
- Naive2D.Naive2D.constructor: the same requirement. `new Naive2D([])` raises the same TypeError, which this constructor does not model.
- Shape fields are `nat`. The source never checks the shapes given to `from`, `zeroes`, `identity` and `expandRows`/`expandCols`, and a negative or fractional size is not modelled.
- `sparseFrom`, `checkIndex` (called by `optimized1D.col`) and the backend's `indexes` are not defined in the six modelled files. `sparseFrom` is modelled as a fresh matrix of the requested shape, with no cell written (`Base.Backend.SparseFrom`) or over the buffer the operation builds (`Optimized1D.FromBuffer`). `checkIndex` is modelled as the bounds check of `#index`, and `indexes` as the row-major pair sequence.
- Base.Backend.Add, Base.Backend.Subtract and Base.Backend.Multiply: the operands must be fully written (dense) backends. A backend with holes would hand `undefined` to `+` and `*`.
- Result buffers that `optimized1D.js` fills slot by slot are built as sequences and then copied into the array of a fresh `Flat1D.Flat1D` (`Optimized1D.FromBuffer`). The in-place writes into the new buffer are not modelled one by one, except in `Optimized1D.Fill`, which writes the receiver's own array.
- The loops inside `reduceRight`, the per-column reductions, the cumulative operations, the base routines and the nested result builders are modelled as helper methods that the operations call: `MatrixNested.ReduceRightRow`, `MatrixNested.Matrix.PerColumn`, `MatrixNested.Matrix.CumulativeEntries`/`CumulativeRows`/`CumulativeCols`, `Base.Backend.ZipInto`, `Base.Backend.ProductInto`, `Base.Backend.SumOfProducts`, `Optimized1D.SubmatrixWalk` and the methods of `NestedLoops`. Each loop sits inside one operation in the source.
- `src/repl.js` and `bench/matrix.bench.js` are not part of this model.

## Findings

| source | as written | input that shows it | evidently intended | confidence | as-written member | corrected member |
|---|---|---|---|---|---|---|
| src/matrix/base.js:38 | `multiply` allocates its result with the receiver's shape (`sparseFrom(this)`), rows x cols, instead of rows x matrix.cols | [[1, 2]] x [[3], [4]] gives a 1 x 2 result whose second cell is never written; [[5]] x [[1, 2]] raises a RangeError at the write of cell (0, 1) although the product is [[5, 10]] | a rows x matrix.cols result holding the product | not executed | Base.Backend.Multiply, Base.WrittenProductVersusMul, Base.MultiplyShapeCounterexample | Base.Backend.MultiplyCorrected |
