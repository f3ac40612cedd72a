# blockm adaptive matrix builder — a Dafny model

This project models the core of `blockm`: a builder that takes `(row, col, value)`
inserts in any order and chooses between two backends at runtime.

- **Sparse backend (`SparseMatrix`).** A two-level map row → (column → value).
  It tracks high-water-mark extents `rows`/`cols`. It skips a zero write to a
  cell with no entry and reads 0 for any cell it does not hold.
- **Dense backend.** A column-major flat array. Cell `(r, c)` is at index
  `c * rows + r`.
- **Builder (`MatrixBuilder`).**
  - Inserts inside the dense region go to the dense block; all other inserts
    go to the sparse block.
  - Every `checkpoint`-th sparse insert compares the fill rate with a
    threshold.
  - Crossing the threshold migrates the sparse entries into a dense block that
    is allocated or grown column by column.
  - `finish` returns one of the two blocks.

Values are `int` with zero 0. All state is immutable: every operation is a
pure function from the old state to the new one.

Modules, one per source component:

| file | module | models |
|---|---|---|
| `wrappers.dfy` | `Wrappers` | `Option`: a missing reference, or an exception |
| `sparse.dfy` | `Sparse` | `SparseMatrix.java` |
| `dense.dfy` | `Dense` | the dense block as the builder uses it, and the reallocation copy |
| `contract.dfy` | `Contract` | `IMatrix.java`, as a sum over the two backends |
| `builder.dfy` | `MatrixBuilder` | `MatrixBuilder.java`, with the reallocation sized as evidently intended |
| `aswritten.dfy` | `AsWritten` | `MatrixBuilder.java`'s reallocation exactly as written, and the defect it has |
| `scenarios.dfy` | `Scenarios` | the sparse-diagonal test, for every size |

The central result is `MatrixBuilder.Fidelity`, about the builder with the
corrected reallocation sizing (see Findings). After any sequence of inserts
(with or without `minSize`) and `finish`, every cell the returned matrix can
address reads the last non-zero value inserted there, or 0. Every cell that
received such a value is in range. This holds whenever migrations fire. It
rests on the builder invariant `MatrixBuilder.Inv`:

- the cached dense extent is 0 × 0 without a dense block, and equals the
  block's extent once there is one;
- no sparse entry lies inside the dense region;
- every sparse entry lies inside the sparse extent.

It also rests on `Dense.ReallocPreserves`, which proves the column-major
reallocation copy correct when the new block is at least the old one in both
dimensions.

The fill-rate test `(double) entries / (double) n > rate` is modelled exactly,
up to floating-point rounding, for a rational threshold `rateNum / rateDen`, using the three outcomes of
floating-point division:

- `n > 0`: compare the cross-multiplied values;
- `n == 0`: +Infinity when `entries > 0`, which exceeds any threshold, and
  NaN when `entries == 0`, which exceeds none;
- `n < 0`: the inequality flips.

`MatrixBuilder.Exceeds` proves that this agrees with real division for
`n != 0`.

Three behaviours of the code are worth stating, because a reader might
expect otherwise:

- `copy` (documented at IMatrix.java:26 as "Creates a copy of this matrix and
  returns it") rebuilds the matrix from its stored entries only, and `set`
  skips the stored zeros. The copy's extent is therefore one past the last
  row and the last column holding a non-zero value. It can be smaller than
  the original's: a `minSize` floor is not carried over, and neither is a
  row or column whose only values were overwritten by 0.
- A migration need not grow the dense region. The code sizes a reallocated
  block from the sparse extent alone, which can shrink it. See Findings.
- The sparse extent drops to 0 × 0 at every migration (`clear`). Only the
  dense region is monotone, and only with the corrected sizing.

## Model

| member | source | states |
|---|---|---|
| `Sparse.Empty` | src/main/java/blockm/SparseMatrix.java:16-26 | a new sparse matrix holds no entry and has extent 0 × 0 |
| `Sparse.Get` | src/main/java/blockm/SparseMatrix.java:74-80 | a cell with no row map or no column entry reads 0 |
| `Sparse.HasEntry` | src/main/java/blockm/SparseMatrix.java:61-66 | a cell has an entry exactly when it reads non-zero, so a stored 0 counts as no entry |
| `Sparse.Set` | src/main/java/blockm/SparseMatrix.java:38-59 | a 0 write to a cell without an entry changes nothing, extents included; any other write raises rows to max(rows, r+1) and cols to max(cols, c+1) and stores the value; in every case the cell then reads the written value (an explicit 0 included), every other cell and its stored status are unchanged, extents never decrease, and stored cells stay inside the extent |
| `Sparse.Clear` | src/main/java/blockm/SparseMatrix.java:68-72 | afterwards no entry is stored, the extent is 0 × 0, and every cell reads 0 |
| `Sparse.GetColumn` | src/main/java/blockm/SparseMatrix.java:82-89 | the column snapshot has length rows, and element k is the value at (k, i) |
| `Sparse.GetRow` | src/main/java/blockm/SparseMatrix.java:91-98 | the row snapshot has length cols, and element k is the value at (i, k) |
| `Sparse.Copy` | src/main/java/blockm/SparseMatrix.java:100-114 | replaying the stored triples in any order gives a matrix that reads the same as the original at every cell and keeps stored cells inside its extent; that extent is at most the original's and is exactly one past the last row and the last column holding a non-zero value |
| `Sparse.SetKeepsTight` | src/main/java/blockm/SparseMatrix.java:40-48 | writing a cell that reads 0 keeps an extent tight (last row and last column each hold a non-zero value): a 0 write is skipped, and a non-zero write either keeps the extent or ends it at the written cell |
| `Dense.New` | src/main/java/blockm/MatrixBuilder.java:71-72 | a new dense block has the requested extent, rows*cols array slots, and reads 0 everywhere |
| `Dense.Get` | src/main/java/blockm/IMatrix.java:17-18 | a dense read returns one of the block's stored values; `Dense.Set` and `Dense.New` give what it reads |
| `Dense.Extensional` | src/main/java/blockm/MatrixBuilder.java:80-81 | the column-major layout reaches every array slot: two blocks of the same extent that read the same at every cell are equal |
| `Dense.Set` | src/main/java/blockm/MatrixBuilder.java:40 | a write at column-major index c*rows+r reads back at (r, c) and leaves every other in-range cell and the extent unchanged |
| `Dense.CopyColumn` | src/main/java/blockm/MatrixBuilder.java:80-81 | one `System.arraycopy`: the run of old.rows slots at col*newRows takes column col of the old block in row order, and every other slot keeps its value |
| `Dense.Column` | src/main/java/blockm/MatrixBuilder.java:78-81 | the run of rows values at col*rows is column col of the block, in row order |
| `Dense.CopyColumns` | src/main/java/blockm/MatrixBuilder.java:77-82 | the column copy loop as written; when it does not go out of bounds it leaves the new array's length unchanged |
| `Dense.Realloc` | src/main/java/blockm/MatrixBuilder.java:75-83 | the reallocation as written yields, unless it throws, a valid block of exactly the requested extent |
| `Dense.CopyColumnsGrows` | src/main/java/blockm/MatrixBuilder.java:77-82 | when the new block is at least the old one in both dimensions, the loop never goes out of bounds and leaves each old column in the first old.rows cells of the same new column, with 0 everywhere else |
| `Dense.ReallocPreserves` | src/main/java/blockm/MatrixBuilder.java:73-84 | with a new extent at least the old in both dimensions, old cell (r, c) moves from c*oldRows+r to c*newRows+r: every old value is kept and every new cell is 0 |
| `Dense.Grow` | src/main/java/blockm/MatrixBuilder.java:73-84 | the growth the builder intends: a block of the new extent that keeps every old value and is 0 in the new cells |
| `Dense.ReallocShrinkOutOfBounds` | src/main/java/blockm/MatrixBuilder.java:75-81 | a 1 × 2 block reallocated at the 2 × 1 sparse extent throws: the second column's copy runs past the end of the new array |
| `Dense.ReallocShrinkCorrupts` | src/main/java/blockm/MatrixBuilder.java:75-81 | a 2 × 2 block [1,2,3,4] reallocated at 1 × 3 overlaps its columns and yields [1,3,4]: row 1 is lost and new cell (0, 2) reads 4 |
| `Contract.Rows` | src/main/java/blockm/SparseMatrix.java:28-31 | rows(): every stored entry of a sparse matrix lies in a row below it, and a dense block holds rows × columns values |
| `Contract.Columns` | src/main/java/blockm/SparseMatrix.java:33-36 | columns(): every stored entry of a sparse matrix lies in a column below it, and a dense block holds rows × columns values |
| `Contract.Get` | src/main/java/blockm/IMatrix.java:17-18 | through the common contract, a non-zero value is only read inside the matrix's extent |
| `Contract.Set` | src/main/java/blockm/IMatrix.java:14-15 | both backends refine `set`: the cell reads back the value, every other addressable cell is unchanged, the representation is kept and the extent never shrinks |
| `MatrixBuilder.DefaultsValid` | src/main/java/blockm/MatrixBuilder.java:14-16 | the no-argument constructor's configuration is valid, has threshold 0.2 and checkpoint 5000, and is the one-argument constructor at rate 0.2 |
| `MatrixBuilder.WithRate` | src/main/java/blockm/MatrixBuilder.java:18-20 | the one-argument constructor keeps the given threshold and the default checkpoint interval of 5000 |
| `MatrixBuilder.Exceeds` | src/main/java/blockm/MatrixBuilder.java:45-50 | the fill-rate test is entries/cells > rate in real division when cells is non-zero; with zero cells it holds exactly when there is an entry (+Infinity versus NaN) |
| `MatrixBuilder.New` | src/main/java/blockm/MatrixBuilder.java:8-25 | a new builder satisfies the invariant, has no dense block and no counted entries, and holds 0 everywhere |
| `MatrixBuilder.MinSize` | src/main/java/blockm/MatrixBuilder.java:27-34 | minSize only raises the sparse rows/cols floor to the requested values, never lowers it, and changes no value and no other state: the configuration, the count, the dense block and region, and the stored sparse entries are all kept |
| `MatrixBuilder.Replay` | src/main/java/blockm/MatrixBuilder.java:87-88 | after the replay, each cell the sparse block stores holds the sparse value and every other dense cell keeps its value |
| `MatrixBuilder.IterateReplay` | src/main/java/blockm/MatrixBuilder.java:87-88 | visiting the stored triples in any order and writing each into the dense block gives the same block as Replay, so the result does not depend on iteration order |
| `MatrixBuilder.Migrate` | src/main/java/blockm/MatrixBuilder.java:85-90 | after a migration the cached extent equals the dense block's, the sparse block is empty at 0 × 0, the entry count is 0, and the invariant holds |
| `MatrixBuilder.MapDense` | src/main/java/blockm/MatrixBuilder.java:69-91 | mapDense (with corrected sizing) leaves a dense block whose region covers the old dense region and the sparse extent, an empty sparse block and a zero count, and keeps the invariant |
| `MatrixBuilder.MapDensePreservesValues` | src/main/java/blockm/MatrixBuilder.java:69-91 | migration changes no value: every entry formerly in sparse is read from the dense block with the same value, and dense cells it did not cover keep theirs |
| `MatrixBuilder.WriteSparse` | src/main/java/blockm/MatrixBuilder.java:43-44 | a sparse write outside the dense region keeps the invariant, so sparse entries stay disjoint from the dense region |
| `MatrixBuilder.Route` | src/main/java/blockm/MatrixBuilder.java:36-44 | a zero value or negative coordinate changes nothing; a cell in the dense region writes only the dense block and leaves sparse and the count unchanged; any other cell is written to sparse and the count rises by exactly 1 |
| `MatrixBuilder.MigrationDueRate` | src/main/java/blockm/MatrixBuilder.java:45-49 | the checkpoint test fires exactly at a multiple of the checkpoint interval when the sparse entries over the cells the dense block does not cover exceed the threshold in real division, or there is an entry and no such cell (+Infinity) |
| `MatrixBuilder.Migrates` | src/main/java/blockm/MatrixBuilder.java:43-49 | a put ends in a migration only if its value is non-zero, its coordinates are not negative and its cell is outside the dense region, so it went to the sparse block |
| `MatrixBuilder.MigratesAtCheckpoint` | src/main/java/blockm/MatrixBuilder.java:44-45 | a migration fires only at an insert that brings the count since the last clear to a positive multiple of the checkpoint interval |
| `MatrixBuilder.Put` | src/main/java/blockm/MatrixBuilder.java:36-53 | put keeps the invariant; with a migration the sparse block ends empty and uncounted, and without one it holds the insert and is counted once; the dense region never shrinks |
| `MatrixBuilder.PutValue` | src/main/java/blockm/MatrixBuilder.java:36-53 | after put(row, col, val) the builder holds val at (row, col) when val is non-zero and the coordinates are not negative, and every other cell is unchanged, whether or not a migration followed |
| `MatrixBuilder.Run` | src/main/java/blockm/MatrixBuilder.java:36-53 | any sequence of puts keeps the builder invariant and never shrinks the dense region |
| `MatrixBuilder.LastWrite` | src/main/java/blockm/MatrixBuilder.java:37-38 | the reference "last insert put does not ignore" only ever names a non-zero value |
| `MatrixBuilder.RunValue` | src/main/java/blockm/MatrixBuilder.java:36-91 | last write wins: after any inserts the builder holds at each cell the last non-zero value inserted there, or its earlier value |
| `MatrixBuilder.Finish` | src/main/java/blockm/MatrixBuilder.java:55-67 | finish returns the sparse block unchanged exactly when there is no dense block and the whole-extent fill rate does not exceed the threshold; otherwise it returns a dense block covering the dense region |
| `MatrixBuilder.FinishValue` | src/main/java/blockm/MatrixBuilder.java:55-67 | the matrix finish returns has every non-zero builder value in range and reads the builder's value at every addressable cell |
| `MatrixBuilder.Fidelity` | src/test/java/blockm/MatrixBuilderTest.java:26-61 | after minSize, any inserts and finish, the result reads the last non-zero put at every addressable cell (0 if none), and every written cell is in range, whenever migrations happen |
| `AsWritten.MapDenseAsWritten` | src/main/java/blockm/MatrixBuilder.java:69-91 | the source's mapDense, when it does not throw, keeps the invariant and the configuration and leaves an empty, uncounted sparse block |
| `AsWritten.MapDenseAgrees` | src/main/java/blockm/MatrixBuilder.java:73-84 | when a reallocation sees a sparse extent at least the dense extent in both dimensions, the source's mapDense equals the corrected one |
| `AsWritten.MapDenseAsWrittenShrinks` | src/main/java/blockm/MatrixBuilder.java:73-84 | when the reallocation branch runs with a sparse extent smaller in one dimension, the source's mapDense throws or shrinks the dense region |
| `AsWritten.PutAsWritten` | src/main/java/blockm/MatrixBuilder.java:36-53 | the source's put, when it does not throw, keeps the invariant and the configuration |
| `AsWritten.RunAsWritten` | src/main/java/blockm/MatrixBuilder.java:36-53 | the source's puts in sequence, when none throws, keep the invariant and the configuration |
| `AsWritten.FinishAsWritten` | src/main/java/blockm/MatrixBuilder.java:55-67 | the source's finish, when it does not throw, returns a well-formed matrix |
| `AsWritten.RunAgrees` | src/main/java/blockm/MatrixBuilder.java:36-91 | on a trace where every triggered reallocation sees a sparse extent at least the dense one, the source's builder goes through exactly the corrected builder's states |
| `AsWritten.FidelityUnderNoShrink` | src/test/java/blockm/MatrixBuilderTest.java:44-61 | under that condition, and the same for the reallocation finish forces, the source's builder does not throw, and its result reads the last non-zero put at every addressable cell, with every written cell in range |
| `AsWritten.WitnessStep1` | src/main/java/blockm/MatrixBuilder.java:70-72 | with a checkpoint at every insert, put(0,0,1) allocates a 1 × 1 block |
| `AsWritten.WitnessStep2` | src/main/java/blockm/MatrixBuilder.java:73-84 | then put(1,0,2) grows it to 2 × 1 |
| `AsWritten.WitnessStep3Due` | src/main/java/blockm/MatrixBuilder.java:45-49 | then put(0,1,3) gives a 1 × 2 sparse extent over 2 - 2 = 0 uncovered cells, so the +Infinity rate triggers a migration |
| `AsWritten.ReallocTallToWide` | src/main/java/blockm/MatrixBuilder.java:75-82 | any 2 × 1 block reallocated at 1 × 2 does not throw |
| `AsWritten.WitnessStep3` | src/main/java/blockm/MatrixBuilder.java:75-76 | so put(0,1,3) reallocates it at the 1 × 2 sparse extent, which drops row 1 |
| `AsWritten.ShrinkLosesCell` | src/main/java/blockm/MatrixBuilder.java:75-76 | after those three puts, the source's finish returns a one-row matrix that has lost (1, 0), last set to 2; the corrected builder reads 2 there |
| `AsWritten.WitnessWideStep` | src/main/java/blockm/MatrixBuilder.java:73-84 | with a checkpoint at every insert, put(0,0,1), put(0,1,2) grow the block to 1 × 2 |
| `AsWritten.CopyRunsPastEndDue` | src/main/java/blockm/MatrixBuilder.java:45-49 | then put(1,0,3) gives a 2 × 1 sparse extent over 2 - 2 = 0 uncovered cells, so the +Infinity rate triggers a migration |
| `AsWritten.ReallocWideToTall` | src/main/java/blockm/MatrixBuilder.java:75-81 | any 1 × 2 block reallocated at 2 × 1 throws: the second column's copy starts at index 2 of a 2-element array |
| `AsWritten.CopyRunsPastEndThrows` | src/main/java/blockm/MatrixBuilder.java:75-81 | so the source's put(1,0,3) throws |
| `AsWritten.CopyRunsPastEnd` | src/main/java/blockm/MatrixBuilder.java:75-81 | the source's builder throws on put(0,0,1), put(0,1,2), put(1,0,3) with a checkpoint at every insert, while the corrected builder holds 1, 2 and 3 at (0, 0), (0, 1) and (1, 0) |
| `Scenarios.DiagonalRun` | src/main/java/blockm/MatrixBuilder.java:45-51 | inserting (i, i, i) for i < n with the defaults never migrates: no dense block, n-1 counted entries (put ignores the 0 at (0, 0)) and extent n × n, or 0 × 0 when n < 2 |
| `Scenarios.DiagonalBelowRate` | src/main/java/blockm/MatrixBuilder.java:60-62 | n-1 entries in an n × n extent do not exceed the default rate 0.2 once n >= 4 |
| `Scenarios.DiagonalStaysSparse` | src/test/java/blockm/MatrixBuilderTest.java:10-24 | for every n >= 4 (the test uses 10^6), finish returns the sparse block with n rows and n columns, reading i at (i, i) and 0 off the diagonal |

## Findings

| source | as written | input that shows it | evidently intended | confidence | as-written member | corrected member |
|---|---|---|---|---|---|---|
| src/main/java/blockm/MatrixBuilder.java:75-76 | the reallocated dense block is sized `sparse.rows × sparse.cols`, which can be smaller than the old block in one dimension | threshold 0.2, checkpoint 1: put(0,0,1), put(1,0,2), put(0,1,3), finish — the result is 1 × 2, and cell (1, 0), last set to 2, is gone | size the block at the larger of the dense and sparse extents in each dimension, so the dense region never shrinks | not executed | `AsWritten.ShrinkLosesCell` | `MatrixBuilder.MapDense` |
| src/main/java/blockm/MatrixBuilder.java:77-81 | the column copy into an under-sized block writes past its end | threshold 0.2, checkpoint 1: put(0,0,1), put(0,1,2), put(1,0,3) — the third put reallocates the 1 × 2 block at the 2 × 1 sparse extent, and the second column's copy starts at index 2 of a 2-element array (IndexOutOfBoundsException) | copy into a block at least the old extent in both dimensions, which never goes out of bounds | not executed | `AsWritten.CopyRunsPastEnd` | `Dense.Grow` |

`Dense.ReallocShrinkOutOfBounds` shows the same out-of-bounds copy on the
block alone, and `Dense.ReallocShrinkCorrupts` shows a shrinking reallocation
that does not throw but overlaps columns.

In the tests' row-by-row insertion order, the first checkpoint can fire in
the middle of a row. Every later checkpoint comes after at least one full
sparse row has been written since the last clear, so the sparse extent then
spans every column. `AsWritten.FidelityUnderNoShrink` states the condition
under which the source's builder is correct; the model does not prove that
the tests' traces meet it.

## Left out

- `double` values: cells hold `int`, and the threshold is a rational `rateNum / rateDen`. Rounding in the floating-point division of the fill rate is not modelled.
- 32-bit `int` arithmetic: `rows * cols` (MatrixBuilder.java:46 and 60) wraps for the 10^6 × 10^6 diagonal in the source and is unbounded here. Both give "sparse" for that test. `row + 1`, `sparseEntries++` and the array index `c * rows + r` are unbounded too.
- Trove hash-map internals (capacities, load factors, the no-entry key -1) are mathematical maps. The no-entry value 0 is kept.
- `SparseMatrix.toString` is debug formatting.
- DenseMatrix.java is not part of this model. The dense block is modelled only as far as the builder uses it: extents, zeroed data, and `get`/`set` at `c * rows + r`, both requiring in-range coordinates. Its `getRow`, `getColumn` and `copy` are not modelled, so `Contract` covers extents, `get` and `set` only.
- Negative coordinates passed directly to `SparseMatrix.set`/`get` (unguarded in the source) are excluded by `nat` indices. The builder's `put` takes `int` and ignores negatives as the source does.
- A checkpoint interval of 0 (an ArithmeticException at the first sparse insert) or below 0 is excluded by `ValidConfig`.
- Object identity and aliasing: every value is immutable. So the copy returned by `copy` is independent of the original by construction, and `finish` returns a matrix without modifying a builder that could be reused.
- `Scenarios.DiagonalStaysSparse`: is stated for every n >= 4, not computed for the test's n = 10^6, which is an instance.
- The two full-grid tests (MatrixBuilderTest.java:26-61): their values are covered by `MatrixBuilder.Fidelity`. That their result is the dense block, and that their traces satisfy the condition of `AsWritten.FidelityUnderNoShrink`, are not proved.
- Memory, `System.arraycopy` performance and JUnit plumbing.
