/** The common matrix contract (IMatrix.java) as a sum over the two backends:
    extents, and point reads and writes. A sparse matrix reads 0 at any cell
    it does not hold and grows its extent on a write; a dense matrix is read
    and written only inside its fixed extent. */
module Contract {
  import Sparse
  import Dense

  datatype Matrix = SparseBacked(sparse: Sparse.SparseMatrix) | DenseBacked(dense: Dense.DenseMatrix)

  ghost predicate Valid(m: Matrix) {
    match m
    case SparseBacked(s) => Sparse.Valid(s)
    case DenseBacked(d) => Dense.Valid(d)
  }

  /** `rows()`: every stored sparse entry lies in a row below it; a dense
      block holds rows * columns values. */
  function Rows(m: Matrix): (n: nat)
    ensures m.SparseBacked? && Valid(m) ==> forall r: nat, c: nat :: Sparse.Stored(m.sparse, r, c) ==> r < n
    ensures m.DenseBacked? && Valid(m) ==> |m.dense.data| == n * m.dense.cols
  {
    match m
    case SparseBacked(s) => s.rows
    case DenseBacked(d) => d.rows
  }

  /** `columns()`: every stored sparse entry lies in a column below it; a
      dense block holds rows * columns values. */
  function Columns(m: Matrix): (n: nat)
    ensures m.SparseBacked? && Valid(m) ==> forall r: nat, c: nat :: Sparse.Stored(m.sparse, r, c) ==> c < n
    ensures m.DenseBacked? && Valid(m) ==> |m.dense.data| == m.dense.rows * n
  {
    match m
    case SparseBacked(s) => s.cols
    case DenseBacked(d) => d.cols
  }

  predicate InRange(m: Matrix, r: nat, c: nat) {
    r < Rows(m) && c < Columns(m)
  }

  /** A cell `get` and `set` may address: any cell of a sparse matrix, an
      in-range cell of a dense one. */
  predicate Accessible(m: Matrix, r: nat, c: nat) {
    m.SparseBacked? || InRange(m, r, c)
  }

  /** `get(row, col)` */
  function Get(m: Matrix, r: nat, c: nat): (v: int)
    requires Valid(m) && Accessible(m, r, c)
    ensures v != 0 ==> InRange(m, r, c)
  {
    match m
    case SparseBacked(s) => Sparse.Get(s, r, c)
    case DenseBacked(d) => Dense.Get(d, r, c)
  }

  /** `set(row, col, val)`: both backends read back the written value, keep
      every other cell, and never shrink. */
  function Set(m: Matrix, r: nat, c: nat, v: int): (m': Matrix)
    requires Valid(m) && Accessible(m, r, c)
    ensures Valid(m') && m'.SparseBacked? == m.SparseBacked?
    ensures Rows(m') >= Rows(m) && Columns(m') >= Columns(m)
    ensures Accessible(m', r, c) && Get(m', r, c) == v
    ensures forall x: nat, y: nat :: Accessible(m, x, y) && (x != r || y != c) ==>
              Accessible(m', x, y) && Get(m', x, y) == Get(m, x, y)
  {
    match m
    case SparseBacked(s) => SparseBacked(Sparse.Set(s, r, c, v))
    case DenseBacked(d) => DenseBacked(Dense.Set(d, r, c, v))
  }
}
