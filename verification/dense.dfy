/** The dense backend as far as the builder uses it: extents `rows` x `cols`
    and a zero-initialised flat array addressed column-major, cell (r, c) at
    index c * rows + r. Includes the column-by-column reallocation copy of the
    builder's growth branch. */
module Dense {
  import opened Wrappers

  datatype DenseMatrix = DenseMatrix(rows: nat, cols: nat, data: seq<int>)

  /** The backing array holds exactly rows * cols values. */
  predicate Valid(d: DenseMatrix) {
    |d.data| == d.rows * d.cols
  }

  /** The column-major linear index of (r, c) in a block with `rows` rows. */
  function Index(rows: nat, r: nat, c: nat): nat {
    c * rows + r
  }

  lemma MulLe(a: nat, b: nat, n: nat)
    requires a <= b
    ensures a * n <= b * n
  {
  }

  /** Every in-range cell has an index inside the array, and the whole of
      column c ends by index (c + 1) * rows. */
  lemma IndexInRange(rows: nat, cols: nat, r: nat, c: nat)
    requires r < rows && c < cols
    ensures Index(rows, r, c) < (c + 1) * rows <= rows * cols
  {
    MulLe(c + 1, cols, rows);
  }

  /** The index determines the cell: row r is the remainder and column c the
      quotient of the index by `rows`. */
  lemma IndexDecompose(rows: nat, r: nat, c: nat)
    requires r < rows
    ensures Index(rows, r, c) / rows == c && Index(rows, r, c) % rows == r
  {
    var i := Index(rows, r, c);
    var q, m := i / rows, i % rows;
    assert i == q * rows + m;
    if q < c {
      MulLe(q + 1, c, rows);
      assert false;
    } else if c < q {
      MulLe(c + 1, q, rows);
      assert false;
    }
  }

  /** Distinct in-range cells have distinct indices. */
  lemma IndexInjective(rows: nat, r1: nat, c1: nat, r2: nat, c2: nat)
    requires r1 < rows && r2 < rows && Index(rows, r1, c1) == Index(rows, r2, c2)
    ensures r1 == r2 && c1 == c2
  {
    IndexDecompose(rows, r1, c1);
    IndexDecompose(rows, r2, c2);
  }

  /** Every array index is the index of exactly one in-range cell. */
  lemma IndexCovers(rows: nat, cols: nat, i: nat)
    requires i < rows * cols
    ensures rows > 0 && i / rows < cols
    ensures Index(rows, i % rows, i / rows) == i
  {
    if i / rows >= cols {
      MulLe(cols, i / rows, rows);
      assert false;
    }
  }

  /** A fresh rows x cols block, every cell 0 (`new DenseMatrix(rows, cols)`). */
  function New(rows: nat, cols: nat): (d: DenseMatrix)
    ensures Valid(d) && d.rows == rows && d.cols == cols
    ensures forall r: nat, c: nat :: r < rows && c < cols ==> Get(d, r, c) == 0
  {
    var d := DenseMatrix(rows, cols, seq(rows * cols, _ => 0));
    assert forall r: nat, c: nat :: r < rows && c < cols ==> Get(d, r, c) == 0 by {
      forall r: nat, c: nat | r < rows && c < cols
        ensures Get(d, r, c) == 0
      {
        IndexInRange(rows, cols, r, c);
      }
    }
    d
  }

  /** `get` at column-major index c * rows + r. */
  function Get(d: DenseMatrix, r: nat, c: nat): (v: int)
    requires Valid(d) && r < d.rows && c < d.cols
    ensures v in d.data
  {
    IndexInRange(d.rows, d.cols, r, c);
    d.data[Index(d.rows, r, c)]
  }

  /** `set` at column-major index c * rows + r: the cell reads the new value
      and every other cell keeps its value. */
  function Set(d: DenseMatrix, r: nat, c: nat, v: int): (d': DenseMatrix)
    requires Valid(d) && r < d.rows && c < d.cols
    ensures Valid(d') && d'.rows == d.rows && d'.cols == d.cols
    ensures Get(d', r, c) == v
    ensures forall x: nat, y: nat :: x < d.rows && y < d.cols && (x != r || y != c) ==>
              Get(d', x, y) == Get(d, x, y)
  {
    IndexInRange(d.rows, d.cols, r, c);
    var d' := d.(data := d.data[Index(d.rows, r, c) := v]);
    assert forall x: nat, y: nat :: x < d.rows && y < d.cols && (x != r || y != c) ==>
             Get(d', x, y) == Get(d, x, y) by {
      forall x: nat, y: nat | x < d.rows && y < d.cols && (x != r || y != c)
        ensures Get(d', x, y) == Get(d, x, y)
      {
        IndexInRange(d.rows, d.cols, x, y);
        if Index(d.rows, x, y) == Index(d.rows, r, c) {
          IndexInjective(d.rows, x, y, r, c);
        }
      }
    }
    d'
  }

  /** Two blocks of the same extent that read the same at every cell are equal. */
  lemma Extensional(a: DenseMatrix, b: DenseMatrix)
    requires Valid(a) && Valid(b) && a.rows == b.rows && a.cols == b.cols
    requires forall r: nat, c: nat :: r < a.rows && c < a.cols ==> Get(a, r, c) == Get(b, r, c)
    ensures a == b
  {
    forall i | 0 <= i < |a.data|
      ensures a.data[i] == b.data[i]
    {
      IndexCovers(a.rows, a.cols, i);
      assert Get(a, i % a.rows, i / a.rows) == Get(b, i % a.rows, i / a.rows);
    }
  }

  /** Column col of a block: the contiguous run of rows values starting at
      col * rows, holding cells (0, col) .. (rows - 1, col) in order. */
  function Column(src: DenseMatrix, col: nat): (run: seq<int>)
    requires Valid(src) && col < src.cols
    ensures |run| == src.rows
    ensures forall r: nat :: r < src.rows ==> run[r] == Get(src, r, col)
  {
    MulLe(col + 1, src.cols, src.rows);
    src.data[col * src.rows .. col * src.rows + src.rows]
  }

  /** One iteration of the copy loop of the reallocation branch: column col
      of `src` overwrites the run of src.rows values starting at
      col * nextRows of `next`. */
  function CopyColumn(src: DenseMatrix, next: seq<int>, nextRows: nat, col: nat): (next': seq<int>)
    requires Valid(src) && col < src.cols && col * nextRows + src.rows <= |next|
    ensures |next'| == |next|
    ensures forall i :: 0 <= i < |next| ==>
              next'[i] == if col * nextRows <= i < col * nextRows + src.rows
                          then Column(src, col)[i - col * nextRows]
                          else next[i]
  {
    next[..col * nextRows] + Column(src, col) + next[col * nextRows + src.rows ..]
  }

  /** The copy loop from column `col` on, exactly as written. A run that would
      end past the end of `next` is the out-of-bounds exception of the array
      copy, modelled as None. */
  function CopyColumns(src: DenseMatrix, next: seq<int>, nextRows: nat, col: nat): (r: Option<seq<int>>)
    requires Valid(src) && col <= src.cols
    ensures r.Some? ==> |r.value| == |next|
    decreases src.cols - col
  {
    if col == src.cols then Some(next)
    else if col * nextRows + src.rows > |next| then None
    else CopyColumns(src, CopyColumn(src, next, nextRows, col), nextRows, col + 1)
  }

  /** The reallocation as written: a zero block newRows x newCols receives the
      old block column by column. */
  function Realloc(src: DenseMatrix, newRows: nat, newCols: nat): (r: Option<DenseMatrix>)
    requires Valid(src)
    ensures r.Some? ==> Valid(r.value) && r.value.rows == newRows && r.value.cols == newCols
  {
    match CopyColumns(src, New(newRows, newCols).data, newRows, 0)
    case Some(data) => Some(DenseMatrix(newRows, newCols, data))
    case None => None
  }

  /** What `next` holds after the columns before `col` have been copied into
      a zero block with `nextRows` rows: the old value in the old block's part
      of those columns, 0 everywhere else. */
  ghost predicate CopiedUpTo(src: DenseMatrix, next: seq<int>, nextRows: nat, nextCols: nat, col: nat)
    requires Valid(src) && src.rows <= nextRows && src.cols <= nextCols && col <= src.cols
    requires |next| == nextRows * nextCols
  {
    forall r: nat, c: nat :: r < nextRows && c < nextCols ==>
      Get(DenseMatrix(nextRows, nextCols, next), r, c) ==
        if r < src.rows && c < col then Get(src, r, c) else 0
  }

  /** Overwriting the run of |seg| values at position `at` leaves every other
      position alone. */
  lemma Splice(next: seq<int>, at: nat, seg: seq<int>, i: nat)
    requires at + |seg| <= |next| && i < |next|
    ensures var next' := next[..at] + seg + next[at + |seg| ..];
            && |next'| == |next|
            && next'[i] == if at <= i < at + |seg| then seg[i - at] else next[i]
  {
  }

  /** The run written for column `col` fits in a block of nextRows x nextCols. */
  lemma ColumnFits(srcRows: nat, nextRows: nat, nextCols: nat, col: nat)
    requires srcRows <= nextRows && col < nextCols
    ensures col * nextRows + srcRows <= nextRows * nextCols
  {
    MulLe(col + 1, nextCols, nextRows);
  }

  /** Cell (r, c) of a block with `rows` rows lies in the run of the first
      `len` cells of column `col` exactly when it is one of them. */
  lemma InColumnRun(rows: nat, len: nat, r: nat, c: nat, col: nat)
    requires r < rows && len <= rows
    ensures (col * rows <= Index(rows, r, c) < col * rows + len) <==> (c == col && r < len)
  {
    if c < col {
      MulLe(c + 1, col, rows);
    } else if c > col {
      MulLe(col + 1, c, rows);
    }
  }

  /** One step of the copy loop, position by position. */
  lemma CopyColumnAt(src: DenseMatrix, next: seq<int>, nextRows: nat, col: nat, i: nat)
    requires Valid(src) && col < src.cols && col * nextRows + src.rows <= |next| && i < |next|
    ensures CopyColumn(src, next, nextRows, col)[i] ==
              if col * nextRows <= i < col * nextRows + src.rows
              then Column(src, col)[i - col * nextRows]
              else next[i]
  {
    Splice(next, col * nextRows, Column(src, col), i);
  }

  /** One step of the copy loop, cell by cell: column `col` of the new block
      receives the old column in its first src.rows cells; every other cell
      keeps its value. */
  lemma CopyColumnCell(src: DenseMatrix, next: seq<int>, nextRows: nat, nextCols: nat, col: nat, r: nat, c: nat)
    requires Valid(src) && src.rows <= nextRows && src.cols <= nextCols
    requires |next| == nextRows * nextCols && col < src.cols
    requires r < nextRows && c < nextCols
    ensures col * nextRows + src.rows <= |next|
    ensures Get(DenseMatrix(nextRows, nextCols, CopyColumn(src, next, nextRows, col)), r, c) ==
              if c == col && r < src.rows then Get(src, r, c)
              else Get(DenseMatrix(nextRows, nextCols, next), r, c)
  {
    ColumnFits(src.rows, nextRows, nextCols, col);
    IndexInRange(nextRows, nextCols, r, c);
    var i := Index(nextRows, r, c);
    CopyColumnAt(src, next, nextRows, col, i);
    InColumnRun(nextRows, src.rows, r, c, col);
    if c == col && r < src.rows {
      assert i - col * nextRows == r;
    }
  }

  /** One step of the copy loop extends the copied prefix by column `col`. */
  lemma {:induction false} CopyColumnStep(src: DenseMatrix, next: seq<int>, nextRows: nat, nextCols: nat, col: nat)
    requires Valid(src) && src.rows <= nextRows && src.cols <= nextCols
    requires |next| == nextRows * nextCols && col < src.cols
    requires CopiedUpTo(src, next, nextRows, nextCols, col)
    ensures col * nextRows + src.rows <= |next|
    ensures CopiedUpTo(src, CopyColumn(src, next, nextRows, col), nextRows, nextCols, col + 1)
  {
    ColumnFits(src.rows, nextRows, nextCols, col);
    forall r: nat, c: nat | r < nextRows && c < nextCols
      ensures Get(DenseMatrix(nextRows, nextCols, CopyColumn(src, next, nextRows, col)), r, c) ==
                if r < src.rows && c < col + 1 then Get(src, r, c) else 0
    {
      CopyColumnCell(src, next, nextRows, nextCols, col, r, c);
    }
  }

  lemma {:induction false} CopyColumnsGrows(src: DenseMatrix, next: seq<int>, nextRows: nat, nextCols: nat, col: nat)
    requires Valid(src) && src.rows <= nextRows && src.cols <= nextCols
    requires |next| == nextRows * nextCols && col <= src.cols
    requires CopiedUpTo(src, next, nextRows, nextCols, col)
    ensures CopyColumns(src, next, nextRows, col).Some?
    ensures var data := CopyColumns(src, next, nextRows, col).value;
            |data| == nextRows * nextCols && CopiedUpTo(src, data, nextRows, nextCols, src.cols)
    decreases src.cols - col
  {
    if col < src.cols {
      CopyColumnStep(src, next, nextRows, nextCols, col);
      CopyColumnsGrows(src, CopyColumn(src, next, nextRows, col), nextRows, nextCols, col + 1);
    }
  }

  /** When the new extent is at least the old one in both dimensions, the
      copy never runs past the end: src cell (r, c) moves from c * oldRows + r
      to c * newRows + r, so every src value is preserved and every new cell
      is 0. */
  lemma ReallocPreserves(src: DenseMatrix, newRows: nat, newCols: nat)
    requires Valid(src) && src.rows <= newRows && src.cols <= newCols
    ensures Realloc(src, newRows, newCols).Some?
    ensures var d := Realloc(src, newRows, newCols).value;
            && Valid(d) && d.rows == newRows && d.cols == newCols
            && forall r: nat, c: nat :: r < newRows && c < newCols ==>
                 Get(d, r, c) == if r < src.rows && c < src.cols then Get(src, r, c) else 0
  {
    var zero := New(newRows, newCols);
    assert CopiedUpTo(src, zero.data, newRows, newCols, 0) by {
      forall r: nat, c: nat | r < newRows && c < newCols
        ensures Get(DenseMatrix(newRows, newCols, zero.data), r, c) == 0
      {
        assert Get(zero, r, c) == 0;
      }
    }
    CopyColumnsGrows(src, zero.data, newRows, newCols, 0);
  }

  /** The growth the builder evidently intends: a block of at least the old
      extent in both dimensions that keeps every src value and is 0 in the
      new cells. */
  function Grow(src: DenseMatrix, newRows: nat, newCols: nat): (d: DenseMatrix)
    requires Valid(src) && src.rows <= newRows && src.cols <= newCols
    ensures Valid(d) && d.rows == newRows && d.cols == newCols
    ensures forall r: nat, c: nat :: r < newRows && c < newCols ==>
              Get(d, r, c) == if r < src.rows && c < src.cols then Get(src, r, c) else 0
  {
    ReallocPreserves(src, newRows, newCols);
    Realloc(src, newRows, newCols).value
  }

  /** The source's reallocation sized from a smaller row extent: a 1 x 2 block
      [1, 2] copied into a 2 x 1 block runs the second column past the end of
      the new array. */
  lemma ReallocShrinkOutOfBounds()
    ensures Realloc(DenseMatrix(1, 2, [1, 2]), 2, 1) == None
  {
    var zero := New(2, 1).data;
    assert zero == [0, 0];
    var after0 := CopyColumn(DenseMatrix(1, 2, [1, 2]), zero, 2, 0);
    assert after0 == [1, 0];
    assert CopyColumns(DenseMatrix(1, 2, [1, 2]), after0, 2, 1) == None;
  }

  /** The source's reallocation sized from a smaller row extent that stays in
      bounds: a 2 x 2 block [1, 2, 3, 4] copied into 1 x 3 overlaps its
      columns, so the old cells in row 1 are lost and the new cell (0, 2)
      reads 4 instead of 0. */
  lemma ReallocShrinkCorrupts()
    ensures Realloc(DenseMatrix(2, 2, [1, 2, 3, 4]), 1, 3) == Some(DenseMatrix(1, 3, [1, 3, 4]))
  {
    var src := DenseMatrix(2, 2, [1, 2, 3, 4]);
    var zero := New(1, 3).data;
    assert zero == [0, 0, 0];
    var after0 := CopyColumn(src, zero, 1, 0);
    assert after0 == [1, 2, 0];
    var after1 := CopyColumn(src, after0, 1, 1);
    assert src.data[2..4] == [3, 4];
    assert after1 == [1, 3, 4];
    assert CopyColumns(src, after1, 1, 2) == Some(after1);
    assert CopyColumns(src, after0, 1, 1) == Some(after1);
  }
}
