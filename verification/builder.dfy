/** The adaptive builder (MatrixBuilder.java): inserts go to the dense block
    when they fall inside the dense region synced at the last migration and to
    the sparse block otherwise; every `checkpoint`-th sparse insert the fill
    rate of the region dense does not cover is compared with the threshold,
    and crossing it migrates the sparse entries into a (re)allocated dense
    block. This module sizes a reallocated block at the larger of the old
    dense extent and the sparse extent in each dimension; the source's own
    sizing is modelled, and shown to lose cells, in module AsWritten. */
module MatrixBuilder {
  import opened Wrappers
  import Sparse
  import Dense
  import Contract

  /** The tunables: the fill-rate threshold rateNum / rateDen and the number
      of sparse inserts between fill-rate checks. */
  datatype Config = Config(rateNum: int, rateDen: nat, checkpoint: nat)

  predicate ValidConfig(cfg: Config) {
    cfg.rateDen > 0 && cfg.checkpoint > 0
  }

  /** `new MatrixBuilder()`: threshold 0.2, checkpoint 5000. */
  const Defaults := Config(1, 5, 5000)

  /** The defaults are a valid configuration whose threshold is 0.2, the
      one-argument constructor at rate 0.2. */
  lemma DefaultsValid()
    ensures ValidConfig(Defaults) && Defaults == WithRate(1, 5)
    ensures (Defaults.rateNum as real) / (Defaults.rateDen as real) == 0.2 && Defaults.checkpoint == 5000
  {
  }

  /** `new MatrixBuilder(rate)`: the given threshold, checkpoint 5000. */
  function WithRate(rateNum: int, rateDen: nat): (cfg: Config)
    requires rateDen > 0
    ensures ValidConfig(cfg) && cfg.checkpoint == Defaults.checkpoint
    ensures cfg.rateNum == rateNum && cfg.rateDen == rateDen
  {
    Config(rateNum, rateDen, 5000)
  }

  /** `(double) entries / (double) cells > rate` with the outcomes of floating
      point division: a positive count over 0 cells is +Infinity, which
      exceeds every threshold; 0 / 0 is NaN, which exceeds none. */
  function Exceeds(entries: nat, cells: int, cfg: Config): (b: bool)
    requires cfg.rateDen > 0
    ensures cells != 0 ==>
              (b <==> (entries as real) / (cells as real) > (cfg.rateNum as real) / (cfg.rateDen as real))
    ensures cells == 0 ==> (b <==> entries > 0)
  {
    if cells > 0 then entries * cfg.rateDen > cfg.rateNum * cells
    else if cells == 0 then entries > 0
    else entries * cfg.rateDen < cfg.rateNum * cells
  }

  /** The builder's state: the sparse block, the dense block (None until the
      first migration), the dense extent cached at the last migration, and the
      number of sparse inserts since the sparse block was last cleared. */
  datatype Builder = Builder(
    cfg: Config,
    sparseEntries: nat,
    sparse: Sparse.SparseMatrix,
    dense: Option<Dense.DenseMatrix>,
    denseRows: nat,
    denseCols: nat)

  /** The routing test of `put`: the cell lies inside the cached dense extent. */
  predicate InDenseRegion(b: Builder, r: int, c: int) {
    0 <= r < b.denseRows && 0 <= c < b.denseCols
  }

  /** The builder invariant: the cached extent is 0 x 0 while there is no dense
      block and equals its extent afterwards, and no sparse entry lies inside
      the dense region. */
  ghost predicate Inv(b: Builder) {
    && ValidConfig(b.cfg)
    && Sparse.Valid(b.sparse)
    && (b.dense.None? ==> b.denseRows == 0 && b.denseCols == 0)
    && (b.dense.Some? ==>
          && Dense.Valid(b.dense.value)
          && b.denseRows == b.dense.value.rows
          && b.denseCols == b.dense.value.cols)
    && forall r: nat, c: nat :: Sparse.Stored(b.sparse, r, c) ==> !InDenseRegion(b, r, c)
  }

  /** The value the builder currently holds at (r, c): the dense block's inside
      the dense region, the sparse block's outside it. */
  function Value(b: Builder, r: nat, c: nat): int
    requires Inv(b)
  {
    if InDenseRegion(b, r, c) then Dense.Get(b.dense.value, r, c) else Sparse.Get(b.sparse, r, c)
  }

  /** A fresh builder: an empty sparse block and no dense block. */
  function New(cfg: Config): (b: Builder)
    requires ValidConfig(cfg)
    ensures Inv(b) && b.cfg == cfg && b.dense.None? && b.sparseEntries == 0
    ensures forall r: nat, c: nat :: Value(b, r, c) == 0
  {
    Builder(cfg, 0, Sparse.Empty(), None, 0, 0)
  }

  /** `minSize(rows, cols)`: raises the sparse extent to at least the given
      floor, never lowers it, and changes no value. */
  function MinSize(b: Builder, rows: int, cols: int): (b': Builder)
    requires Inv(b)
    ensures Inv(b')
    ensures b'.sparse.rows >= b.sparse.rows && b'.sparse.rows >= rows
    ensures b'.sparse.cols >= b.sparse.cols && b'.sparse.cols >= cols
    ensures b'.sparse.rows == b.sparse.rows || b'.sparse.rows == rows
    ensures b'.sparse.cols == b.sparse.cols || b'.sparse.cols == cols
    ensures b'.dense == b.dense && b'.sparseEntries == b.sparseEntries
    ensures forall r: nat, c: nat :: Value(b', r, c) == Value(b, r, c)
    ensures b' == b.(sparse := b'.sparse) && b'.sparse.data == b.sparse.data
  {
    var s := b.sparse;
    var s' := s.(rows := if s.rows < rows then rows else s.rows,
                 cols := if s.cols < cols then cols else s.cols);
    assert forall r: nat, c: nat :: Sparse.Stored(s', r, c) == Sparse.Stored(s, r, c);
    assert forall r: nat, c: nat :: Sparse.Get(s', r, c) == Sparse.Get(s, r, c);
    b.(sparse := s')
  }

  /** The dense block after every stored sparse entry has been written into
      it: stored cells take the sparse value, all others keep theirs. This is
      the effect of `sparse.iterate` with `dense.set` as the callback, which
      does not depend on the visiting order because each cell is visited at
      most once (see IterateReplay). */
  function Replay(d: Dense.DenseMatrix, s: Sparse.SparseMatrix): (d': Dense.DenseMatrix)
    requires Dense.Valid(d) && Sparse.Valid(s) && s.rows <= d.rows && s.cols <= d.cols
    ensures Dense.Valid(d') && d'.rows == d.rows && d'.cols == d.cols
    ensures forall r: nat, c: nat :: r < d.rows && c < d.cols ==>
              Dense.Get(d', r, c) == if Sparse.Stored(s, r, c) then Sparse.Get(s, r, c) else Dense.Get(d, r, c)
  {
    var d' := d.(data := seq(|d.data|, i requires 0 <= i < |d.data| => ReplayCell(d, s, i)));
    assert forall r: nat, c: nat :: r < d.rows && c < d.cols ==>
             Dense.Get(d', r, c) == if Sparse.Stored(s, r, c) then Sparse.Get(s, r, c) else Dense.Get(d, r, c) by {
      forall r: nat, c: nat | r < d.rows && c < d.cols
        ensures Dense.Get(d', r, c) == if Sparse.Stored(s, r, c) then Sparse.Get(s, r, c) else Dense.Get(d, r, c)
      {
        Dense.IndexInRange(d.rows, d.cols, r, c);
        Dense.IndexDecompose(d.rows, r, c);
      }
    }
    d'
  }

  /** Array element i of the replayed block: the cell it addresses, column-major. */
  function ReplayCell(d: Dense.DenseMatrix, s: Sparse.SparseMatrix, i: nat): int
    requires Dense.Valid(d) && i < |d.data|
  {
    Dense.IndexCovers(d.rows, d.cols, i);
    var r, c := i % d.rows, i / d.rows;
    if Sparse.Stored(s, r, c) then s.data[r][c] else d.data[i]
  }

  /** `sparse.iterate((row, col, val) -> dense.set(row, col, val))`: every
      stored triple is visited once, in whatever order the maps yield them,
      and written into the dense block. Every order gives Replay's block. */
  method IterateReplay(d: Dense.DenseMatrix, s: Sparse.SparseMatrix) returns (d': Dense.DenseMatrix)
    requires Dense.Valid(d) && Sparse.Valid(s) && s.rows <= d.rows && s.cols <= d.cols
    ensures d' == Replay(d, s)
  {
    d' := d;
    var rowsLeft := s.data.Keys;
    while rowsLeft != {}
      invariant rowsLeft <= s.data.Keys
      invariant Dense.Valid(d') && d'.rows == d.rows && d'.cols == d.cols
      invariant forall x: nat, y: nat :: x < d.rows && y < d.cols ==>
                  Dense.Get(d', x, y) ==
                    if Sparse.Stored(s, x, y) && x !in rowsLeft then Sparse.Get(s, x, y) else Dense.Get(d, x, y)
      decreases rowsLeft
    {
      var r :| r in rowsLeft;
      var rowMap := s.data[r];
      var colsLeft := rowMap.Keys;
      while colsLeft != {}
        invariant colsLeft <= rowMap.Keys
        invariant Dense.Valid(d') && d'.rows == d.rows && d'.cols == d.cols
        invariant forall x: nat, y: nat :: x < d.rows && y < d.cols ==>
                    Dense.Get(d', x, y) ==
                      if Sparse.Stored(s, x, y) && (x !in rowsLeft || (x == r && y !in colsLeft))
                      then Sparse.Get(s, x, y) else Dense.Get(d, x, y)
        decreases colsLeft
      {
        var c :| c in colsLeft;
        assert Sparse.Stored(s, r, c);
        d' := Dense.Set(d', r, c, rowMap[c]);
        colsLeft := colsLeft - {c};
      }
      rowsLeft := rowsLeft - {r};
    }
    Dense.Extensional(d', Replay(d, s));
  }

  /** The tail of `mapDense` once a large enough block `d` is in place: cache
      its extent, replay the sparse entries into it, clear the sparse block
      and reset the entry count. */
  function Migrate(b: Builder, d: Dense.DenseMatrix): (b': Builder)
    requires Inv(b) && Dense.Valid(d) && b.sparse.rows <= d.rows && b.sparse.cols <= d.cols
    ensures Inv(b') && b'.cfg == b.cfg && b'.dense == Some(Replay(d, b.sparse))
    ensures b'.denseRows == d.rows && b'.denseCols == d.cols
    ensures b'.sparseEntries == 0 && Sparse.IsEmpty(b'.sparse)
  {
    var d' := Replay(d, b.sparse);
    Builder(b.cfg, 0, Sparse.Clear(b.sparse), Some(d'), d'.rows, d'.cols)
  }

  function Max(a: nat, b: nat): nat {
    if a < b then b else a
  }

  /** `mapDense`: allocate a block of the sparse extent when there is none,
      grow the block column by column when the sparse extent exceeds it in
      either dimension, then migrate. Afterwards the dense region covers both
      the old dense region and the sparse extent, and the sparse block is
      empty. */
  function MapDense(b: Builder): (b': Builder)
    requires Inv(b)
    ensures Inv(b') && b'.cfg == b.cfg && b'.dense.Some?
    ensures b'.sparseEntries == 0 && Sparse.IsEmpty(b'.sparse)
    ensures b'.denseRows >= b.denseRows && b'.denseCols >= b.denseCols
    ensures b'.denseRows >= b.sparse.rows && b'.denseCols >= b.sparse.cols
  {
    var s := b.sparse;
    match b.dense
    case None => Migrate(b, Dense.New(s.rows, s.cols))
    case Some(d) =>
      if d.rows < s.rows || d.cols < s.cols then
        Migrate(b, Dense.Grow(d, Max(d.rows, s.rows), Max(d.cols, s.cols)))
      else
        Migrate(b, d)
  }

  /** Migration changes no value: the replayed entries lay outside the old
      dense region, the old dense values are carried over, and every cell now
      outside the dense region was outside the sparse extent too. */
  lemma MapDensePreservesValues(b: Builder, r: nat, c: nat)
    requires Inv(b)
    ensures Value(MapDense(b), r, c) == Value(b, r, c)
  {
    var b' := MapDense(b);
    if InDenseRegion(b', r, c) {
      if !Sparse.Stored(b.sparse, r, c) && !InDenseRegion(b, r, c) {
        assert Sparse.Get(b.sparse, r, c) == 0;
      }
    } else {
      assert !Sparse.Stored(b.sparse, r, c);
    }
  }

  /** The sparse half of `put` up to the checkpoint: write the sparse block
      and count the insert. */
  function WriteSparse(b: Builder, row: nat, col: nat, val: int): (b': Builder)
    requires Inv(b) && !InDenseRegion(b, row, col)
    ensures Inv(b')
  {
    b.(sparse := Sparse.Set(b.sparse, row, col, val), sparseEntries := b.sparseEntries + 1)
  }

  /** `put(row, col, val)` up to the checkpoint: zero values and negative
      coordinates are ignored; a cell in the dense region is written to the
      dense block alone; any other cell is written to the sparse block and
      counted. */
  function Route(b: Builder, row: int, col: int, val: int): (b': Builder)
    requires Inv(b)
    ensures Inv(b') && b'.cfg == b.cfg
    ensures val == 0 || row < 0 || col < 0 ==> b' == b
    ensures val != 0 && InDenseRegion(b, row, col) ==>
              && b'.sparse == b.sparse && b'.sparseEntries == b.sparseEntries
              && b'.denseRows == b.denseRows && b'.denseCols == b.denseCols && b'.dense.Some?
    ensures val != 0 && row >= 0 && col >= 0 && !InDenseRegion(b, row, col) ==>
              && b'.sparseEntries == b.sparseEntries + 1
              && b'.sparse == Sparse.Set(b.sparse, row, col, val)
              && b'.dense == b.dense && b'.denseRows == b.denseRows && b'.denseCols == b.denseCols
  {
    if val == 0 || row < 0 || col < 0 then b
    else if InDenseRegion(b, row, col) then
      b.(dense := Some(Dense.Set(b.dense.value, row, col, val)))
    else
      WriteSparse(b, row, col, val)
  }

  /** The checkpoint test of `put`: at every `checkpoint`-th sparse insert,
      the fill rate of the sparse extent less the dense region exceeds the
      threshold. */
  predicate MigrationDue(b: Builder)
    requires ValidConfig(b.cfg)
  {
    && b.sparseEntries % b.cfg.checkpoint == 0
    && Exceeds(b.sparseEntries, b.sparse.rows * b.sparse.cols - b.denseRows * b.denseCols, b.cfg)
  }

  /** The checkpoint test in terms of the fill rate: at a multiple of the
      checkpoint interval, the sparse entries over the cells the dense block
      does not cover exceed the threshold in real division, or there is an
      entry and no such cell (+Infinity). */
  lemma MigrationDueRate(b: Builder)
    requires ValidConfig(b.cfg)
    ensures var cells := b.sparse.rows * b.sparse.cols - b.denseRows * b.denseCols;
            MigrationDue(b) <==>
              && b.sparseEntries % b.cfg.checkpoint == 0
              && (cells != 0 ==> (b.sparseEntries as real) / (cells as real) > (b.cfg.rateNum as real) / (b.cfg.rateDen as real))
              && (cells == 0 ==> b.sparseEntries > 0)
  {
  }

  /** `put(row, col, val)` ends in a migration: the insert went to the sparse
      block and the checkpoint test then fired. */
  predicate Migrates(b: Builder, row: int, col: int, val: int): (m: bool)
    requires Inv(b)
    ensures m ==> val != 0 && row >= 0 && col >= 0 && !InDenseRegion(b, row, col)
  {
    val != 0 && row >= 0 && col >= 0 && !InDenseRegion(b, row, col) && MigrationDue(Route(b, row, col, val))
  }

  /** A migration fires only at an insert that goes to the sparse block and
      brings the count since the last clear to a multiple of the checkpoint
      interval; the first checkpoint is after `checkpoint` such inserts. */
  lemma MigratesAtCheckpoint(b: Builder, row: int, col: int, val: int)
    requires Inv(b)
    ensures Migrates(b, row, col, val) ==>
              && (b.sparseEntries + 1) % b.cfg.checkpoint == 0
              && b.sparseEntries + 1 >= b.cfg.checkpoint
  {
  }

  /** `put(row, col, val)`: route the insert, then migrate when the checkpoint
      test fires. A migration leaves the sparse block empty and uncounted;
      without one the insert is in the sparse block and counted once. The
      dense region never shrinks. */
  function Put(b: Builder, row: int, col: int, val: int): (b': Builder)
    requires Inv(b)
    ensures Inv(b') && b'.cfg == b.cfg
    ensures val == 0 || row < 0 || col < 0 ==> b' == b
    ensures val != 0 && InDenseRegion(b, row, col) ==>
              && b'.sparse == b.sparse && b'.sparseEntries == b.sparseEntries
              && b'.denseRows == b.denseRows && b'.denseCols == b.denseCols
    ensures val != 0 && row >= 0 && col >= 0 && !InDenseRegion(b, row, col) ==>
              if Migrates(b, row, col, val)
              then b'.sparseEntries == 0 && Sparse.IsEmpty(b'.sparse)
              else && b'.sparseEntries == b.sparseEntries + 1
                   && b'.sparse == Sparse.Set(b.sparse, row, col, val)
                   && b'.dense == b.dense
    ensures b'.denseRows >= b.denseRows && b'.denseCols >= b.denseCols
  {
    var b1 := Route(b, row, col, val);
    if Migrates(b, row, col, val) then MapDense(b1) else b1
  }

  /** After `put(row, col, val)` the builder holds val at (row, col) when val
      is non-zero and the coordinates are not negative, and every other cell
      keeps its value, whichever block took the write and whether or not a
      migration followed. */
  lemma PutValue(b: Builder, row: int, col: int, val: int, r: nat, c: nat)
    requires Inv(b)
    ensures Value(Put(b, row, col, val), r, c) ==
              if val != 0 && row == r && col == c then val else Value(b, r, c)
  {
    var b1 := Route(b, row, col, val);
    assert Value(b1, r, c) == if val != 0 && row == r && col == c then val else Value(b, r, c);
    if Migrates(b, row, col, val) {
      MapDensePreservesValues(b1, r, c);
    }
  }

  /** The inserts a caller streams into the builder. */
  datatype Insert = Insert(row: int, col: int, val: int)

  /** The builder after the inserts, in order. */
  function Run(b: Builder, ops: seq<Insert>): (b': Builder)
    requires Inv(b)
    ensures Inv(b') && b'.cfg == b.cfg
    ensures b'.denseRows >= b.denseRows && b'.denseCols >= b.denseCols
    decreases |ops|
  {
    if ops == [] then b
    else
      var op := ops[|ops| - 1];
      Put(Run(b, ops[..|ops| - 1]), op.row, op.col, op.val)
  }

  /** The value of the last insert to (r, c) that `put` does not ignore. */
  function LastWrite(ops: seq<Insert>, r: nat, c: nat): (v: Option<int>)
    ensures v.Some? ==> v.value != 0
  {
    if ops == [] then None
    else
      var op := ops[|ops| - 1];
      if op.val != 0 && op.row == r && op.col == c then Some(op.val)
      else LastWrite(ops[..|ops| - 1], r, c)
  }

  /** Last write wins: after any sequence of inserts the builder holds the last
      non-zero value written to each cell, and the value before the inserts at
      every cell none of them wrote, however many migrations fired. */
  lemma {:induction false} RunValue(b: Builder, ops: seq<Insert>, r: nat, c: nat)
    requires Inv(b)
    ensures Value(Run(b, ops), r, c) == LastWrite(ops, r, c).GetOr(Value(b, r, c))
    decreases |ops|
  {
    if ops != [] {
      var op := ops[|ops| - 1];
      RunValue(b, ops[..|ops| - 1], r, c);
      PutValue(Run(b, ops[..|ops| - 1]), op.row, op.col, op.val, r, c);
    }
  }

  /** `finish()`: with a dense block, a final migration and the dense block;
      without one, the dense block after a migration exactly when the fill
      rate of the whole sparse extent exceeds the threshold, and otherwise
      the sparse block as it is. */
  function Finish(b: Builder): (m: Contract.Matrix)
    requires Inv(b)
    ensures Contract.Valid(m)
    ensures m.SparseBacked? <==>
              b.dense.None? && !Exceeds(b.sparseEntries, b.sparse.rows * b.sparse.cols, b.cfg)
    ensures m.SparseBacked? ==> m.sparse == b.sparse
    ensures Contract.Rows(m) >= b.denseRows && Contract.Columns(m) >= b.denseCols
  {
    if b.dense.Some? || Exceeds(b.sparseEntries, b.sparse.rows * b.sparse.cols, b.cfg) then
      Contract.DenseBacked(MapDense(b).dense.value)
    else
      Contract.SparseBacked(b.sparse)
  }

  /** The matrix `finish` returns holds exactly the builder's values: every
      non-zero cell is in range, and every cell the contract can read reads
      the builder's value. */
  lemma FinishValue(b: Builder, r: nat, c: nat)
    requires Inv(b)
    ensures Value(b, r, c) != 0 ==> Contract.InRange(Finish(b), r, c)
    ensures Contract.Accessible(Finish(b), r, c) ==> Contract.Get(Finish(b), r, c) == Value(b, r, c)
  {
    var m := Finish(b);
    if m.DenseBacked? {
      MapDensePreservesValues(b, r, c);
    } else if Value(b, r, c) != 0 {
      assert Sparse.Stored(b.sparse, r, c);
    }
  }

  /** Value fidelity: whatever the configuration, the size floor and the
      points at which migrations fire, the matrix `finish` returns after a
      sequence of inserts reads, at every cell it can address, the last
      non-zero value inserted there or 0, and every cell that received a
      non-zero value is in its range. */
  lemma Fidelity(cfg: Config, minRows: int, minCols: int, ops: seq<Insert>, r: nat, c: nat)
    requires ValidConfig(cfg)
    ensures var m := Finish(Run(MinSize(New(cfg), minRows, minCols), ops));
            && (LastWrite(ops, r, c).Some? ==> Contract.InRange(m, r, c))
            && (Contract.Accessible(m, r, c) ==> Contract.Get(m, r, c) == LastWrite(ops, r, c).GetOr(0))
  {
    var b0 := MinSize(New(cfg), minRows, minCols);
    RunValue(b0, ops, r, c);
    FinishValue(Run(b0, ops), r, c);
  }
}
