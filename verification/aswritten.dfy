/** The builder with the source's own sizing of a reallocated dense block:
    the new block takes the sparse extent alone (MatrixBuilder.java:75-76),
    not the larger of the dense and sparse extents. When the sparse extent
    is the larger in one dimension but the smaller in the other, the new block
    shrinks in the other dimension and the column copy either runs past its
    end (an exception, modelled as None) or overlaps columns and loses the
    dense cells beyond the new extent. Whenever every reallocation sees a
    sparse extent at least the dense extent in both dimensions, this builder
    is the one of module MatrixBuilder, and so keeps its value fidelity. */
module AsWritten {
  import opened Wrappers
  import Sparse
  import Dense
  import Contract
  import opened MatrixBuilder

  /** The reallocation, when `mapDense` takes it, sees a sparse extent at
      least the dense extent in both dimensions. */
  predicate NoShrink(b: Builder)
    requires Inv(b)
  {
    b.dense.Some? && (b.denseRows < b.sparse.rows || b.denseCols < b.sparse.cols) ==>
      b.denseRows <= b.sparse.rows && b.denseCols <= b.sparse.cols
  }

  /** `mapDense` as written: a missing block is allocated at the sparse
      extent, a smaller block is reallocated at the sparse extent and copied
      column by column, then the sparse entries are migrated. */
  function MapDenseAsWritten(b: Builder): (r: Option<Builder>)
    requires Inv(b)
    ensures r.Some? ==> Inv(r.value) && r.value.cfg == b.cfg
    ensures r.Some? ==> r.value.sparseEntries == 0 && Sparse.IsEmpty(r.value.sparse)
  {
    var s := b.sparse;
    match b.dense
    case None => Some(Migrate(b, Dense.New(s.rows, s.cols)))
    case Some(d) =>
      if d.rows < s.rows || d.cols < s.cols then
        match Dense.Realloc(d, s.rows, s.cols)
        case None => None
        case Some(next) => Some(Migrate(b, next))
      else
        Some(Migrate(b, d))
  }

  /** Under NoShrink the source's `mapDense` is the corrected one. */
  lemma MapDenseAgrees(b: Builder)
    requires Inv(b) && NoShrink(b)
    ensures MapDenseAsWritten(b) == Some(MapDense(b))
  {
    var s := b.sparse;
    if b.dense.Some? {
      var d := b.dense.value;
      if d.rows < s.rows || d.cols < s.cols {
        assert Max(d.rows, s.rows) == s.rows && Max(d.cols, s.cols) == s.cols;
        Dense.ReallocPreserves(d, s.rows, s.cols);
        assert Dense.Grow(d, s.rows, s.cols) == Dense.Realloc(d, s.rows, s.cols).value;
      }
    }
  }

  /** The defect: when the realloc branch is taken while the sparse extent is
      smaller than the dense extent in one dimension, the source's `mapDense`
      either throws or leaves a dense region smaller in that dimension, so the
      region covered by the dense block shrinks. */
  lemma MapDenseAsWrittenShrinks(b: Builder)
    requires Inv(b) && !NoShrink(b)
    ensures MapDenseAsWritten(b).None? ||
            MapDenseAsWritten(b).value.denseRows < b.denseRows ||
            MapDenseAsWritten(b).value.denseCols < b.denseCols
  {
  }

  /** `put` with the source's `mapDense`; None is an exception. */
  function PutAsWritten(b: Builder, row: int, col: int, val: int): (r: Option<Builder>)
    requires Inv(b)
    ensures r.Some? ==> Inv(r.value) && r.value.cfg == b.cfg
  {
    var b1 := Route(b, row, col, val);
    if Migrates(b, row, col, val) then MapDenseAsWritten(b1) else Some(b1)
  }

  /** The inserts in order with the source's `mapDense`, stopping at the first
      exception. */
  function RunAsWritten(b: Builder, ops: seq<Insert>): (r: Option<Builder>)
    requires Inv(b)
    ensures r.Some? ==> Inv(r.value) && r.value.cfg == b.cfg
    decreases |ops|
  {
    if ops == [] then Some(b)
    else
      var op := ops[|ops| - 1];
      match RunAsWritten(b, ops[..|ops| - 1])
      case None => None
      case Some(b1) => PutAsWritten(b1, op.row, op.col, op.val)
  }

  /** `finish` with the source's `mapDense`. */
  function FinishAsWritten(b: Builder): (r: Option<Contract.Matrix>)
    requires Inv(b)
    ensures r.Some? ==> Contract.Valid(r.value)
  {
    if b.dense.Some? || Exceeds(b.sparseEntries, b.sparse.rows * b.sparse.cols, b.cfg) then
      match MapDenseAsWritten(b)
      case None => None
      case Some(b') => Some(Contract.DenseBacked(b'.dense.value))
    else
      Some(Contract.SparseBacked(b.sparse))
  }

  /** The inserts and the final `finish`, as written. */
  function BuildAsWritten(b: Builder, ops: seq<Insert>): Option<Contract.Matrix>
    requires Inv(b)
  {
    match RunAsWritten(b, ops)
    case None => None
    case Some(b') => FinishAsWritten(b')
  }

  /** Every migration that the inserts trigger, and the one `finish` forces,
      sees a sparse extent at least the dense extent in both dimensions
      whenever it reallocates. */
  ghost predicate SafeTrace(b: Builder, ops: seq<Insert>)
    requires Inv(b)
    decreases |ops|
  {
    if ops == [] then true
    else
      var op := ops[|ops| - 1];
      var b1 := Run(b, ops[..|ops| - 1]);
      && SafeTrace(b, ops[..|ops| - 1])
      && (Migrates(b1, op.row, op.col, op.val) ==> NoShrink(Route(b1, op.row, op.col, op.val)))
  }

  /** On a safe trace the source's builder goes through the same states as
      the corrected one. */
  lemma {:induction false} RunAgrees(b: Builder, ops: seq<Insert>)
    requires Inv(b) && SafeTrace(b, ops)
    ensures RunAsWritten(b, ops) == Some(Run(b, ops))
    decreases |ops|
  {
    if ops != [] {
      var op := ops[|ops| - 1];
      var prefix := ops[..|ops| - 1];
      RunAgrees(b, prefix);
      var b1 := Run(b, prefix);
      if Migrates(b1, op.row, op.col, op.val) {
        MapDenseAgrees(Route(b1, op.row, op.col, op.val));
      }
    }
  }

  /** Value fidelity of the source's builder, under the condition that every
      reallocation sees a sparse extent at least the dense extent in both
      dimensions: no exception, and the matrix `finish` returns reads the last
      non-zero value inserted at every cell it can address, with every
      written cell in range. */
  lemma FidelityUnderNoShrink(cfg: Config, minRows: int, minCols: int, ops: seq<Insert>, r: nat, c: nat)
    requires ValidConfig(cfg)
    requires SafeTrace(MinSize(New(cfg), minRows, minCols), ops)
    requires NoShrink(Run(MinSize(New(cfg), minRows, minCols), ops))
    ensures var m := BuildAsWritten(MinSize(New(cfg), minRows, minCols), ops);
            && m.Some?
            && (LastWrite(ops, r, c).Some? ==> Contract.InRange(m.value, r, c))
            && (Contract.Accessible(m.value, r, c) ==> Contract.Get(m.value, r, c) == LastWrite(ops, r, c).GetOr(0))
  {
    var b0 := MinSize(New(cfg), minRows, minCols);
    RunAgrees(b0, ops);
    MapDenseAgrees(Run(b0, ops));
    Fidelity(cfg, minRows, minCols, ops, r, c);
  }

  /** The witness configuration: threshold 0.2 and a checkpoint at every
      sparse insert. */
  const WitnessConfig := Config(1, 5, 1)

  /** After the witness's first k inserts, the source's builder has an empty
      sparse block, no pending entries and a dense block rows x cols. */
  ghost predicate MigratedTo(ops: seq<Insert>, rows: nat, cols: nat) {
    var r := RunAsWritten(New(WitnessConfig), ops);
    && r.Some? && r.value.dense.Some?
    && r.value.denseRows == rows && r.value.denseCols == cols
    && r.value.sparseEntries == 0 && Sparse.IsEmpty(r.value.sparse)
  }

  /** put(0, 0, 1): a 1 x 1 sparse extent at fill rate 1 allocates a 1 x 1
      block. */
  lemma WitnessStep1()
    ensures MigratedTo([Insert(0, 0, 1)], 1, 1)
  {
    var b0 := New(WitnessConfig);
    assert [Insert(0, 0, 1)][..0] == [];
    var s1 := Route(b0, 0, 0, 1);
    assert s1.sparse.rows == 1 && s1.sparse.cols == 1 && s1.sparseEntries == 1;
    assert Migrates(b0, 0, 0, 1);
  }

  /** put(1, 0, 2): a 2 x 1 sparse extent at fill rate 1 / (2 - 1) grows the
      block to 2 x 1. */
  lemma WitnessStep2()
    ensures MigratedTo([Insert(0, 0, 1), Insert(1, 0, 2)], 2, 1)
  {
    WitnessStep1();
    var ops := [Insert(0, 0, 1), Insert(1, 0, 2)];
    assert ops[..1] == [Insert(0, 0, 1)];
    var b1 := RunAsWritten(New(WitnessConfig), ops[..1]).value;
    var s2 := Route(b1, 1, 0, 2);
    assert s2.sparse.rows == 2 && s2.sparse.cols == 1 && s2.sparseEntries == 1;
    assert s2.denseRows == 1 && s2.denseCols == 1;
    assert s2.sparse.rows * s2.sparse.cols - s2.denseRows * s2.denseCols == 1;
    assert MigrationDue(s2);
    assert Migrates(b1, 1, 0, 2);
    var d1 := b1.dense.value;
    assert Dense.CopyColumns(d1, Dense.New(2, 1).data, 2, 1).Some?;
    assert Dense.Realloc(d1, 2, 1).Some?;
  }

  /** put(0, 1, 3): a 1 x 2 sparse extent at fill rate 1 / (2 - 2) =
      +Infinity triggers a migration of the 2 x 1 block. */
  lemma WitnessStep3Due()
    ensures var b2 := RunAsWritten(New(WitnessConfig), [Insert(0, 0, 1), Insert(1, 0, 2)]);
            && b2.Some? && b2.value.dense.Some?
            && b2.value.dense.value.rows == 2 && b2.value.dense.value.cols == 1
            && Migrates(b2.value, 0, 1, 3)
  {
    WitnessStep2();
    var b2 := RunAsWritten(New(WitnessConfig), [Insert(0, 0, 1), Insert(1, 0, 2)]).value;
    var s3 := Route(b2, 0, 1, 3);
    assert s3.sparse.rows == 1 && s3.sparse.cols == 2 && s3.sparseEntries == 1;
    assert s3.denseRows == 2 && s3.denseCols == 1;
    assert s3.sparse.rows * s3.sparse.cols - s3.denseRows * s3.denseCols == 0;
    assert MigrationDue(s3);
  }

  /** Any 2 x 1 block reallocates at 1 x 2 without an exception: the single
      copied column fits. */
  lemma ReallocTallToWide(d: Dense.DenseMatrix)
    requires Dense.Valid(d) && d.rows == 2 && d.cols == 1
    ensures Dense.Realloc(d, 1, 2).Some?
  {
    var copied := Dense.CopyColumn(d, Dense.New(1, 2).data, 1, 0);
    assert Dense.CopyColumns(d, copied, 1, 1).Some?;
  }

  /** The migration reallocates the 2 x 1 block at 1 x 2, without row 1. */
  lemma WitnessStep3()
    ensures MigratedTo([Insert(0, 0, 1), Insert(1, 0, 2), Insert(0, 1, 3)], 1, 2)
  {
    WitnessStep3Due();
    var ops := [Insert(0, 0, 1), Insert(1, 0, 2), Insert(0, 1, 3)];
    assert ops[..2] == [Insert(0, 0, 1), Insert(1, 0, 2)];
    var b2 := RunAsWritten(New(WitnessConfig), ops[..2]).value;
    var s3 := Route(b2, 0, 1, 3);
    assert s3.sparse.rows == 1 && s3.sparse.cols == 2;
    ReallocTallToWide(b2.dense.value);
    assert MapDenseAsWritten(s3).Some?;
  }

  /** The witness trace for the defect: put(0, 0, 1), put(1, 0, 2),
      put(0, 1, 3) with a checkpoint at every insert. The source's `finish`
      returns a matrix with one row, so cell (1, 0), last set to 2, is lost;
      the corrected builder reads 2 there. */
  lemma ShrinkLosesCell()
    ensures var ops := [Insert(0, 0, 1), Insert(1, 0, 2), Insert(0, 1, 3)];
            var b0 := New(WitnessConfig);
            && LastWrite(ops, 1, 0) == Some(2)
            && BuildAsWritten(b0, ops).Some?
            && !Contract.InRange(BuildAsWritten(b0, ops).value, 1, 0)
            && Contract.InRange(Finish(Run(b0, ops)), 1, 0)
            && Contract.Get(Finish(Run(b0, ops)), 1, 0) == 2
  {
    var ops := [Insert(0, 0, 1), Insert(1, 0, 2), Insert(0, 1, 3)];
    var b0 := New(WitnessConfig);
    WitnessStep3();
    assert ops[..2] == [Insert(0, 0, 1), Insert(1, 0, 2)] && ops[..2][..1] == [Insert(0, 0, 1)];
    assert LastWrite(ops, 1, 0) == Some(2);
    var b3 := RunAsWritten(b0, ops).value;
    assert FinishAsWritten(b3).Some?;
    assert Contract.Rows(FinishAsWritten(b3).value) == 1;
    RunValue(b0, ops, 1, 0);
    FinishValue(Run(b0, ops), 1, 0);
  }
  /** put(0, 1, 2) after put(0, 0, 1): a 1 x 2 sparse extent at fill rate
      1 / (2 - 1) grows the 1 x 1 block to 1 x 2. */
  lemma WitnessWideStep()
    ensures MigratedTo([Insert(0, 0, 1), Insert(0, 1, 2)], 1, 2)
  {
    WitnessStep1();
    var ops := [Insert(0, 0, 1), Insert(0, 1, 2)];
    assert ops[..1] == [Insert(0, 0, 1)];
    var b1 := RunAsWritten(New(WitnessConfig), ops[..1]).value;
    var s2 := Route(b1, 0, 1, 2);
    assert s2.sparse.rows == 1 && s2.sparse.cols == 2 && s2.sparseEntries == 1;
    assert s2.denseRows == 1 && s2.denseCols == 1;
    assert s2.sparse.rows * s2.sparse.cols - s2.denseRows * s2.denseCols == 1;
    assert MigrationDue(s2);
    assert Migrates(b1, 0, 1, 2);
    var d1 := b1.dense.value;
    assert Dense.CopyColumns(d1, Dense.New(1, 2).data, 1, 1).Some?;
    assert Dense.Realloc(d1, 1, 2).Some?;
  }

  /** put(1, 0, 3) after put(0, 0, 1), put(0, 1, 2): a 2 x 1 sparse extent at
      fill rate 1 / (2 - 2) = +Infinity triggers a migration of the 1 x 2
      block. */
  lemma CopyRunsPastEndDue()
    ensures var b2 := RunAsWritten(New(WitnessConfig), [Insert(0, 0, 1), Insert(0, 1, 2)]);
            && b2.Some? && b2.value.dense.Some?
            && b2.value.dense.value.rows == 1 && b2.value.dense.value.cols == 2
            && Migrates(b2.value, 1, 0, 3)
  {
    WitnessWideStep();
    var b2 := RunAsWritten(New(WitnessConfig), [Insert(0, 0, 1), Insert(0, 1, 2)]).value;
    var s3 := Route(b2, 1, 0, 3);
    assert s3.sparse.rows == 2 && s3.sparse.cols == 1 && s3.sparseEntries == 1;
    assert s3.denseRows == 1 && s3.denseCols == 2;
    assert s3.sparse.rows * s3.sparse.cols - s3.denseRows * s3.denseCols == 0;
    assert MigrationDue(s3);
  }

  /** Any 1 x 2 block reallocated at 2 x 1 throws: its second column would
      start at index 2 of a 2-element array. */
  lemma ReallocWideToTall(d: Dense.DenseMatrix)
    requires Dense.Valid(d) && d.rows == 1 && d.cols == 2
    ensures Dense.Realloc(d, 2, 1).None?
  {
    var copied := Dense.CopyColumn(d, Dense.New(2, 1).data, 2, 0);
    assert Dense.CopyColumns(d, copied, 2, 1).None?;
  }

  /** The migration reallocates the 1 x 2 block at 2 x 1, and the copy of its
      second column runs past the end of the new array. */
  lemma CopyRunsPastEndThrows()
    ensures RunAsWritten(New(WitnessConfig), [Insert(0, 0, 1), Insert(0, 1, 2), Insert(1, 0, 3)]).None?
  {
    CopyRunsPastEndDue();
    var ops := [Insert(0, 0, 1), Insert(0, 1, 2), Insert(1, 0, 3)];
    assert ops[..2] == [Insert(0, 0, 1), Insert(0, 1, 2)];
    var b2 := RunAsWritten(New(WitnessConfig), ops[..2]).value;
    var s3 := Route(b2, 1, 0, 3);
    assert s3.sparse.rows == 2 && s3.sparse.cols == 1;
    ReallocWideToTall(b2.dense.value);
    assert MapDenseAsWritten(s3).None?;
  }

  /** The second witness: put(0, 0, 1), put(0, 1, 2), put(1, 0, 3) with a
      checkpoint at every insert. The third insert gives a 2 x 1 sparse extent
      at fill rate 1 / (2 - 2) = +Infinity, so the 1 x 2 block is reallocated
      at 2 x 1, and the copy of its second column starts at index 2 of a
      2-element array: the source's builder throws. The corrected builder
      holds every insert. */
  lemma CopyRunsPastEnd()
    ensures var ops := [Insert(0, 0, 1), Insert(0, 1, 2), Insert(1, 0, 3)];
            var b0 := New(WitnessConfig);
            && RunAsWritten(b0, ops).None?
            && Value(Run(b0, ops), 0, 0) == 1
            && Value(Run(b0, ops), 0, 1) == 2
            && Value(Run(b0, ops), 1, 0) == 3
  {
    CopyRunsPastEndThrows();
    var ops := [Insert(0, 0, 1), Insert(0, 1, 2), Insert(1, 0, 3)];
    var b0 := New(WitnessConfig);
    assert ops[..2] == [Insert(0, 0, 1), Insert(0, 1, 2)] && ops[..2][..1] == [Insert(0, 0, 1)];
    RunValue(b0, ops, 0, 0);
    RunValue(b0, ops, 0, 1);
    RunValue(b0, ops, 1, 0);
  }


}
