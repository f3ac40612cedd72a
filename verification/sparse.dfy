/** The sparse backend: a two-level map row -> (column -> value) together with
    high-water-mark extents `rows` and `cols` (SparseMatrix.java). The Trove
    hash maps become mathematical maps; a missing row map or a missing column
    entry both read as the no-entry value 0. */
module Sparse {

  datatype SparseMatrix = SparseMatrix(rows: nat, cols: nat, data: map<nat, map<nat, int>>)

  /** The cell (r, c) holds a stored value (possibly an explicit 0). */
  predicate Stored(m: SparseMatrix, r: nat, c: nat) {
    r in m.data && c in m.data[r]
  }

  /** Every stored cell lies inside the extent. `set` raises the extent before
      storing, `clear` drops both together, and `minSize` only raises it. */
  ghost predicate Valid(m: SparseMatrix) {
    forall r: nat, c: nat :: Stored(m, r, c) ==> r < m.rows && c < m.cols
  }

  /** The matrix holds nothing and reports a 0 x 0 extent. */
  ghost predicate IsEmpty(m: SparseMatrix) {
    && m.rows == 0 && m.cols == 0
    && forall r: nat, c: nat :: !Stored(m, r, c)
  }

  /** A fresh matrix (the constructor). */
  function Empty(): (m: SparseMatrix)
    ensures Valid(m) && IsEmpty(m)
  {
    SparseMatrix(0, 0, map[])
  }

  /** `get`: a stored value, or 0 for any cell the maps do not hold. */
  function Get(m: SparseMatrix, r: nat, c: nat): (v: int)
    ensures !Stored(m, r, c) ==> v == 0
  {
    if r in m.data && c in m.data[r] then m.data[r][c] else 0
  }

  /** `hasEntry`: the cell reads as non-zero, so an explicitly stored 0 counts
      as no entry. */
  function HasEntry(m: SparseMatrix, r: nat, c: nat): (b: bool)
    ensures b <==> Get(m, r, c) != 0
  {
    r in m.data && c in m.data[r] && m.data[r][c] != 0
  }

  /** `set`: a write of 0 to a cell without an entry is skipped; any other write
      raises the extent to cover the cell, creates the row map when missing and
      stores the value, an explicit 0 included. */
  function Set(m: SparseMatrix, r: nat, c: nat, v: int): (m': SparseMatrix)
    ensures v == 0 && !HasEntry(m, r, c) ==> m' == m
    ensures v != 0 || HasEntry(m, r, c) ==>
              && m'.rows == (if m.rows <= r then r + 1 else m.rows)
              && m'.cols == (if m.cols <= c then c + 1 else m.cols)
              && Stored(m', r, c)
    ensures m'.rows >= m.rows && m'.cols >= m.cols
    ensures Get(m', r, c) == v
    ensures forall x: nat, y: nat :: (x != r || y != c) ==>
              Get(m', x, y) == Get(m, x, y) && (Stored(m', x, y) <==> Stored(m, x, y))
    ensures Valid(m) ==> Valid(m')
  {
    if v == 0 && !HasEntry(m, r, c) then m
    else
      var rowMap := if r in m.data then m.data[r] else map[];
      SparseMatrix(if m.rows <= r then r + 1 else m.rows,
                   if m.cols <= c then c + 1 else m.cols,
                   m.data[r := rowMap[c := v]])
  }

  /** `clear`: drops every stored row and resets the extent to 0 x 0, so every
      cell reads 0 afterwards. */
  function Clear(m: SparseMatrix): (m': SparseMatrix)
    ensures Valid(m') && IsEmpty(m')
    ensures forall r: nat, c: nat :: Get(m', r, c) == 0
  {
    SparseMatrix(0, 0, map[])
  }

  /** `getColumn(i)`: a snapshot of length `rows` whose k-th element is the
      value at (k, i). */
  method GetColumn(m: SparseMatrix, i: nat) returns (column: seq<int>)
    ensures |column| == m.rows
    ensures forall k :: 0 <= k < |column| ==> column[k] == Get(m, k, i)
  {
    column := [];
    var row := 0;
    while row < m.rows
      invariant row <= m.rows
      invariant |column| == row
      invariant forall k :: 0 <= k < row ==> column[k] == Get(m, k, i)
    {
      column := column + [Get(m, row, i)];
      row := row + 1;
    }
  }

  /** `getRow(i)`: a snapshot of length `cols` whose k-th element is the value
      at (i, k). */
  method GetRow(m: SparseMatrix, i: nat) returns (row: seq<int>)
    ensures |row| == m.cols
    ensures forall k :: 0 <= k < |row| ==> row[k] == Get(m, i, k)
  {
    row := [];
    var col := 0;
    while col < m.cols
      invariant col <= m.cols
      invariant |row| == col
      invariant forall k :: 0 <= k < col ==> row[k] == Get(m, i, k)
    {
      row := row + [Get(m, i, col)];
      col := col + 1;
    }
  }

  /** Some cell of row x reads non-zero. */
  ghost predicate RowOccupied(m: SparseMatrix, x: nat) {
    exists y: nat :: Get(m, x, y) != 0
  }

  /** Some cell of column y reads non-zero. */
  ghost predicate ColumnOccupied(m: SparseMatrix, y: nat) {
    exists x: nat :: Get(m, x, y) != 0
  }

  /** The extent is no larger than the non-zero cells need: its last row and
      its last column each hold a non-zero value. */
  ghost predicate Tight(m: SparseMatrix) {
    && (m.rows > 0 ==> RowOccupied(m, m.rows - 1))
    && (m.cols > 0 ==> ColumnOccupied(m, m.cols - 1))
  }

  /** Writing a cell that reads 0 keeps the extent tight: a 0 write is
      skipped, and a non-zero one either leaves the extent alone or ends it at
      the written cell. */
  lemma SetKeepsTight(m: SparseMatrix, r: nat, c: nat, v: int)
    requires Tight(m) && Get(m, r, c) == 0
    ensures Tight(Set(m, r, c, v))
  {
    var m' := Set(m, r, c, v);
    if v != 0 {
      if m.rows <= r {
        assert Get(m', m'.rows - 1, c) != 0;
      } else if m.rows > 0 {
        var y0: nat :| Get(m, m.rows - 1, y0) != 0;
        assert Get(m', m'.rows - 1, y0) != 0;
      }
      if m.cols <= c {
        assert Get(m', r, m'.cols - 1) != 0;
      } else if m.cols > 0 {
        var x0: nat :| Get(m, x0, m.cols - 1) != 0;
        assert Get(m', x0, m'.cols - 1) != 0;
      }
    }
  }

  /** `copy`: replays every stored (row, column, value) triple, in whatever
      order the maps yield them, into a fresh matrix through `Set`. The copy
      reads the same at every cell. `Set` skips the stored zeros, so the
      copy's extent is exactly one past the last row and the last column
      holding a non-zero value, which is at most the original's. */
  method Copy(m: SparseMatrix) returns (copy: SparseMatrix)
    requires Valid(m)
    ensures Valid(copy)
    ensures copy.rows <= m.rows && copy.cols <= m.cols
    ensures forall x: nat, y: nat :: Get(copy, x, y) == Get(m, x, y)
    ensures forall x: nat, y: nat :: Get(m, x, y) != 0 ==> x < copy.rows && y < copy.cols
    ensures copy.rows > 0 ==> RowOccupied(m, copy.rows - 1)
    ensures copy.cols > 0 ==> ColumnOccupied(m, copy.cols - 1)
  {
    copy := Empty();
    var rowsLeft := m.data.Keys;
    while rowsLeft != {}
      invariant rowsLeft <= m.data.Keys
      invariant Valid(copy) && copy.rows <= m.rows && copy.cols <= m.cols
      invariant forall x: nat, y: nat ::
                  Get(copy, x, y) == if x in rowsLeft then 0 else Get(m, x, y)
      invariant Tight(copy)
      decreases rowsLeft
    {
      var r :| r in rowsLeft;
      var rowMap := m.data[r];
      var colsLeft := rowMap.Keys;
      while colsLeft != {}
        invariant colsLeft <= rowMap.Keys
        invariant Valid(copy) && copy.rows <= m.rows && copy.cols <= m.cols
        invariant forall x: nat, y: nat ::
                    Get(copy, x, y) ==
                      if x in rowsLeft && (x != r || y in colsLeft || y !in rowMap) then 0
                      else Get(m, x, y)
        invariant Tight(copy)
        decreases colsLeft
      {
        var c :| c in colsLeft;
        assert Stored(m, r, c);
        SetKeepsTight(copy, r, c, rowMap[c]);
        copy := Set(copy, r, c, rowMap[c]);
        colsLeft := colsLeft - {c};
      }
      rowsLeft := rowsLeft - {r};
    }
    if copy.rows > 0 {
      var y: nat :| Get(copy, copy.rows - 1, y) != 0;
      assert Get(m, copy.rows - 1, y) != 0;
    }
    if copy.cols > 0 {
      var x: nat :| Get(copy, x, copy.cols - 1) != 0;
      assert Get(m, x, copy.cols - 1) != 0;
    }
  }
}
