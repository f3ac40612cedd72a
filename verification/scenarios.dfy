/** The builder's test scenarios, stated for every size rather than for the
    sizes the tests pick. */
module Scenarios {
  import opened Wrappers
  import Sparse
  import Contract
  import Dense
  import opened MatrixBuilder

  /** put(i, i, i) for i = 0 .. n - 1; the first is ignored because its value
      is 0. */
  function Diagonal(n: nat): (ops: seq<Insert>)
    ensures |ops| == n && forall i :: 0 <= i < n ==> ops[i] == Insert(i, i, i)
  {
    seq(n, i => Insert(i, i, i))
  }

  /** The last write to (i, j) along the diagonal. */
  lemma {:induction false} DiagonalLastWrite(n: nat, i: nat, j: nat)
    ensures LastWrite(Diagonal(n), i, j) == if i == j && 0 < i < n then Some(i) else None
  {
    if n > 0 {
      assert Diagonal(n)[..n - 1] == Diagonal(n - 1);
      DiagonalLastWrite(n - 1, i, j);
    }
  }

  /** With the default threshold 0.2 and checkpoint 5000, the diagonal never
      migrates: at each checkpoint the sparse block holds k - 1 entries in a
      k x k extent with k > 5000. */
  lemma {:induction false} DiagonalRun(n: nat)
    ensures var b := Run(New(Defaults), Diagonal(n));
            && b.dense.None?
            && b.sparseEntries == (if n == 0 then 0 else n - 1)
            && b.sparse.rows == (if n < 2 then 0 else n)
            && b.sparse.cols == (if n < 2 then 0 else n)
  {
    if n > 0 {
      var k := n - 1;
      assert Diagonal(n)[..k] == Diagonal(k);
      DiagonalRun(k);
      var b := Run(New(Defaults), Diagonal(k));
      if k > 0 {
        var b1 := Route(b, k, k, k);
        assert b1.sparseEntries == k && b1.sparse.rows == n && b1.sparse.cols == n;
        if k % 5000 == 0 {
          Dense.MulLe(5, n, n);
          assert k * 5 <= 1 * (n * n);
        }
        assert !Migrates(b, k, k, k);
      }
    }
  }

  /** n - 1 entries in an n x n extent stay at or below the default rate 0.2
      once n >= 4. */
  lemma DiagonalBelowRate(n: nat)
    requires n >= 4
    ensures !Exceeds(n - 1, n * n, Defaults)
  {
    Dense.MulLe(4, n, n);
  }

  /** The builder holds i at (i, i) and 0 elsewhere after the diagonal. */
  lemma DiagonalValue(n: nat, i: nat, j: nat)
    ensures Value(Run(New(Defaults), Diagonal(n)), i, j) == if i == j && i < n then i else 0
  {
    RunValue(New(Defaults), Diagonal(n), i, j);
    DiagonalLastWrite(n, i, j);
  }

  /** One cell of the diagonal's final matrix. */
  lemma DiagonalCell(n: nat, i: nat, j: nat)
    ensures var m := Finish(Run(New(Defaults), Diagonal(n)));
            Contract.Accessible(m, i, j) ==> Contract.Get(m, i, j) == if i == j && i < n then i else 0
  {
    DiagonalValue(n, i, j);
    FinishValue(Run(New(Defaults), Diagonal(n)), i, j);
  }

  /** The sparse-diagonal test for any size n >= 4 (the test takes n = 10^6):
      `finish` returns the sparse block with n rows and n columns, reading i
      at (i, i) and 0 off the diagonal. */
  lemma DiagonalStaysSparse(n: nat)
    requires n >= 4
    ensures var m := Finish(Run(New(Defaults), Diagonal(n)));
            && m.SparseBacked?
            && Contract.Rows(m) == n && Contract.Columns(m) == n
            && (forall i: nat :: i < n ==> Contract.Get(m, i, i) == i)
            && (forall i: nat, j: nat :: i < n && j < n && i != j ==> Contract.Get(m, i, j) == 0)
  {
    DiagonalRun(n);
    DiagonalBelowRate(n);
    var m := Finish(Run(New(Defaults), Diagonal(n)));
    forall i: nat, j: nat | i < n && j < n
      ensures Contract.Get(m, i, j) == if i == j then i else 0
    {
      DiagonalCell(n, i, j);
    }
  }
}
