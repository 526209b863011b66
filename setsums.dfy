/**
 * Sums of diagonal entries over finite sets of indices, and their reindexing through a table
 * J whose entry J[m][s] is the index reached from row m and column s.  When the table is one
 * to one, summing the diagonal over all its entries row by row and cell by cell is summing it
 * over the set of its entries.  ptrace's trace argument uses the table of joined indices.
 */
module SetSums {
  import opened Matrices

  /** Some element of a non-empty set. */
  ghost function Pick(xs: set<nat>): (x: nat)
    requires xs != {}
    ensures x in xs
  {
    var x :| x in xs; x
  }

  /** The diagonal entry i of A (0 outside A). */
  function DiagAt(A: Matrix, i: nat): int
  {
    if i < |A| && i < |A[i]| then A[i][i] else 0
  }

  /** The sum of the diagonal entries of A at the finite set of indices xs. */
  ghost function SetSum(xs: set<nat>, A: Matrix): int
    decreases |xs|
  {
    if xs == {} then 0 else var x := Pick(xs); DiagAt(A, x) + SetSum(xs - {x}, A)
  }

  /** A set sum may take out any element first. */
  lemma {:induction false} SetSumRemove(xs: set<nat>, A: Matrix, y: nat)
    requires y in xs
    ensures SetSum(xs, A) == DiagAt(A, y) + SetSum(xs - {y}, A)
    decreases |xs|
  {
    var x := Pick(xs);
    if x != y {
      SetSumRemove(xs - {x}, A, y);
      SetSumRemove(xs - {y}, A, x);
      assert xs - {x} - {y} == xs - {y} - {x};
    }
  }

  /** The indices 0..n-1. */
  ghost function Indices(n: nat): (r: set<nat>)
    ensures forall i: nat :: i in r <==> i < n
  {
    if n == 0 then {} else Indices(n - 1) + {n - 1}
  }

  /** The first n diagonal entries of A summed in order are their sum as a set. */
  lemma {:induction false} DiagSumIsSetSum(A: Matrix, n: nat)
    requires IsSquare(A, |A|) && n <= |A|
    ensures DiagSum(A, n) == SetSum(Indices(n), A)
  {
    if n > 0 {
      DiagSumIsSetSum(A, n - 1);
      SetSumRemove(Indices(n), A, n - 1);
      assert Indices(n) - {n - 1} == Indices(n - 1);
    }
  }

  type Table = seq<seq<nat>>

  /** No index appears twice in the table. */
  ghost predicate OneToOne(J: Table)
  {
    forall m, s, m', s' ::
      0 <= m < |J| && 0 <= s < |J[m]| && 0 <= m' < |J| && 0 <= s' < |J[m']| && J[m][s] == J[m'][s']
      ==> m == m' && s == s'
  }

  /** Every index of the table is below n. */
  ghost predicate EntriesBelow(J: Table, n: nat)
  {
    forall m, s :: 0 <= m < |J| && 0 <= s < |J[m]| ==> J[m][s] < n
  }

  /** The entries of row m before column s. */
  ghost function Cells(J: Table, m: nat, s: nat): set<nat>
    requires m < |J| && s <= |J[m]|
  {
    if s == 0 then {} else Cells(J, m, s - 1) + {J[m][s - 1]}
  }

  /** The entries of the rows before m. */
  ghost function Rows(J: Table, m: nat): set<nat>
    requires m <= |J|
  {
    if m == 0 then {} else Rows(J, m - 1) + Cells(J, m - 1, |J[m - 1]|)
  }

  /** The diagonal entries at the entries of row m before column s, summed in order. */
  ghost function CellDiag(A: Matrix, J: Table, m: nat, s: nat): int
    requires m < |J| && s <= |J[m]|
  {
    if s == 0 then 0 else CellDiag(A, J, m, s - 1) + DiagAt(A, J[m][s - 1])
  }

  /** The diagonal entries at the entries of the rows before m, summed row by row. */
  ghost function RowDiag(A: Matrix, J: Table, m: nat): int
    requires m <= |J|
  {
    if m == 0 then 0 else RowDiag(A, J, m - 1) + CellDiag(A, J, m - 1, |J[m - 1]|)
  }

  /** In a one-to-one table, an entry outside row m before s is not among those cells. */
  lemma {:induction false} NotInCells(J: Table, m: nat, s: nat, m': nat, s': nat)
    requires OneToOne(J) && m < |J| && s <= |J[m]| && m' < |J| && s' < |J[m']|
    requires m' != m || s' >= s
    ensures J[m'][s'] !in Cells(J, m, s)
  {
    if s > 0 {
      NotInCells(J, m, s - 1, m', s');
    }
  }

  /** In a one-to-one table, an entry of row m or later is not among the rows before m. */
  lemma {:induction false} NotInRows(J: Table, m: nat, m': nat, s': nat)
    requires OneToOne(J) && m <= m' < |J| && s' < |J[m']|
    ensures J[m'][s'] !in Rows(J, m)
  {
    if m > 0 {
      NotInRows(J, m - 1, m', s');
      NotInCells(J, m - 1, |J[m - 1]|, m', s');
    }
  }

  /** Adding the cells of row m one column at a time. */
  lemma {:induction false} CellsSum(A: Matrix, J: Table, m: nat, s: nat)
    requires OneToOne(J) && m < |J| && s <= |J[m]|
    requires SetSum(Rows(J, m), A) == RowDiag(A, J, m)
    ensures SetSum(Rows(J, m) + Cells(J, m, s), A) == RowDiag(A, J, m) + CellDiag(A, J, m, s)
  {
    if s == 0 {
      assert Rows(J, m) + {} == Rows(J, m);
    } else {
      CellsSum(A, J, m, s - 1);
      var j := J[m][s - 1];
      NotInRows(J, m, m, s - 1);
      NotInCells(J, m, s - 1, m, s - 1);
      var before := Rows(J, m) + Cells(J, m, s - 1);
      AddFresh(Rows(J, m), Cells(J, m, s - 1), j);
      SetSumRemove(before + {j}, A, j);
      assert SetSum(Rows(J, m) + Cells(J, m, s), A) == DiagAt(A, j) + SetSum(before, A);
    }
  }

  /** Adding an element new to r + c and taking it out again gives r + c back. */
  lemma AddFresh(r: set<nat>, c: set<nat>, j: nat)
    requires j !in r + c
    ensures r + (c + {j}) == (r + c) + {j} && ((r + c) + {j}) - {j} == r + c
  {
  }

  /** Summing over the entries of the rows before m is summing row by row and cell by cell. */
  lemma {:induction false} RowsSum(A: Matrix, J: Table, m: nat)
    requires OneToOne(J) && m <= |J|
    ensures SetSum(Rows(J, m), A) == RowDiag(A, J, m)
  {
    if m > 0 {
      RowsSum(A, J, m - 1);
      CellsSum(A, J, m - 1, |J[m - 1]|);
    }
  }

  /** Every entry of row m before s is among its cells. */
  lemma {:induction false} EntryInCells(J: Table, m: nat, s: nat, s': nat)
    requires m < |J| && s' < s <= |J[m]|
    ensures J[m][s'] in Cells(J, m, s)
  {
    if s' < s - 1 {
      EntryInCells(J, m, s - 1, s');
    }
  }

  /** Every entry of a row before m is among the rows before m. */
  lemma {:induction false} EntryInRows(J: Table, m: nat, m': nat, s': nat)
    requires m' < m <= |J| && s' < |J[m']|
    ensures J[m'][s'] in Rows(J, m)
  {
    if m' < m - 1 {
      EntryInRows(J, m - 1, m', s');
    } else {
      EntryInCells(J, m', |J[m']|, s');
    }
  }

  /** The cells of a table whose entries are below n are below n. */
  lemma {:induction false} CellsBelow(J: Table, n: nat, m: nat, s: nat, x: nat)
    requires EntriesBelow(J, n) && m < |J| && s <= |J[m]| && x in Cells(J, m, s)
    ensures x < n
  {
    if x != J[m][s - 1] {
      CellsBelow(J, n, m, s - 1, x);
    }
  }

  /** The rows of a table whose entries are below n are below n. */
  lemma {:induction false} RowsBelow(J: Table, n: nat, m: nat, x: nat)
    requires EntriesBelow(J, n) && m <= |J| && x in Rows(J, m)
    ensures x < n
  {
    if x in Cells(J, m - 1, |J[m - 1]|) {
      CellsBelow(J, n, m - 1, |J[m - 1]|, x);
    } else {
      RowsBelow(J, n, m - 1, x);
    }
  }
}
