/**
 * ptrace keeps the trace (qp-math.cpp:115-156).  Entry (m, m) of the traced operator sums the
 * diagonal of A over the joined indices (m, s), s ranging over the traced states; joining a
 * kept state with a traced state is a bijection onto the basis indices, so the diagonal of A
 * is summed exactly once overall.  The reindexing goes through the table of joined indices.
 */
module Traces {
  import opened Bits
  import opened Matrices
  import opened QubitIndex
  import opened Embedding
  import opened SetSums

  /** A square operator on N qubits or more, with keep and qt splitting its first N qubits. */
  predicate Traceable(A: Matrix, keep: seq<nat>, qt: seq<nat>, N: nat)
  {
    IsSquare(A, |A|) && Pow2(N) <= |A| && Partition(keep, qt, N)
  }

  /** The diagonal entries m' < m of the traced operator, summed. */
  function TracedDiag(A: Matrix, keep: seq<nat>, qt: seq<nat>, N: nat, m: nat): int
    requires Traceable(A, keep, qt, N) && m <= Pow2(|keep|)
  {
    if m == 0 then 0
    else TracedDiag(A, keep, qt, N, m - 1) + BlockSum(A, keep, qt, N, m - 1, m - 1, Pow2(|qt|))
  }

  /** The table of the indices joined from a kept state (row) and a traced state (column). */
  ghost function JoinTable(keep: seq<nat>, qt: seq<nat>, N: nat): (J: Table)
    requires Partition(keep, qt, N)
    ensures |J| == Pow2(|keep|)
    ensures forall m :: 0 <= m < |J| ==> |J[m]| == Pow2(|qt|)
    ensures forall m, s :: 0 <= m < |J| && 0 <= s < |J[m]| ==> J[m][s] == Join(m, s, keep, qt, N)
  {
    seq(Pow2(|keep|), m requires 0 <= m => seq(Pow2(|qt|), s requires 0 <= s => Join(m, s, keep, qt, N)))
  }

  /** Joining is one to one, and lands below 2^N. */
  lemma JoinTableOneToOne(keep: seq<nat>, qt: seq<nat>, N: nat)
    requires Partition(keep, qt, N)
    ensures OneToOne(JoinTable(keep, qt, N)) && EntriesBelow(JoinTable(keep, qt, N), Pow2(N))
  {
    var J := JoinTable(keep, qt, N);
    forall m, s | 0 <= m < |J| && 0 <= s < |J[m]|
      ensures SubIndex(J[m][s], keep, N) == m && SubIndex(J[m][s], qt, N) == s && J[m][s] < Pow2(N)
    {
      JoinParts(m, s, keep, qt, N);
    }
  }

  /** Every basis index is joined from exactly the kept and traced states it splits into. */
  lemma RowsCover(keep: seq<nat>, qt: seq<nat>, N: nat)
    requires Partition(keep, qt, N)
    ensures Rows(JoinTable(keep, qt, N), Pow2(|keep|)) == Indices(Pow2(N))
  {
    var J := JoinTable(keep, qt, N);
    JoinTableOneToOne(keep, qt, N);
    forall i: nat | i < Pow2(N)
      ensures i in Rows(J, Pow2(|keep|))
    {
      SplitJoin(i, keep, qt, N);
      EntryInRows(J, Pow2(|keep|), SubIndex(i, keep, N), SubIndex(i, qt, N));
    }
    forall x | x in Rows(J, Pow2(|keep|))
      ensures x < Pow2(N)
    {
      RowsBelow(J, Pow2(N), Pow2(|keep|), x);
    }
  }

  /** Summed cell by cell, the diagonal entries of row m are the diagonal block entry (m, m). */
  lemma {:induction false} CellDiagIsBlock(A: Matrix, keep: seq<nat>, qt: seq<nat>, N: nat, J: Table,
                                           m: nat, s: nat)
    requires Traceable(A, keep, qt, N) && J == JoinTable(keep, qt, N)
    requires m < Pow2(|keep|) && s <= Pow2(|qt|)
    ensures CellDiag(A, J, m, s) == BlockSum(A, keep, qt, N, m, m, s)
  {
    if s > 0 {
      CellDiagIsBlock(A, keep, qt, N, J, m, s - 1);
      JoinParts(m, s - 1, keep, qt, N);
    }
  }

  /** Summed row by row, the diagonal entries of the rows before m are the traced diagonal. */
  lemma {:induction false} RowDiagIsTraced(A: Matrix, keep: seq<nat>, qt: seq<nat>, N: nat, J: Table, m: nat)
    requires Traceable(A, keep, qt, N) && J == JoinTable(keep, qt, N) && m <= Pow2(|keep|)
    ensures RowDiag(A, J, m) == TracedDiag(A, keep, qt, N, m)
  {
    if m > 0 {
      RowDiagIsTraced(A, keep, qt, N, J, m - 1);
      CellDiagIsBlock(A, keep, qt, N, J, m - 1, Pow2(|qt|));
    }
  }

  /** The diagonal of the traced operator is the diagonal of BlockSum. */
  lemma {:induction false} DiagOfPartialTrace(A: Matrix, qt: seq<nat>, N: nat, m: nat)
    requires IsSquare(A, |A|) && Pow2(N) <= |A| && Distinct(qt) && Below(qt, N)
    requires Partition(Complement(qt, N), qt, N) && m <= Pow2(|Complement(qt, N)|)
    ensures DiagSum(PartialTrace(A, qt, N), m) == TracedDiag(A, Complement(qt, N), qt, N, m)
  {
    if m > 0 {
      DiagOfPartialTrace(A, qt, N, m - 1);
    }
  }

  /** ptrace keeps the trace of a 2^N x 2^N operator, whichever qubits are traced out. */
  lemma PartialTraceKeepsTrace(A: Matrix, qt: seq<nat>, N: nat)
    requires IsSquare(A, Pow2(N)) && Distinct(qt) && Below(qt, N)
    ensures Trace(PartialTrace(A, qt, N)) == Trace(A)
  {
    var keep := Complement(qt, N);
    ComplementPartition(qt, N);
    DiagOfPartialTrace(A, qt, N, Pow2(|keep|));
    var J := JoinTable(keep, qt, N);
    JoinTableOneToOne(keep, qt, N);
    RowsSum(A, J, Pow2(|keep|));
    RowDiagIsTraced(A, keep, qt, N, J, Pow2(|keep|));
    RowsCover(keep, qt, N);
    DiagSumIsSetSum(A, Pow2(N));
  }
}
