/**
 * act, ptrace and the block extraction of submatrix (qp-math.cpp:58-209).  An operator A on
 * the qubits qs is embedded into an N-qubit space (act), an N-qubit operator is traced down to
 * the qubits not listed (ptrace), and the diagonal blocks of an operator over the ignored qubits
 * are added up (submatrix).  All three walk the index bijection of module QubitIndex with the
 * running accumulators of the source.
 */
module Embedding {
  import opened Bits
  import opened Matrices
  import opened QubitIndex

  /**
   * The operator act(A, qs, N) stands for: entry (i,j) is A at the sub-indices of i and j on
   * qs when i and j agree on the ignored qubits, and 0 otherwise (A on qs, identity elsewhere).
   */
  function Embedded(A: Matrix, qs: seq<nat>, N: nat): (B: Matrix)
    requires IsSquare(A, Pow2(|qs|))
    ensures IsSquare(B, Pow2(N))
  {
    var ign := Complement(qs, N);
    seq(Pow2(N), i requires 0 <= i < Pow2(N) =>
      seq(Pow2(N), j requires 0 <= j < Pow2(N) =>
        if SubIndex(i, ign, N) == SubIndex(j, ign, N)
        then A[SubIndex(i, qs, N)][SubIndex(j, qs, N)] else 0))
  }

  /** qs is [0, 1, ..., N-1]: the `do_nothing` test of act. */
  predicate IsIdentityMap(qs: seq<nat>, N: nat)
  {
    |qs| == N && forall i :: 0 <= i < N ==> qs[i] == i
  }

  /**
   * The accumulator loops of act and ptrace: starting from x0 (y0), add bit_int(pos[q],N) for
   * every bit q of x (y), out of width bits, that is on.
   */
  method ScatterPair(x: nat, y: nat, width: nat, pos: seq<nat>, N: nat, x0: nat, y0: nat)
    returns (ax: nat, ay: nat)
    requires |pos| == width && Below(pos, N)
    ensures ax == x0 + ScatterSum(ToBits(x, width), pos, N)
    ensures ay == y0 + ScatterSum(ToBits(y, width), pos, N)
  {
    ax, ay := x0, y0;
    var q := 0;
    while q < width
      invariant 0 <= q <= width
      invariant ax == x0 + ScatterSum(ToBits(x, width)[..q], pos[..q], N)
      invariant ay == y0 + ScatterSum(ToBits(y, width)[..q], pos[..q], N)
    {
      assert ToBits(x, width)[..q + 1][..q] == ToBits(x, width)[..q];
      assert ToBits(y, width)[..q + 1][..q] == ToBits(y, width)[..q];
      assert pos[..q + 1][..q] == pos[..q];
      if QbitState(q, width, x) {
        ax := ax + BitInt(pos[q], N);
      }
      if QbitState(q, width, y) {
        ay := ay + BitInt(pos[q], N);
      }
      q := q + 1;
    }
    assert ToBits(x, width)[..width] == ToBits(x, width);
    assert ToBits(y, width)[..width] == ToBits(y, width);
    assert pos[..width] == pos;
  }

  /** Whether (a, b, c) comes before (m, n, s) in the loop order of act. */
  predicate Before(a: nat, b: nat, c: nat, m: nat, n: nat, s: nat)
  {
    a < m || (a == m && (b < n || (b == n && c < s)))
  }

  /**
   * Entry (i, j) of the embedded operator once act has written every (m', n', s') before
   * (m, n, s): A at the sub-indices of i and j on qs when i and j agree on the other qubits and
   * the write has happened, 0 otherwise.
   */
  function Expected(A: Matrix, qs: seq<nat>, N: nat, m: nat, n: nat, s: nat, i: nat, j: nat): int
    requires IsSquare(A, Pow2(|qs|))
  {
    var ign := Complement(qs, N);
    if SubIndex(i, ign, N) == SubIndex(j, ign, N)
       && Before(SubIndex(i, qs, N), SubIndex(j, qs, N), SubIndex(i, ign, N), m, n, s)
    then A[SubIndex(i, qs, N)][SubIndex(j, qs, N)] else 0
  }

  /** The invariant of act's loops: the entries written so far, and zero everywhere else. */
  predicate Filled(B: Matrix, A: Matrix, qs: seq<nat>, N: nat, m: nat, n: nat, s: nat)
    requires IsSquare(A, Pow2(|qs|))
  {
    IsSquare(B, Pow2(N)) &&
    forall i, j :: 0 <= i < Pow2(N) && 0 <= j < Pow2(N) ==> B[i][j] == Expected(A, qs, N, m, n, s, i, j)
  }

  /** One write `B(b_out,b_in) = A(m,n)` of act fills exactly the entry of (m, n, s). */
  lemma FillStep(B: Matrix, A: Matrix, qs: seq<nat>, N: nat, m: nat, n: nat, s: nat)
    requires Distinct(qs) && Below(qs, N) && IsSquare(A, Pow2(|qs|))
    requires m < Pow2(|qs|) && n < Pow2(|qs|) && s < Pow2(|Complement(qs, N)|)
    requires Filled(B, A, qs, N, m, n, s)
    ensures Join(m, s, qs, Complement(qs, N), N) < Pow2(N)
    ensures Join(n, s, qs, Complement(qs, N), N) < Pow2(N)
    ensures Filled(SetEntry(B, Join(m, s, qs, Complement(qs, N), N), Join(n, s, qs, Complement(qs, N), N), A[m][n]),
                   A, qs, N, m, n, s + 1)
  {
    var ign := Complement(qs, N);
    ComplementPartition(qs, N);
    JoinParts(m, s, qs, ign, N);
    JoinParts(n, s, qs, ign, N);
    var bo, bi := Join(m, s, qs, ign, N), Join(n, s, qs, ign, N);
    var B' := SetEntry(B, bo, bi, A[m][n]);
    assert IsSquare(B', Pow2(N));
    forall i, j | 0 <= i < Pow2(N) && 0 <= j < Pow2(N)
      ensures B'[i][j] == Expected(A, qs, N, m, n, s + 1, i, j)
    {
      FillEntry(B, A, qs, N, m, n, s, ign, bo, bi, i, j);
    }
  }

  /** Entry (i, j) after the write of (m, n, s): the written value at its place, else the old one. */
  lemma FillEntry(B: Matrix, A: Matrix, qs: seq<nat>, N: nat, m: nat, n: nat, s: nat, ign: seq<nat>,
                  bo: nat, bi: nat, i: nat, j: nat)
    requires Distinct(qs) && Below(qs, N) && IsSquare(A, Pow2(|qs|))
    requires ign == Complement(qs, N) && Partition(qs, ign, N)
    requires m < Pow2(|qs|) && n < Pow2(|qs|) && s < Pow2(|ign|)
    requires Filled(B, A, qs, N, m, n, s)
    requires bo == Join(m, s, qs, ign, N) && bi == Join(n, s, qs, ign, N)
    requires i < Pow2(N) && j < Pow2(N)
    ensures (if i == bo && j == bi then A[m][n] else B[i][j]) == Expected(A, qs, N, m, n, s + 1, i, j)
  {
    var mi, mj, si, sj := SubIndex(i, qs, N), SubIndex(j, qs, N), SubIndex(i, ign, N), SubIndex(j, ign, N);
    SplitJoin(i, qs, ign, N);
    SplitJoin(j, qs, ign, N);
    JoinParts(m, s, qs, ign, N);
    JoinParts(n, s, qs, ign, N);
    assert B[i][j] == (if si == sj && Before(mi, mj, si, m, n, s) then A[mi][mj] else 0);
    if i == bo && j == bi {
      assert mi == m && mj == n && si == s && sj == s;
    }
  }

  lemma FillNextColumn(B: Matrix, A: Matrix, qs: seq<nat>, N: nat, m: nat, n: nat)
    requires IsSquare(A, Pow2(|qs|))
    requires Filled(B, A, qs, N, m, n, Pow2(|Complement(qs, N)|))
    ensures Filled(B, A, qs, N, m, n + 1, 0)
  {
  }

  lemma FillNextRow(B: Matrix, A: Matrix, qs: seq<nat>, N: nat, m: nat)
    requires IsSquare(A, Pow2(|qs|))
    requires Filled(B, A, qs, N, m, Pow2(|qs|), 0)
    ensures Filled(B, A, qs, N, m + 1, 0, 0)
  {
  }

  lemma FillDone(B: Matrix, A: Matrix, qs: seq<nat>, N: nat)
    requires IsSquare(A, Pow2(|qs|))
    requires Filled(B, A, qs, N, Pow2(|qs|), 0, 0)
    ensures B == Embedded(A, qs, N)
  {
    var E := Embedded(A, qs, N);
    forall i | 0 <= i < Pow2(N)
      ensures B[i] == E[i]
    {
    }
  }

  /** With qs == [0..N) the embedding is A itself, so act's early return agrees with it. */
  lemma EmbeddedIdentityMap(A: Matrix, qs: seq<nat>, N: nat)
    requires IsIdentityMap(qs, N) && IsSquare(A, Pow2(|qs|))
    ensures Embedded(A, qs, N) == A
  {
    var E := Embedded(A, qs, N);
    ComplementSize(qs, N);
    forall i | 0 <= i < Pow2(N)
      ensures SubIndex(i, qs, N) == i
    {
      assert Gather(i, qs, N) == ToBits(i, N);
      FromToBits(i, N);
    }
    forall i | 0 <= i < Pow2(N)
      ensures E[i] == A[i]
    {
    }
  }

  /**
   * act: A on the qubits qs out of N.  The early return gives A itself; otherwise the
   * zero-initialised B is filled by the loops over (m, n, s).  Callers pass distinct qubits
   * below N (the source does not check this; other inputs index outside B).
   */
  method Act(A: Matrix, qs: seq<nat>, N: nat) returns (B: Matrix)
    requires IsSquare(A, |A|)
    requires Distinct(qs) && Below(qs, N)
    requires IsIdentityMap(qs, N) || |A| == Pow2(|qs|)
    ensures IsIdentityMap(qs, N) ==> B == A
    ensures |A| == Pow2(|qs|) ==> B == Embedded(A, qs, N)
  {
    if |qs| == N {
      var doNothing := true;
      var i := 0;
      while i < N
        invariant 0 <= i <= N
        invariant doNothing && forall i' :: 0 <= i' < i ==> qs[i'] == i'
      {
        if i != qs[i] {
          doNothing := false;
          break;
        }
        i := i + 1;
      }
      if doNothing {
        if |A| == Pow2(|qs|) {
          EmbeddedIdentityMap(A, qs, N);
        }
        return A;
      }
    }
    B := ActLoops(A, qs, N);
  }

  /** The general path of act (qp-math.cpp:72-111). */
  method ActLoops(A: Matrix, qs: seq<nat>, N: nat) returns (B: Matrix)
    requires Distinct(qs) && Below(qs, N) && IsSquare(A, Pow2(|qs|))
    ensures B == Embedded(A, qs, N)
  {
    var k := |qs|;
    var ign := Unlisted(qs, N);
    var D := Pow2(N);
    B := Zero(D, D);
    var m := 0;
    while m < |A|
      invariant 0 <= m <= |A|
      invariant Filled(B, A, qs, N, m, 0, 0)
    {
      var n := 0;
      while n < |A|
        invariant 0 <= n <= |A|
        invariant Filled(B, A, qs, N, m, n, 0)
      {
        var bm, bn := ScatterPair(m, n, k, qs, N, 0, 0);
        B := FillBlock(B, A, qs, N, ign, m, n, bm, bn);
        FillNextColumn(B, A, qs, N, m, n);
        n := n + 1;
      }
      FillNextRow(B, A, qs, N, m);
      m := m + 1;
    }
    FillDone(B, A, qs, N);
  }

  /** The innermost loop of act: entry (m, n) of A written at every joined pair (m, s), (n, s). */
  method FillBlock(B0: Matrix, A: Matrix, qs: seq<nat>, N: nat, ign: seq<nat>, m: nat, n: nat,
                   bm: nat, bn: nat) returns (B: Matrix)
    requires Distinct(qs) && Below(qs, N) && IsSquare(A, Pow2(|qs|)) && ign == Complement(qs, N)
    requires m < Pow2(|qs|) && n < Pow2(|qs|)
    requires bm == ScatterSum(ToBits(m, |qs|), qs, N) && bn == ScatterSum(ToBits(n, |qs|), qs, N)
    requires Filled(B0, A, qs, N, m, n, 0)
    ensures Filled(B, A, qs, N, m, n, Pow2(|ign|))
  {
    B := B0;
    var S := Pow2(|ign|);
    var s := 0;
    while s < S
      invariant 0 <= s <= S
      invariant Filled(B, A, qs, N, m, n, s)
    {
      var bOut, bIn := ScatterPair(s, s, |ign|, ign, N, bm, bn);
      FillStep(B, A, qs, N, m, n, s);
      B := SetEntry(B, bOut, bIn, A[m][n]);
      s := s + 1;
    }
  }

  /** log2 of a row count, truncated to an integer as `const uint qbits_old = log2(...)` does. */
  function Log2(x: nat): (r: nat)
    requires x >= 1
    ensures Pow2(r) <= x
  {
    if x == 1 then 0 else Log2(x / 2) + 1
  }

  lemma {:induction false} Log2Pow2(N: nat)
    ensures Log2(Pow2(N)) == N
  {
    if N > 0 {
      assert Pow2(N) / 2 == Pow2(N - 1);
      Log2Pow2(N - 1);
    }
  }

  /**
   * Sum over s < S of A at the indices of (m, s) and (n, s): the inner loop of ptrace for
   * entry (m, n), with the kept qubits `keep` and the traced qubits `qt`.
   */
  function BlockSum(A: Matrix, keep: seq<nat>, qt: seq<nat>, N: nat, m: nat, n: nat, S: nat): int
    requires IsSquare(A, |A|) && Pow2(N) <= |A| && Partition(keep, qt, N)
    requires m < Pow2(|keep|) && n < Pow2(|keep|) && S <= Pow2(|qt|)
  {
    if S == 0 then 0
    else
      JoinParts(m, S - 1, keep, qt, N);
      JoinParts(n, S - 1, keep, qt, N);
      BlockSum(A, keep, qt, N, m, n, S - 1) + A[Join(m, S - 1, keep, qt, N)][Join(n, S - 1, keep, qt, N)]
  }

  /**
   * The partial trace over the qubits qt of the N-qubit operator in the leading 2^N x 2^N
   * block of A: entry (m, n) sums A over every state s of the traced qubits.
   */
  function PartialTrace(A: Matrix, qt: seq<nat>, N: nat): (B: Matrix)
    requires IsSquare(A, |A|) && Pow2(N) <= |A| && Distinct(qt) && Below(qt, N)
    ensures IsSquare(B, Pow2(|Complement(qt, N)|))
  {
    var keep := Complement(qt, N);
    ComplementPartition(qt, N);
    seq(Pow2(|keep|), m requires 0 <= m < Pow2(|keep|) =>
      seq(Pow2(|keep|), n requires 0 <= n < Pow2(|keep|) =>
        BlockSum(A, keep, qt, N, m, n, Pow2(|qt|))))
  }

  /** Entry (i, j) of ptrace's result once the sum at (m, n) has reached s. */
  function Partial(A: Matrix, keep: seq<nat>, qt: seq<nat>, N: nat, m: nat, n: nat, s: nat, i: nat, j: nat): int
    requires IsSquare(A, |A|) && Pow2(N) <= |A| && Partition(keep, qt, N) && s <= Pow2(|qt|)
    requires i < Pow2(|keep|) && j < Pow2(|keep|)
  {
    if i < m || (i == m && j < n) then BlockSum(A, keep, qt, N, i, j, Pow2(|qt|))
    else if i == m && j == n then BlockSum(A, keep, qt, N, i, j, s)
    else 0
  }

  /** The invariant of ptrace's loops: finished entries, the partial sum at (m, n), zeros after. */
  predicate Summed(B: Matrix, A: Matrix, keep: seq<nat>, qt: seq<nat>, N: nat, m: nat, n: nat, s: nat)
    requires IsSquare(A, |A|) && Pow2(N) <= |A| && Partition(keep, qt, N) && s <= Pow2(|qt|)
  {
    IsSquare(B, Pow2(|keep|)) &&
    forall i, j :: 0 <= i < Pow2(|keep|) && 0 <= j < Pow2(|keep|) ==>
      B[i][j] == Partial(A, keep, qt, N, m, n, s, i, j)
  }

  /**
   * ptrace: trace out the qubits qs_trace of the operator A on log2(rows) qubits.  Callers
   * pass distinct traced qubits below log2(rows) (the source does not check this).
   */
  method Ptrace(A: Matrix, qsTrace: seq<nat>) returns (B: Matrix)
    requires IsSquare(A, |A|) && |A| >= 1
    requires Distinct(qsTrace) && Below(qsTrace, Log2(|A|))
    ensures |qsTrace| <= Log2(|A|)
    ensures IsSquare(B, Pow2(Log2(|A|) - |qsTrace|))
    ensures B == PartialTrace(A, qsTrace, Log2(|A|))
  {
    var qbitsOld := Log2(|A|);
    var qbitsNew := qbitsOld - |qsTrace|;
    var keep := Unlisted(qsTrace, qbitsOld);
    ComplementSize(qsTrace, qbitsOld);
    assert qbitsNew == |keep|;
    B := PtraceLoops(A, keep, qsTrace, qbitsOld);
  }

  /** The loops of ptrace (qp-math.cpp:129-156). */
  method PtraceLoops(A: Matrix, keep: seq<nat>, qsTrace: seq<nat>, qbitsOld: nat) returns (B: Matrix)
    requires IsSquare(A, |A|) && Pow2(qbitsOld) <= |A| && Distinct(qsTrace) && Below(qsTrace, qbitsOld)
    requires keep == Complement(qsTrace, qbitsOld)
    ensures B == PartialTrace(A, qsTrace, qbitsOld)
  {
    ComplementPartition(qsTrace, qbitsOld);
    var qbitsNew := |keep|;
    var D := Pow2(qbitsNew);
    B := Zero(D, D);
    var m := 0;
    while m < D
      invariant 0 <= m <= D
      invariant Summed(B, A, keep, qsTrace, qbitsOld, m, 0, 0)
    {
      var n := 0;
      while n < D
        invariant 0 <= n <= D
        invariant Summed(B, A, keep, qsTrace, qbitsOld, m, n, 0)
      {
        var aM, aN := ScatterPair(m, n, qbitsNew, keep, qbitsOld, 0, 0);
        B := SumOverTraced(B, A, keep, qsTrace, qbitsOld, m, n, aM, aN);
        SumNextColumn(B, A, keep, qsTrace, qbitsOld, m, n);
        n := n + 1;
      }
      SumNextRow(B, A, keep, qsTrace, qbitsOld, m);
      m := m + 1;
    }
    SumDone(B, A, keep, qsTrace, qbitsOld);
  }

  /** The innermost loop of ptrace (qp-math.cpp:144-153): entry (m, n) sums over s. */
  method SumOverTraced(B0: Matrix, A: Matrix, keep: seq<nat>, qt: seq<nat>, N: nat, m: nat, n: nat, aM: nat, aN: nat)
    returns (B: Matrix)
    requires IsSquare(A, |A|) && Pow2(N) <= |A| && Partition(keep, qt, N)
    requires m < Pow2(|keep|) && n < Pow2(|keep|)
    requires aM == ScatterSum(ToBits(m, |keep|), keep, N) && aN == ScatterSum(ToBits(n, |keep|), keep, N)
    requires Summed(B0, A, keep, qt, N, m, n, 0)
    ensures Summed(B, A, keep, qt, N, m, n, Pow2(|qt|))
  {
    B := B0;
    var s := 0;
    while s < Pow2(|qt|)
      invariant 0 <= s <= Pow2(|qt|)
      invariant Summed(B, A, keep, qt, N, m, n, s)
    {
      var aOut, aIn := ScatterPair(s, s, |qt|, qt, N, aM, aN);
      SumStep(B, A, keep, qt, N, m, n, s, aOut, aIn);
      B := SetEntry(B, m, n, B[m][n] + A[aOut][aIn]);
      s := s + 1;
    }
  }

  /** One `B(m,n) += A(a_out,a_in)` of ptrace adds the term of s to entry (m, n). */
  lemma SumStep(B: Matrix, A: Matrix, keep: seq<nat>, qt: seq<nat>, N: nat, m: nat, n: nat, s: nat,
                 aOut: nat, aIn: nat)
    requires IsSquare(A, |A|) && Pow2(N) <= |A| && Partition(keep, qt, N)
    requires m < Pow2(|keep|) && n < Pow2(|keep|) && s < Pow2(|qt|)
    requires aOut == ScatterSum(ToBits(m, |keep|), keep, N) + ScatterSum(ToBits(s, |qt|), qt, N)
    requires aIn == ScatterSum(ToBits(n, |keep|), keep, N) + ScatterSum(ToBits(s, |qt|), qt, N)
    requires Summed(B, A, keep, qt, N, m, n, s)
    ensures aOut < |A| && aIn < |A| && m < |B| && n < |B[m]|
    ensures Summed(SetEntry(B, m, n, B[m][n] + A[aOut][aIn]), A, keep, qt, N, m, n, s + 1)
  {
    JoinParts(m, s, keep, qt, N);
    JoinParts(n, s, keep, qt, N);
    assert aOut == Join(m, s, keep, qt, N) && aIn == Join(n, s, keep, qt, N);
    var x := B[m][n] + A[aOut][aIn];
    assert x == BlockSum(A, keep, qt, N, m, n, s + 1);
    var B' := SetEntry(B, m, n, x);
    assert IsSquare(B', Pow2(|keep|));
    forall i, j | 0 <= i < Pow2(|keep|) && 0 <= j < Pow2(|keep|)
      ensures B'[i][j] == Partial(A, keep, qt, N, m, n, s + 1, i, j)
    {
    }
  }

  lemma SumNextColumn(B: Matrix, A: Matrix, keep: seq<nat>, qt: seq<nat>, N: nat, m: nat, n: nat)
    requires IsSquare(A, |A|) && Pow2(N) <= |A| && Partition(keep, qt, N)
    requires Summed(B, A, keep, qt, N, m, n, Pow2(|qt|))
    ensures Summed(B, A, keep, qt, N, m, n + 1, 0)
  {
  }

  lemma SumNextRow(B: Matrix, A: Matrix, keep: seq<nat>, qt: seq<nat>, N: nat, m: nat)
    requires IsSquare(A, |A|) && Pow2(N) <= |A| && Partition(keep, qt, N)
    requires Summed(B, A, keep, qt, N, m, Pow2(|keep|), 0)
    ensures Summed(B, A, keep, qt, N, m + 1, 0, 0)
  {
  }

  lemma SumDone(B: Matrix, A: Matrix, keep: seq<nat>, qt: seq<nat>, N: nat)
    requires IsSquare(A, |A|) && Pow2(N) <= |A| && Distinct(qt) && Below(qt, N)
    requires keep == Complement(qt, N) && Partition(keep, qt, N)
    requires Summed(B, A, keep, qt, N, Pow2(|keep|), 0, 0)
    ensures B == PartialTrace(A, qt, N)
  {
    var P := PartialTrace(A, qt, N);
    forall i | 0 <= i < Pow2(|keep|)
      ensures B[i] == P[i]
    {
    }
  }

  /** Two ascending lists with the same elements are equal. */
  lemma {:induction false} IncreasingSameElems(a: seq<nat>, b: seq<nat>)
    requires Increasing(a) && Increasing(b)
    requires forall p :: p in a <==> p in b
    ensures a == b
  {
    assert |a| > 0 ==> a[0] in b;
    assert |b| > 0 ==> b[0] in a;
    if |a| > 0 && |b| > 0 {
      assert a[0] == b[0];
      forall p
        ensures p in a[1..] <==> p in b[1..]
      {
        if p in a[1..] {
          assert p in b && p != b[0];
        }
        if p in b[1..] {
          assert p in a && p != a[0];
        }
      }
      IncreasingSameElems(a[1..], b[1..]);
      assert a == [a[0]] + a[1..] && b == [b[0]] + b[1..];
    }
  }

  /** A sum of S equal terms x is S * x. */
  lemma {:induction false} BlockSumConstant(E: Matrix, keep: seq<nat>, qt: seq<nat>, N: nat, m: nat, n: nat, S: nat, x: int)
    requires IsSquare(E, |E|) && Pow2(N) <= |E| && Partition(keep, qt, N)
    requires m < Pow2(|keep|) && n < Pow2(|keep|) && S <= Pow2(|qt|)
    requires forall s :: 0 <= s < S ==>
      (Join(m, s, keep, qt, N) < |E| && Join(n, s, keep, qt, N) < |E| &&
       E[Join(m, s, keep, qt, N)][Join(n, s, keep, qt, N)] == x)
    ensures BlockSum(E, keep, qt, N, m, n, S) == S * x
  {
    if S > 0 {
      BlockSumConstant(E, keep, qt, N, m, n, S - 1, x);
      assert (S - 1) * x + x == S * x;
    }
  }

  /** Each term of the trace of an embedded operator is the same entry of A. */
  lemma BlockSumOfEmbedded(A: Matrix, qs: seq<nat>, N: nat, m: nat, n: nat)
    requires Distinct(qs) && Below(qs, N) && IsSquare(A, Pow2(|qs|))
    requires Partition(qs, Complement(qs, N), N)
    requires m < Pow2(|qs|) && n < Pow2(|qs|)
    ensures BlockSum(Embedded(A, qs, N), qs, Complement(qs, N), N, m, n, Pow2(|Complement(qs, N)|))
      == Pow2(|Complement(qs, N)|) * A[m][n]
  {
    var ign := Complement(qs, N);
    forall s | 0 <= s < Pow2(|ign|)
      ensures Join(m, s, qs, ign, N) < Pow2(N) && Join(n, s, qs, ign, N) < Pow2(N)
      ensures Embedded(A, qs, N)[Join(m, s, qs, ign, N)][Join(n, s, qs, ign, N)] == A[m][n]
    {
      EmbeddedAtJoin(A, qs, N, m, n, s);
    }
    BlockSumConstant(Embedded(A, qs, N), qs, ign, N, m, n, Pow2(|ign|), A[m][n]);
  }

  /** The embedded operator at the joined indices of (m, s) and (n, s) is A[m][n]. */
  lemma EmbeddedAtJoin(A: Matrix, qs: seq<nat>, N: nat, m: nat, n: nat, s: nat)
    requires Distinct(qs) && Below(qs, N) && IsSquare(A, Pow2(|qs|))
    requires m < Pow2(|qs|) && n < Pow2(|qs|) && s < Pow2(|Complement(qs, N)|)
    ensures Join(m, s, qs, Complement(qs, N), N) < Pow2(N)
    ensures Join(n, s, qs, Complement(qs, N), N) < Pow2(N)
    ensures Embedded(A, qs, N)[Join(m, s, qs, Complement(qs, N), N)][Join(n, s, qs, Complement(qs, N), N)] == A[m][n]
  {
    ComplementPartition(qs, N);
    JoinParts(m, s, qs, Complement(qs, N), N);
    JoinParts(n, s, qs, Complement(qs, N), N);
  }

  /**
   * Tracing an embedded operator over the ignored qubits gives 2^(N-|qs|) times the operator
   * back, for ascending qs (the order ptrace recomputes the kept qubits in): the ignored part
   * is the identity, whose trace is its dimension.
   */
  lemma PtraceOfEmbedded(A: Matrix, qs: seq<nat>, N: nat)
    requires Increasing(qs) && Below(qs, N) && IsSquare(A, Pow2(|qs|))
    ensures |qs| <= N
    ensures Distinct(Complement(qs, N)) && Below(Complement(qs, N), N)
    ensures PartialTrace(Embedded(A, qs, N), Complement(qs, N), N) == Scale(Pow2(N - |qs|), A)
  {
    var ign := Complement(qs, N);
    var E := Embedded(A, qs, N);
    ComplementPartition(qs, N);
    ComplementSize(qs, N);
    IncreasingSameElems(Complement(ign, N), qs);
    var P := PartialTrace(E, ign, N);
    var R := Scale(Pow2(N - |qs|), A);
    forall m, n | 0 <= m < Pow2(|qs|) && 0 <= n < Pow2(|qs|)
      ensures P[m][n] == R[m][n]
    {
      BlockSumOfEmbedded(A, qs, N, m, n);
    }
    forall m | 0 <= m < Pow2(|qs|)
      ensures P[m] == R[m]
    {
    }
  }

  /**
   * The diagonal block of A for the state e of the ignored qubits: entry (r, c) is A at the
   * indices joining r (on qbits) with e and c (on qbits) with e.
   */
  function Block(A: Matrix, qbits: seq<nat>, ign: seq<nat>, N: nat, e: nat): (C: Matrix)
    requires IsSquare(A, |A|) && Pow2(N) <= |A| && Partition(qbits, ign, N) && e < Pow2(|ign|)
    ensures IsSquare(C, Pow2(|qbits|))
  {
    seq(Pow2(|qbits|), r requires 0 <= r < Pow2(|qbits|) =>
      seq(Pow2(|qbits|), c requires 0 <= c < Pow2(|qbits|) =>
        JoinParts(r, e, qbits, ign, N);
        JoinParts(c, e, qbits, ign, N);
        A[Join(r, e, qbits, ign, N)][Join(c, e, qbits, ign, N)]))
  }

  /** B0 plus the blocks of A for the ignored states e < E. */
  function BlocksFrom(B0: Matrix, A: Matrix, qbits: seq<nat>, ign: seq<nat>, N: nat, E: nat): (B: Matrix)
    requires IsSquare(B0, Pow2(|qbits|))
    requires IsSquare(A, |A|) && Pow2(N) <= |A| && Partition(qbits, ign, N) && E <= Pow2(|ign|)
    ensures IsSquare(B, Pow2(|qbits|))
  {
    if E == 0 then B0
    else Add(BlocksFrom(B0, A, qbits, ign, N, E - 1), Block(A, qbits, ign, N, E - 1))
  }

  /** The block copy of submatrix (qp-math.cpp:174-201) for the ignored state e. */
  method ExtractBlock(A: Matrix, qbits: seq<nat>, ign: seq<nat>, N: nat, e: nat) returns (C: Matrix)
    requires IsSquare(A, |A|) && Pow2(N) <= |A| && Partition(qbits, ign, N) && e < Pow2(|ign|)
    ensures C == Block(A, qbits, ign, N, e)
  {
    var aStart, _ := ScatterPair(e, e, |ign|, ign, N, 0, 0);
    var P := Pow2(|qbits|);
    ghost var target := Block(A, qbits, ign, N, e);
    C := Identity(P);
    var row := 0;
    while row < P
      invariant 0 <= row <= P
      invariant IsSquare(C, P)
      invariant forall r :: 0 <= r < row ==> C[r] == target[r]
    {
      var aRow, _ := ScatterPair(row, row, |qbits|, qbits, N, aStart, aStart);
      var col := 0;
      while col < P
        invariant 0 <= col <= P
        invariant IsSquare(C, P)
        invariant forall r :: 0 <= r < row ==> C[r] == target[r]
        invariant forall c :: 0 <= c < col ==> C[row][c] == target[row][c]
      {
        var aCol, _ := ScatterPair(col, col, |qbits|, qbits, N, aStart, aStart);
        BlockAt(A, qbits, ign, N, e, row, col, aStart, aRow, aCol);
        CopyStep(C, target, P, row, col, A[aRow][aCol]);
        C := SetEntry(C, row, col, A[aRow][aCol]);
        col := col + 1;
      }
      RowDone(C, target, P, row);
      row := row + 1;
    }
  }

  /** The scattered offsets of row, col and e address entry (row, col) of the block of e. */
  lemma BlockAt(A: Matrix, qbits: seq<nat>, ign: seq<nat>, N: nat, e: nat, row: nat, col: nat,
                aStart: nat, aRow: nat, aCol: nat)
    requires IsSquare(A, |A|) && Pow2(N) <= |A| && Partition(qbits, ign, N) && e < Pow2(|ign|)
    requires row < Pow2(|qbits|) && col < Pow2(|qbits|)
    requires aStart == ScatterSum(ToBits(e, |ign|), ign, N)
    requires aRow == aStart + ScatterSum(ToBits(row, |qbits|), qbits, N)
    requires aCol == aStart + ScatterSum(ToBits(col, |qbits|), qbits, N)
    ensures aRow < |A| && aCol < |A| && A[aRow][aCol] == Block(A, qbits, ign, N, e)[row][col]
  {
    assert aRow == Join(row, e, qbits, ign, N) && aCol == Join(col, e, qbits, ign, N);
    JoinParts(row, e, qbits, ign, N);
    JoinParts(col, e, qbits, ign, N);
  }

  /** A row copied entry by entry extends the copied prefix of rows. */
  lemma RowDone(C: Matrix, target: Matrix, P: nat, row: nat)
    requires IsSquare(C, P) && IsSquare(target, P) && row < P
    requires forall r :: 0 <= r < row ==> C[r] == target[r]
    requires forall c :: 0 <= c < P ==> C[row][c] == target[row][c]
    ensures forall r :: 0 <= r <= row ==> C[r] == target[r]
  {
    assert C[row] == target[row];
  }

  /** Copying entry (row, col) of the target extends the copied prefix of row. */
  lemma CopyStep(C: Matrix, target: Matrix, P: nat, row: nat, col: nat, x: int)
    requires IsSquare(C, P) && IsSquare(target, P) && row < P && col < P
    requires forall r :: 0 <= r < row ==> C[r] == target[r]
    requires forall c :: 0 <= c < col ==> C[row][c] == target[row][c]
    requires x == target[row][col]
    ensures IsSquare(SetEntry(C, row, col, x), P)
    ensures forall r :: 0 <= r < row ==> SetEntry(C, row, col, x)[r] == target[r]
    ensures forall c :: 0 <= c <= col ==> SetEntry(C, row, col, x)[row][c] == target[row][c]
  {
    var C' := SetEntry(C, row, col, x);
    forall r | 0 <= r < row
      ensures C'[r] == target[r]
    {
      assert C'[r] == C[r];
    }
  }

  /** The loop of submatrix over the ignored states (qp-math.cpp:173-204), from B0. */
  method AddBlocks(A: Matrix, qbits: seq<nat>, ign: seq<nat>, N: nat, B0: Matrix) returns (B: Matrix)
    requires IsSquare(B0, Pow2(|qbits|))
    requires IsSquare(A, |A|) && Pow2(N) <= |A| && Partition(qbits, ign, N)
    ensures B == BlocksFrom(B0, A, qbits, ign, N, Pow2(|ign|))
  {
    B := B0;
    var E := Pow2(|ign|);
    var e := 0;
    while e < E
      invariant 0 <= e <= E
      invariant B == BlocksFrom(B0, A, qbits, ign, N, e)
    {
      var C := ExtractBlock(A, qbits, ign, N, e);
      B := Add(B, C);
      e := e + 1;
    }
  }

  /**
   * submatrix with B initialised to the zero matrix: the sum over the ignored states of the
   * diagonal blocks, acted back onto qbits.  The per-block phase removal and the final
   * normalisation are left out (floating point).
   */
  method Submatrix(A: Matrix, qbits: seq<nat>) returns (R: Matrix)
    requires IsSquare(A, |A|) && |A| >= 1
    requires Distinct(qbits) && Below(qbits, Log2(|A|))
    ensures Partition(qbits, Complement(qbits, Log2(|A|)), Log2(|A|))
    ensures R == Embedded(BlocksFrom(Zero(Pow2(|qbits|), Pow2(|qbits|)), A, qbits,
                                     Complement(qbits, Log2(|A|)), Log2(|A|),
                                     Pow2(|Complement(qbits, Log2(|A|))|)),
                          qbits, Log2(|A|))
  {
    var totalSpins := Log2(|A|);
    var ignored := Unlisted(qbits, totalSpins);
    ComplementPartition(qbits, totalSpins);
    var P := Pow2(|qbits|);
    var B := AddBlocks(A, qbits, ignored, totalSpins, Zero(P, P));
    R := Act(B, qbits, totalSpins);
  }

  /**
   * submatrix as written: B starts as the identity (qp-math.cpp:171), so the identity is
   * added to the sum of the blocks.
   */
  method SubmatrixAsWritten(A: Matrix, qbits: seq<nat>) returns (R: Matrix)
    requires IsSquare(A, |A|) && |A| >= 1
    requires Distinct(qbits) && Below(qbits, Log2(|A|))
    ensures Partition(qbits, Complement(qbits, Log2(|A|)), Log2(|A|))
    ensures R == Embedded(BlocksFrom(Identity(Pow2(|qbits|)), A, qbits,
                                     Complement(qbits, Log2(|A|)), Log2(|A|),
                                     Pow2(|Complement(qbits, Log2(|A|))|)),
                          qbits, Log2(|A|))
  {
    var totalSpins := Log2(|A|);
    var ignored := Unlisted(qbits, totalSpins);
    ComplementPartition(qbits, totalSpins);
    var P := Pow2(|qbits|);
    var B := AddBlocks(A, qbits, ignored, totalSpins, Identity(P));
    R := Act(B, qbits, totalSpins);
  }

  /** Every diagonal block of an embedded operator is the operator itself. */
  lemma BlockOfEmbedded(G: Matrix, qbits: seq<nat>, N: nat, e: nat)
    requires Distinct(qbits) && Below(qbits, N) && IsSquare(G, Pow2(|qbits|))
    requires Partition(qbits, Complement(qbits, N), N) && e < Pow2(|Complement(qbits, N)|)
    ensures Block(Embedded(G, qbits, N), qbits, Complement(qbits, N), N, e) == G
  {
    var C := Block(Embedded(G, qbits, N), qbits, Complement(qbits, N), N, e);
    forall r, c | 0 <= r < Pow2(|qbits|) && 0 <= c < Pow2(|qbits|)
      ensures C[r][c] == G[r][c]
    {
      EmbeddedAtJoin(G, qbits, N, r, c, e);
    }
    forall r | 0 <= r < Pow2(|qbits|)
      ensures C[r] == G[r]
    {
    }
  }

  /** Adding up E blocks that all equal G adds E copies of G to B0. */
  lemma {:induction false} BlocksConstant(B0: Matrix, M: Matrix, qbits: seq<nat>, ign: seq<nat>, N: nat, E: nat, G: Matrix)
    requires IsSquare(B0, Pow2(|qbits|)) && IsSquare(G, Pow2(|qbits|))
    requires IsSquare(M, |M|) && Pow2(N) <= |M| && Partition(qbits, ign, N) && E <= Pow2(|ign|)
    requires forall e :: 0 <= e < E ==> Block(M, qbits, ign, N, e) == G
    ensures BlocksFrom(B0, M, qbits, ign, N, E) == Add(B0, Scale(E, G))
  {
    if E > 0 {
      BlocksConstant(B0, M, qbits, ign, N, E - 1, G);
      assert Block(M, qbits, ign, N, E - 1) == G;
      AddScaleSucc(B0, G, Pow2(|qbits|), E);
    } else {
      AddScaleZero(B0, G, Pow2(|qbits|));
    }
  }

  /** Adding up the E blocks of an embedded operator G adds E copies of G to B0. */
  lemma BlocksOfEmbedded(B0: Matrix, G: Matrix, qbits: seq<nat>, N: nat, E: nat)
    requires Distinct(qbits) && Below(qbits, N) && IsSquare(G, Pow2(|qbits|)) && IsSquare(B0, Pow2(|qbits|))
    requires Partition(qbits, Complement(qbits, N), N) && E <= Pow2(|Complement(qbits, N)|)
    ensures BlocksFrom(B0, Embedded(G, qbits, N), qbits, Complement(qbits, N), N, E) == Add(B0, Scale(E, G))
  {
    forall e | 0 <= e < E
      ensures Block(Embedded(G, qbits, N), qbits, Complement(qbits, N), N, e) == G
    {
      BlockOfEmbedded(G, qbits, N, e);
    }
    BlocksConstant(B0, Embedded(G, qbits, N), qbits, Complement(qbits, N), N, E, G);
  }

  /**
   * With the zero start, submatrix of act(G, qbits, N) sums 2^(N-|qbits|) equal blocks: the
   * result is proportional to G on qbits, which the (left out) normalisation turns back into
   * the embedded G.
   */
  lemma SubmatrixOfEmbedded(G: Matrix, qbits: seq<nat>, N: nat)
    requires Distinct(qbits) && Below(qbits, N) && IsSquare(G, Pow2(|qbits|))
    ensures Partition(qbits, Complement(qbits, N), N)
    ensures BlocksFrom(Zero(Pow2(|qbits|), Pow2(|qbits|)), Embedded(G, qbits, N), qbits,
                       Complement(qbits, N), N, Pow2(|Complement(qbits, N)|))
            == Scale(Pow2(|Complement(qbits, N)|), G)
  {
    ComplementPartition(qbits, N);
    var k := Pow2(|Complement(qbits, N)|);
    BlocksOfEmbedded(Zero(Pow2(|qbits|), Pow2(|qbits|)), G, qbits, N, k);
    AddZeroLeft(Scale(k, G), Pow2(|qbits|));
  }

  /**
   * With the identity start of qp-math.cpp:171 the same input gives I + 2 G for the one-qubit
   * G = diag(1, -1) on qubit 0 of 2, which is no multiple of G: the extracted operator is wrong.
   */
  lemma SubmatrixAsWrittenCounterexample()
    ensures Partition([0], Complement([0], 2), 2)
    ensures IsSquare([[1, 0], [0, -1]], Pow2(|[0]|))
    ensures BlocksFrom(Identity(2), Embedded([[1, 0], [0, -1]], [0], 2), [0],
                       Complement([0], 2), 2, Pow2(|Complement([0], 2)|)) == [[3, 0], [0, -1]]
    ensures forall c :: Scale(c, [[1, 0], [0, -1]]) != [[3, 0], [0, -1]]
  {
    var G: Matrix := [[1, 0], [0, -1]];
    ComplementPartition([0], 2);
    ComplementOfFirst();
    assert Pow2(1) == 2;
    BlocksOfEmbedded(Identity(2), G, [0], 2, 2);
    IdentityPlusTwice();
    NoMultiple();
  }

  lemma ComplementOfFirst()
    ensures Complement([0], 2) == [1]
  {
    assert InVector(0, [0]);
    assert !InVector(1, [0]);
  }

  /** diag(3, -1) is no multiple of diag(1, -1). */
  lemma NoMultiple()
    ensures forall c :: Scale(c, [[1, 0], [0, -1]]) != [[3, 0], [0, -1]]
  {
    var G: Matrix := [[1, 0], [0, -1]];
    forall c
      ensures Scale(c, G) != [[3, 0], [0, -1]]
    {
      assert Scale(c, G)[0][0] == c && Scale(c, G)[1][1] == -c;
    }
  }

  lemma IdentityPlusTwice()
    ensures Add(Identity(2), Scale(2, [[1, 0], [0, -1]])) == [[3, 0], [0, -1]]
  {
    var R := Add(Identity(2), Scale(2, [[1, 0], [0, -1]]));
    assert R[0] == [3, 0];
    assert R[1] == [0, -1];
  }
}
