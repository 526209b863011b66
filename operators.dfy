/**
 * The remaining operator helpers of qp-math.cpp: the Kronecker fold `tp` over a list of
 * factors, the Pauli-string label of a basis element (U_basis_element_text) and the row-major
 * scan of get_phase.
 */
module Operators {
  import opened Wrappers
  import opened Bits
  import opened Matrices

  /** A matrix with at least one row, all rows as long as the first and non-empty. */
  predicate WellFormed(A: Matrix)
  {
    |A| >= 1 && |A[0]| >= 1 && IsMatrix(A, |A|, |A[0]|)
  }

  function RowProduct(list: seq<Matrix>): (r: nat)
    requires forall k :: 0 <= k < |list| ==> WellFormed(list[k])
    ensures r >= 1
  {
    if |list| == 0 then 1
    else
      assert WellFormed(list[|list| - 1]);
      var r0 := RowProduct(list[..|list| - 1]);
      MulMono(1, r0, |list[|list| - 1]|);
      r0 * |list[|list| - 1]|
  }

  function ColProduct(list: seq<Matrix>): (r: nat)
    requires forall k :: 0 <= k < |list| ==> WellFormed(list[k])
    ensures r >= 1
  {
    if |list| == 0 then 1
    else
      assert WellFormed(list[|list| - 1]);
      var c0 := ColProduct(list[..|list| - 1]);
      MulMono(1, c0, |list[|list| - 1][0]|);
      c0 * |list[|list| - 1][0]|
  }

  /**
   * tp(list): the Kronecker product of the factors, folded from the 1 x 1 identity.  Its
   * dimensions are the products of the factors' dimensions.
   */
  function TpFold(list: seq<Matrix>): (T: Matrix)
    requires forall k :: 0 <= k < |list| ==> WellFormed(list[k])
    ensures WellFormed(T) && |T| == RowProduct(list) && |T[0]| == ColProduct(list)
  {
    if |list| == 0 then Identity(1)
    else
      var init := list[..|list| - 1];
      var last := list[|list| - 1];
      assert WellFormed(last);
      var T0 := TpFold(init);
      MulMono(1, |T0|, |last|);
      MulMono(1, |T0[0]|, |last[0]|);
      Kron(T0, last, |T0|, |T0[0]|, |last|, |last[0]|)
  }

  /** The loop of tp (qp-math.cpp:20-26): `out = tp(out, elem)` for each factor in turn. */
  method Tp(list: seq<Matrix>) returns (out: Matrix)
    requires forall k :: 0 <= k < |list| ==> WellFormed(list[k])
    ensures out == TpFold(list)
    ensures |out| == RowProduct(list) && |out[0]| == ColProduct(list)
  {
    out := Identity(1);
    var k := 0;
    while k < |list|
      invariant 0 <= k <= |list|
      invariant out == TpFold(list[..k])
    {
      assert list[..k + 1][..k] == list[..k];
      var elem := list[k];
      out := Kron(out, elem, |out|, |out[0]|, |elem|, |elem[0]|);
      k := k + 1;
    }
    assert list[..|list|] == list;
  }

  /** A single factor folds to itself, and no factor at all to I1. */
  lemma TpFoldSingle(A: Matrix)
    requires WellFormed(A)
    ensures TpFold([A]) == A
    ensures TpFold([]) == Identity(1)
  {
    assert [A][..0] == [];
    KronUnitLeft(A, |A|, |A[0]|);
  }

  /** The Pauli digit of qubit n in basis element p: int_bit(p,2n) + 2 int_bit(p,2n+1). */
  function Digit(p: nat, n: nat): (d: nat)
    ensures d < 4
  {
    (if IntBit(p, 2 * n) then 1 else 0) + 2 * (if IntBit(p, 2 * n + 1) then 1 else 0)
  }

  const Letters: string := "IXYZ"

  /** The label the loop of U_basis_element_text builds: one letter per qubit. */
  function BasisText(p: nat, N: nat): (text: string)
    ensures |text| == N
  {
    seq(N, n requires 0 <= n < N => Letters[Digit(p, n)])
  }

  /** U_basis_element_text: stream one letter of "IXYZ" per qubit n < N. */
  method BasisElementText(p: nat, N: nat) returns (text: string)
    ensures text == BasisText(p, N)
    ensures |text| == N && forall n :: 0 <= n < N ==> text[n] in Letters
  {
    text := "";
    var n := 0;
    while n < N
      invariant 0 <= n <= N
      invariant text == BasisText(p, N)[..n]
    {
      text := text + [Letters[Digit(p, n)]];
      n := n + 1;
    }
  }

  /** The digit of a letter of "IXYZ". */
  function LetterValue(ch: char): (d: nat)
    ensures d < 4
  {
    if ch == 'X' then 1 else if ch == 'Y' then 2 else if ch == 'Z' then 3 else 0
  }

  /** The basis element a label names, its first letter being the least significant digit. */
  function LabelValue(text: string): nat
  {
    if |text| == 0 then 0 else LetterValue(text[0]) + 4 * LabelValue(text[1..])
  }

  lemma DivFour(p: nat)
    ensures p / 2 / 2 == p / 4
    ensures p % 4 == 2 * ((p / 2) % 2) + p % 2
  {
    DivUnique(p, 4, (p / 2) / 2, 2 * ((p / 2) % 2) + p % 2);
  }

  /** The lowest digit of p is p % 4 ... */
  lemma DigitZero(p: nat)
    ensures Digit(p, 0) == p % 4
  {
    IntBitIsShift(p, 0);
    IntBitIsShift(p, 1);
    DivFour(p);
  }

  /** ... and digit n+1 of p is digit n of p / 4. */
  lemma DigitShift(p: nat, n: nat)
    ensures Digit(p, n + 1) == Digit(p / 4, n)
  {
    IntBitStep(p, 2 * n + 1);
    IntBitStep(p / 2, 2 * n);
    IntBitStep(p, 2 * n + 2);
    IntBitStep(p / 2, 2 * n + 1);
    DivFour(p);
  }

  /** Reading a label back gives the basis element it was printed for (p < 4^N). */
  lemma {:induction false} LabelRoundTrip(p: nat, N: nat)
    requires p < Pow2(2 * N)
    ensures LabelValue(BasisText(p, N)) == p
  {
    if N > 0 {
      var t := BasisText(p, N);
      DigitZero(p);
      forall n | 0 <= n < N - 1
        ensures t[1..][n] == BasisText(p / 4, N - 1)[n]
      {
        DigitShift(p, n);
      }
      assert t[1..] == BasisText(p / 4, N - 1);
      assert Pow2(2 * N) == 4 * Pow2(2 * (N - 1));
      LabelRoundTrip(p / 4, N - 1);
      assert LetterValue(Letters[p % 4]) == p % 4;
    }
  }

  function Abs(x: int): nat
  {
    if x < 0 then -x else x
  }

  /** Whether (i, j) comes before (m, n) in row-major order. */
  predicate RowMajorBefore(i: nat, j: nat, m: nat, n: nat)
  {
    i < m || (i == m && j < n)
  }

  /**
   * The scan of get_phase (qp-math.cpp:41-51): the first entry in row-major order whose
   * magnitude exceeds the threshold, or None when there is none (the source then returns 1).
   */
  method PhaseEntry(A: Matrix, cols: nat, threshold: int) returns (pos: Option<(nat, nat)>)
    requires IsMatrix(A, |A|, cols)
    ensures pos.Some? ==> pos.value.0 < |A| && pos.value.1 < cols
                          && Abs(A[pos.value.0][pos.value.1]) > threshold
    ensures pos.Some? ==>
      forall i, j :: (0 <= i < |A| && 0 <= j < cols && RowMajorBefore(i, j, pos.value.0, pos.value.1))
        ==> Abs(A[i][j]) <= threshold
    ensures pos.None? ==> forall i, j :: 0 <= i < |A| && 0 <= j < cols ==> Abs(A[i][j]) <= threshold
  {
    var m := 0;
    while m < |A|
      invariant 0 <= m <= |A|
      invariant forall i, j :: 0 <= i < m && 0 <= j < cols ==> Abs(A[i][j]) <= threshold
    {
      var n := 0;
      while n < cols
        invariant 0 <= n <= cols
        invariant forall i, j :: 0 <= i < m && 0 <= j < cols ==> Abs(A[i][j]) <= threshold
        invariant forall j :: 0 <= j < n ==> Abs(A[m][j]) <= threshold
      {
        if Abs(A[m][n]) > threshold {
          return Some((m, n));
        }
        n := n + 1;
      }
      m := m + 1;
    }
    return None;
  }
}
