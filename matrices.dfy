/**
 * Dense matrices standing in for Eigen's MatrixXcd.  The index logic of the operator library
 * does not depend on the entries being complex doubles, so entries here are mathematical
 * integers (a commutative ring).  Matrices are values, as MatrixXcd is: assignment copies.
 */
module Matrices {
  import opened Bits

  type Matrix = seq<seq<int>>

  predicate IsMatrix(A: Matrix, rows: nat, cols: nat)
  {
    |A| == rows && forall i :: 0 <= i < rows ==> |A[i]| == cols
  }

  predicate IsSquare(A: Matrix, n: nat)
  {
    IsMatrix(A, n, n)
  }

  function Zero(rows: nat, cols: nat): (Z: Matrix)
    ensures IsMatrix(Z, rows, cols)
    ensures forall i, j :: 0 <= i < rows && 0 <= j < cols ==> Z[i][j] == 0
  {
    seq(rows, i => seq(cols, j => 0))
  }

  function Identity(n: nat): (I: Matrix)
    ensures IsSquare(I, n)
    ensures forall i, j :: 0 <= i < n && 0 <= j < n ==> I[i][j] == (if i == j then 1 else 0)
  {
    seq(n, i => seq(n, j => if i == j then 1 else 0))
  }

  /** The matrix A with entry (i,j) replaced by x. */
  function SetEntry(A: Matrix, i: nat, j: nat, x: int): (B: Matrix)
    requires i < |A| && j < |A[i]|
    ensures |B| == |A| && forall r :: 0 <= r < |A| ==> |B[r]| == |A[r]|
    ensures forall r, c :: 0 <= r < |A| && 0 <= c < |A[r]| ==>
      B[r][c] == (if r == i && c == j then x else A[r][c])
  {
    A[i := A[i][j := x]]
  }

  function Add(A: Matrix, B: Matrix): (C: Matrix)
    requires |A| == |B| && forall i :: 0 <= i < |A| ==> |A[i]| == |B[i]|
    ensures |C| == |A| && forall i :: 0 <= i < |A| ==> |C[i]| == |A[i]|
    ensures forall i, j :: 0 <= i < |A| && 0 <= j < |A[i]| ==> C[i][j] == A[i][j] + B[i][j]
  {
    seq(|A|, i requires 0 <= i < |A| => seq(|A[i]|, j requires 0 <= j < |A[i]| => A[i][j] + B[i][j]))
  }

  function Sub(A: Matrix, B: Matrix): (C: Matrix)
    requires |A| == |B| && forall i :: 0 <= i < |A| ==> |A[i]| == |B[i]|
    ensures |C| == |A| && forall i :: 0 <= i < |A| ==> |C[i]| == |A[i]|
    ensures forall i, j :: 0 <= i < |A| && 0 <= j < |A[i]| ==> C[i][j] == A[i][j] - B[i][j]
  {
    seq(|A|, i requires 0 <= i < |A| => seq(|A[i]|, j requires 0 <= j < |A[i]| => A[i][j] - B[i][j]))
  }

  /** The scalar multiple s*A. */
  function Scale(s: int, A: Matrix): (C: Matrix)
    ensures |C| == |A| && forall i :: 0 <= i < |A| ==> |C[i]| == |A[i]|
    ensures forall i, j :: 0 <= i < |A| && 0 <= j < |A[i]| ==> C[i][j] == s * A[i][j]
  {
    seq(|A|, i requires 0 <= i < |A| => seq(|A[i]|, j requires 0 <= j < |A[i]| => s * A[i][j]))
  }

  /** Sum over l < len of A[i][l] * B[l][j]. */
  function RowTimesCol(A: Matrix, B: Matrix, i: nat, j: nat, len: nat): int
    requires i < |A| && len <= |A[i]| && len <= |B| && forall l :: 0 <= l < len ==> j < |B[l]|
  {
    if len == 0 then 0 else RowTimesCol(A, B, i, j, len - 1) + A[i][len - 1] * B[len - 1][j]
  }

  /** The matrix product A*B of an r x m and an m x c matrix. */
  function Mul(A: Matrix, B: Matrix, r: nat, m: nat, c: nat): (C: Matrix)
    requires IsMatrix(A, r, m) && IsMatrix(B, m, c)
    ensures IsMatrix(C, r, c)
    ensures forall i, j :: 0 <= i < r && 0 <= j < c ==> C[i][j] == RowTimesCol(A, B, i, j, m)
  {
    seq(r, i requires 0 <= i < r => seq(c, j requires 0 <= j < c => RowTimesCol(A, B, i, j, m)))
  }

  /** Sum of the first n diagonal entries. */
  function DiagSum(A: Matrix, n: nat): int
    requires n <= |A| && forall i :: 0 <= i < n ==> |A[i]| == |A|
  {
    if n == 0 then 0 else DiagSum(A, n - 1) + A[n - 1][n - 1]
  }

  function Trace(A: Matrix): int
    requires IsSquare(A, |A|)
  {
    DiagSum(A, |A|)
  }

  lemma DivBound(i: nat, b: nat, a: nat)
    requires b > 0 && i < a * b
    ensures i / b < a
  {
    var q := i / b;
    assert i == q * b + i % b;
    if q >= a {
      MulMono(a, q, b);
      assert false;
    }
  }

  /**
   * tp(A,B), Eigen's kroneckerProduct: the (ra*rb) x (ca*cb) matrix whose entry (i,j) is
   * A[i/rb][j/cb] * B[i%rb][j%cb].
   */
  function Kron(A: Matrix, B: Matrix, ra: nat, ca: nat, rb: nat, cb: nat): (C: Matrix)
    requires IsMatrix(A, ra, ca) && IsMatrix(B, rb, cb)
    ensures IsMatrix(C, ra * rb, ca * cb)
  {
    seq(ra * rb, i requires 0 <= i < ra * rb =>
      seq(ca * cb, j requires 0 <= j < ca * cb =>
        DivBound(i, rb, ra);
        DivBound(j, cb, ca);
        A[i / rb][j / cb] * B[i % rb][j % cb]))
  }

  /** The 1 x 1 identity is the unit of the Kronecker product. */
  lemma KronUnitLeft(A: Matrix, r: nat, c: nat)
    requires IsMatrix(A, r, c)
    ensures Kron(Identity(1), A, 1, 1, r, c) == A
  {
    var C := Kron(Identity(1), A, 1, 1, r, c);
    assert |C| == r;
    forall i | 0 <= i < r
      ensures C[i] == A[i]
    {
      assert |C[i]| == c;
      forall j | 0 <= j < c
        ensures C[i][j] == A[i][j]
      {
        DivUnique(i, r, 0, i);
        DivUnique(j, c, 0, j);
      }
    }
  }

  lemma AddZeroLeft(A: Matrix, n: nat)
    requires IsSquare(A, n)
    ensures Add(Zero(n, n), A) == A
  {
    var C := Add(Zero(n, n), A);
    forall i | 0 <= i < n
      ensures C[i] == A[i]
    {
    }
  }

  predicate SameShape(A: Matrix, B: Matrix)
  {
    |A| == |B| && forall i :: 0 <= i < |A| ==> |A[i]| == |B[i]|
  }

  lemma {:induction false} RowTimesIdentity(A: Matrix, n: nat, i: nat, j: nat, len: nat)
    requires IsSquare(A, n) && i < n && j < n && len <= n
    ensures RowTimesCol(A, Identity(n), i, j, len) == (if j < len then A[i][j] else 0)
  {
    if len > 0 {
      RowTimesIdentity(A, n, i, j, len - 1);
    }
  }

  /** The identity is a right unit of the product. */
  lemma MulIdentityRight(A: Matrix, n: nat)
    requires IsSquare(A, n)
    ensures Mul(A, Identity(n), n, n, n) == A
  {
    var C := Mul(A, Identity(n), n, n, n);
    forall i | 0 <= i < n
      ensures C[i] == A[i]
    {
      forall j | 0 <= j < n
        ensures C[i][j] == A[i][j]
      {
        RowTimesIdentity(A, n, i, j, n);
      }
    }
  }

  /** The Kronecker product distributes over a sum in its right factor. */
  lemma KronAddRight(A: Matrix, B1: Matrix, B2: Matrix, ra: nat, ca: nat, rb: nat, cb: nat)
    requires IsMatrix(A, ra, ca) && IsMatrix(B1, rb, cb) && IsMatrix(B2, rb, cb)
    ensures Kron(A, Add(B1, B2), ra, ca, rb, cb)
            == Add(Kron(A, B1, ra, ca, rb, cb), Kron(A, B2, ra, ca, rb, cb))
  {
    var L := Kron(A, Add(B1, B2), ra, ca, rb, cb);
    var R := Add(Kron(A, B1, ra, ca, rb, cb), Kron(A, B2, ra, ca, rb, cb));
    forall i | 0 <= i < ra * rb
      ensures L[i] == R[i]
    {
      forall j | 0 <= j < ca * cb
        ensures L[i][j] == R[i][j]
      {
        DivBound(i, rb, ra);
        DivBound(j, cb, ca);
        var a := A[i / rb][j / cb];
        assert a * (B1[i % rb][j % cb] + B2[i % rb][j % cb])
          == a * B1[i % rb][j % cb] + a * B2[i % rb][j % cb];
      }
    }
  }

  /** Adding no copies of G leaves B0 as it is. */
  lemma AddScaleZero(B0: Matrix, G: Matrix, n: nat)
    requires IsSquare(B0, n) && IsSquare(G, n)
    ensures Add(B0, Scale(0, G)) == B0
  {
    var S := Add(B0, Scale(0, G));
    forall r | 0 <= r < n
      ensures S[r] == B0[r]
    {
    }
  }

  /** Adding G to B0 plus E - 1 copies of G gives B0 plus E copies of G. */
  lemma AddScaleSucc(B0: Matrix, G: Matrix, n: nat, E: nat)
    requires IsSquare(B0, n) && IsSquare(G, n) && E >= 1
    ensures Add(Add(B0, Scale(E - 1, G)), G) == Add(B0, Scale(E, G))
  {
    var R := Add(Add(B0, Scale(E - 1, G)), G);
    var S := Add(B0, Scale(E, G));
    forall r | 0 <= r < n
      ensures R[r] == S[r]
    {
      forall c | 0 <= c < n
        ensures R[r][c] == S[r][c]
      {
        assert (E - 1) * G[r][c] + G[r][c] == E * G[r][c];
      }
    }
  }

  /** Sums of four matrices can be regrouped: (a + b) + (c + d) == (a + c) + (b + d). */
  lemma AddRegroup(a: Matrix, b: Matrix, c: Matrix, d: Matrix)
    requires SameShape(a, b) && SameShape(a, c) && SameShape(a, d)
    ensures Add(Add(a, b), Add(c, d)) == Add(Add(a, c), Add(b, d))
  {
    var L := Add(Add(a, b), Add(c, d));
    var R := Add(Add(a, c), Add(b, d));
    forall i | 0 <= i < |a|
      ensures L[i] == R[i]
    {
    }
  }
}
