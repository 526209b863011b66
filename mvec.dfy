/**
 * The mvec container of qp-math.h:71-137: a vector of matrices (one per spatial direction of
 * a spin operator) with element-wise arithmetic that updates the receiver in place, inner
 * products with a 3-vector and with another mvec, and the left product G*v of qp-math.cpp.
 * The element-wise results are specified by the functions below.
 */
module MatrixVectors {
  import opened Matrices

  predicate ShapesMatch(v: seq<Matrix>, w: seq<Matrix>)
  {
    |v| == |w| && forall i :: 0 <= i < |v| ==> SameShape(v[i], w[i])
  }

  predicate AllSquare(v: seq<Matrix>, n: nat)
  {
    forall i :: 0 <= i < |v| ==> IsSquare(v[i], n)
  }

  function AddEach(v: seq<Matrix>, w: seq<Matrix>): (u: seq<Matrix>)
    requires ShapesMatch(v, w)
    ensures |u| == |v| && forall i :: 0 <= i < |v| ==> u[i] == Add(v[i], w[i])
  {
    seq(|v|, i requires 0 <= i < |v| => Add(v[i], w[i]))
  }

  function SubEach(v: seq<Matrix>, w: seq<Matrix>): (u: seq<Matrix>)
    requires ShapesMatch(v, w)
    ensures |u| == |v| && forall i :: 0 <= i < |v| ==> u[i] == Sub(v[i], w[i])
  {
    seq(|v|, i requires 0 <= i < |v| => Sub(v[i], w[i]))
  }

  function ScaleEach(s: int, v: seq<Matrix>): (u: seq<Matrix>)
    ensures |u| == |v| && forall i :: 0 <= i < |v| ==> u[i] == Scale(s, v[i])
  {
    seq(|v|, i requires 0 <= i < |v| => Scale(s, v[i]))
  }

  /** Every component multiplied by G on the right (`v.at(i) *= G`). */
  function MulEach(v: seq<Matrix>, G: Matrix, n: nat): (u: seq<Matrix>)
    requires AllSquare(v, n) && IsSquare(G, n)
    ensures |u| == |v| && AllSquare(u, n)
    ensures forall i :: 0 <= i < |v| ==> u[i] == Mul(v[i], G, n, n, n)
  {
    seq(|v|, i requires 0 <= i < |v| => Mul(v[i], G, n, n, n))
  }

  /** Every component multiplied by G on the left (operator*(G, mvec)). */
  function LeftMulEach(G: Matrix, v: seq<Matrix>, n: nat): (u: seq<Matrix>)
    requires AllSquare(v, n) && IsSquare(G, n)
    ensures |u| == |v| && AllSquare(u, n)
    ensures forall i :: 0 <= i < |v| ==> u[i] == Mul(G, v[i], n, n, n)
  {
    seq(|v|, i requires 0 <= i < |v| => Mul(G, v[i], n, n, n))
  }

  /** dot(r): v0 r0 + v1 r1 + v2 r2. */
  function DotVector(v: seq<Matrix>, r: seq<int>): Matrix
    requires |v| == 3 && |r| == 3 && SameShape(v[0], v[1]) && SameShape(v[0], v[2])
  {
    Add(Add(Scale(r[0], v[0]), Scale(r[1], v[1])), Scale(r[2], v[2]))
  }

  /** tp(v0,w0) + tp(v1,w1) + ... + tp(v_{k-1},w_{k-1}), starting from the first term. */
  function KronSum(v: seq<Matrix>, w: seq<Matrix>, n: nat, m: nat, k: nat): (M: Matrix)
    requires AllSquare(v, n) && AllSquare(w, m) && 1 <= k <= |v| && |v| == |w|
    ensures IsSquare(M, n * m)
  {
    if k == 1 then Kron(v[0], w[0], n, n, m, m)
    else Add(KronSum(v, w, n, m, k - 1), Kron(v[k - 1], w[k - 1], n, n, m, m))
  }

  /** Adding w and then subtracting it gives the components back. */
  lemma SubEachAddEach(v: seq<Matrix>, w: seq<Matrix>)
    requires ShapesMatch(v, w)
    ensures ShapesMatch(AddEach(v, w), w)
    ensures SubEach(AddEach(v, w), w) == v
  {
    var u := SubEach(AddEach(v, w), w);
    forall i | 0 <= i < |v|
      ensures u[i] == v[i]
    {
      var A := u[i];
      forall r | 0 <= r < |v[i]|
        ensures A[r] == v[i][r]
      {
      }
    }
  }

  /** Multiplying every component by the identity changes nothing. */
  lemma MulEachIdentity(v: seq<Matrix>, n: nat)
    requires AllSquare(v, n)
    ensures MulEach(v, Identity(n), n) == v
  {
    forall i | 0 <= i < |v|
      ensures MulEach(v, Identity(n), n)[i] == v[i]
    {
      MulIdentityRight(v[i], n);
    }
  }

  /**
   * The inner product of mvec(A, x) with r is (x . r) A: the three scaled copies of A add up
   * to one copy scaled by the dot product of the two 3-vectors.
   */
  lemma DotVectorOfScaled(A: Matrix, x: seq<int>, r: seq<int>)
    requires |x| == 3 && |r| == 3
    ensures DotVector([Scale(x[0], A), Scale(x[1], A), Scale(x[2], A)], r)
            == Scale(x[0] * r[0] + x[1] * r[1] + x[2] * r[2], A)
  {
    var v := [Scale(x[0], A), Scale(x[1], A), Scale(x[2], A)];
    var L := DotVector(v, r);
    var R := Scale(x[0] * r[0] + x[1] * r[1] + x[2] * r[2], A);
    forall i | 0 <= i < |A|
      ensures L[i] == R[i]
    {
      forall j | 0 <= j < |A[i]|
        ensures L[i][j] == R[i][j]
      {
        var a := A[i][j];
        assert r[0] * (x[0] * a) + r[1] * (x[1] * a) + r[2] * (x[2] * a)
          == (x[0] * r[0] + x[1] * r[1] + x[2] * r[2]) * a;
      }
    }
  }

  /** dot(v, w) is additive in w. */
  lemma {:induction false} KronSumAddRight(v: seq<Matrix>, w1: seq<Matrix>, w2: seq<Matrix>, n: nat, m: nat, k: nat)
    requires AllSquare(v, n) && AllSquare(w1, m) && AllSquare(w2, m)
    requires 1 <= k <= |v| && |v| == |w1| == |w2|
    ensures ShapesMatch(w1, w2) && AllSquare(AddEach(w1, w2), m)
    ensures KronSum(v, AddEach(w1, w2), n, m, k) == Add(KronSum(v, w1, n, m, k), KronSum(v, w2, n, m, k))
  {
    var w := AddEach(w1, w2);
    KronAddRight(v[k - 1], w1[k - 1], w2[k - 1], n, n, m, m);
    if k > 1 {
      KronSumAddRight(v, w1, w2, n, m, k - 1);
      AddRegroup(KronSum(v, w1, n, m, k - 1), KronSum(v, w2, n, m, k - 1),
                 Kron(v[k - 1], w1[k - 1], n, n, m, m), Kron(v[k - 1], w2[k - 1], n, n, m, m));
    }
  }

  class MVec {
    var v: seq<Matrix>

    /** mvec(): no components. */
    constructor Empty()
      ensures v == []
    {
      v := [];
    }

    /** mvec(v): the given components. */
    constructor (components: seq<Matrix>)
      ensures v == components
    {
      v := components;
    }

    /** mvec(v_mat, v_vec): the components v_mat * v_vec(i), pushed back for i = 0, 1, 2. */
    constructor FromScaled(vMat: Matrix, vVec: seq<int>)
      requires |vVec| == 3
      ensures v == [Scale(vVec[0], vMat), Scale(vVec[1], vMat), Scale(vVec[2], vMat)]
    {
      v := [];
      new;
      var i := 0;
      while i < |vVec|
        invariant 0 <= i <= |vVec|
        invariant |v| == i && forall k :: 0 <= k < i ==> v[k] == Scale(vVec[k], vMat)
      {
        v := v + [Scale(vVec[i], vMat)];
        i := i + 1;
      }
    }

    /** operator==: the sizes must agree; false as soon as one component differs. */
    method Equals(w: MVec) returns (r: bool)
      requires |v| == |w.v|
      ensures r <==> v == w.v
    {
      var i := 0;
      while i < |v|
        invariant 0 <= i <= |v|
        invariant forall k :: 0 <= k < i ==> v[k] == w.v[k]
      {
        if v[i] != w.v[i] {
          return false;
        }
        i := i + 1;
      }
      return true;
    }

    /** operator!=: the negation of ==. */
    method NotEquals(w: MVec) returns (r: bool)
      requires |v| == |w.v|
      ensures r <==> v != w.v
    {
      var same := Equals(w);
      r := !same;
    }

    /**
     * operator+: adds w component by component into this mvec and returns a copy of it.  w may
     * be this mvec itself: component i of w is read before it is updated.
     */
    method Plus(w: MVec) returns (copy: MVec)
      requires ShapesMatch(v, w.v)
      modifies this
      ensures v == AddEach(old(v), old(w.v))
      ensures fresh(copy) && copy.v == v
    {
      var i := 0;
      while i < |v|
        invariant 0 <= i <= |v| && |v| == |old(v)| && |w.v| == |old(w.v)|
        invariant forall k :: 0 <= k < i ==> v[k] == Add(old(v)[k], old(w.v)[k])
        invariant forall k :: i <= k < |v| ==> v[k] == old(v)[k] && w.v[k] == old(w.v)[k]
      {
        v := v[i := Add(v[i], w.v[i])];
        i := i + 1;
      }
      copy := new MVec(v);
    }

    /** operator-: subtracts w component by component in place and returns a copy. */
    method Minus(w: MVec) returns (copy: MVec)
      requires ShapesMatch(v, w.v)
      modifies this
      ensures v == SubEach(old(v), old(w.v))
      ensures fresh(copy) && copy.v == v
    {
      var i := 0;
      while i < |v|
        invariant 0 <= i <= |v| && |v| == |old(v)| && |w.v| == |old(w.v)|
        invariant forall k :: 0 <= k < i ==> v[k] == Sub(old(v)[k], old(w.v)[k])
        invariant forall k :: i <= k < |v| ==> v[k] == old(v)[k] && w.v[k] == old(w.v)[k]
      {
        v := v[i := Sub(v[i], w.v[i])];
        i := i + 1;
      }
      copy := new MVec(v);
    }

    /** operator*(s): scales every component in place and returns a copy. */
    method TimesScalar(s: int) returns (copy: MVec)
      modifies this
      ensures v == ScaleEach(s, old(v))
      ensures fresh(copy) && copy.v == v
    {
      var i := 0;
      while i < |v|
        invariant 0 <= i <= |v| && |v| == |old(v)|
        invariant forall k :: 0 <= k < i ==> v[k] == Scale(s, old(v)[k])
        invariant forall k :: i <= k < |v| ==> v[k] == old(v)[k]
      {
        v := v[i := Scale(s, v[i])];
        i := i + 1;
      }
      copy := new MVec(v);
    }

    /** operator*(G): multiplies every component by G on the right in place, returns a copy. */
    method TimesMatrix(G: Matrix, n: nat) returns (copy: MVec)
      requires AllSquare(v, n) && IsSquare(G, n)
      modifies this
      ensures v == MulEach(old(v), G, n)
      ensures fresh(copy) && copy.v == v
    {
      var i := 0;
      while i < |v|
        invariant 0 <= i <= |v| && |v| == |old(v)|
        invariant forall k :: 0 <= k < i ==> v[k] == Mul(old(v)[k], G, n, n, n)
        invariant forall k :: i <= k < |v| ==> v[k] == old(v)[k]
      {
        v := v[i := Mul(v[i], G, n, n, n)];
        i := i + 1;
      }
      copy := new MVec(v);
    }

    /** dot(r): requires exactly three components. */
    function Dot3(r: seq<int>): Matrix
      reads this
      requires |v| == 3 && |r| == 3 && SameShape(v[0], v[1]) && SameShape(v[0], v[2])
    {
      DotVector(v, r)
    }

    /** dot(w): tp(v0,w0) plus tp(vi,wi) for every further i. */
    method DotM(w: MVec, n: nat, m: nat) returns (out: Matrix)
      requires AllSquare(v, n) && AllSquare(w.v, m) && |v| == |w.v| >= 1
      ensures out == KronSum(v, w.v, n, m, |v|)
    {
      out := Kron(v[0], w.v[0], n, n, m, m);
      var i := 1;
      while i < |v|
        invariant 1 <= i <= |v|
        invariant out == KronSum(v, w.v, n, m, i)
      {
        out := Add(out, Kron(v[i], w.v[i], n, n, m, m));
        i := i + 1;
      }
    }
  }

  /** operator*(G, v) of qp-math.cpp:282-288: a new mvec of the products G * v_i. */
  method LeftMultiply(G: Matrix, vec: MVec, n: nat) returns (r: MVec)
    requires AllSquare(vec.v, n) && IsSquare(G, n)
    ensures fresh(r) && r.v == LeftMulEach(G, vec.v, n)
  {
    var out: seq<Matrix> := [];
    var i := 0;
    while i < |vec.v|
      invariant 0 <= i <= |vec.v|
      invariant |out| == i && forall k :: 0 <= k < i ==> out[k] == Mul(G, vec.v[k], n, n, n)
    {
      out := out + [Mul(G, vec.v[i], n, n, n)];
      i := i + 1;
    }
    r := new MVec(out);
  }
}
