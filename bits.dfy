/**
 * Bit helpers of the operator library (qp-math.h): the n-th bit of an integer, the state of
 * qubit q of an N-qubit basis index (qubit 0 is the most significant bit) and the weight of
 * qubit q.  FromBits/ToBits give the bit-vector view (most significant bit first) that the
 * index bijections of act, ptrace and submatrix are proved with; ScatterSum is the running
 * index accumulator those functions use (`b_m += bit_int(qs.at(q), N)`).
 */
module Bits {

  /** 2^n, as `pow(2,n)` computes it for the small exponents used here. */
  function Pow2(n: nat): (r: nat)
    ensures r >= 1
  {
    if n == 0 then 1 else 2 * Pow2(n - 1)
  }

  /** int_bit: the n-th bit of num, with the early return when 2^n exceeds num. */
  function IntBit(num: nat, n: nat): bool
  {
    if Pow2(n) > num then false else (num / Pow2(n)) % 2 == 1
  }

  /**
   * qbit_state: the state of qubit q out of N in basis index s, i.e. bit N-1-q.  For q >= N
   * the unsigned exponent N-1-q wraps to a huge value, pow overflows to infinity and the
   * early return of int_bit answers false.
   */
  function QbitState(q: nat, N: nat, s: nat): bool
  {
    q < N && IntBit(s, N - 1 - q)
  }

  /** bit_int: the basis index with only qubit q (of N) on, 2^(N-1-q). */
  function BitInt(q: nat, N: nat): nat
    requires q < N
  {
    Pow2(N - 1 - q)
  }

  /** in_vector: whether val occurs in vec (a linear std::find). */
  function InVector<T(==)>(val: T, vec: seq<T>): (r: bool)
    ensures r <==> exists i :: 0 <= i < |vec| && vec[i] == val
  {
    if |vec| == 0 then false
    else if vec[0] == val then true
    else (assert forall i :: 1 <= i < |vec| ==> vec[1..][i - 1] == vec[i];
          InVector(val, vec[1..]))
  }

  lemma Pow2Add(a: nat, b: nat)
    ensures Pow2(a + b) == Pow2(a) * Pow2(b)
  {
    if a > 0 {
      Pow2Add(a - 1, b);
    }
  }

  lemma DivUnique(x: nat, d: nat, q: nat, r: nat)
    requires 0 <= r < d && x == q * d + r
    ensures x / d == q && x % d == r
  {
    var q', r' := x / d, x % d;
    assert x == q' * d + r';
    if q' > q {
      MulMono(q + 1, q', d);
      assert false;
    } else if q' < q {
      MulMono(q' + 1, q, d);
      assert false;
    }
  }

  lemma MulMono(a: nat, b: nat, d: nat)
    requires a <= b
    ensures a * d <= b * d
  {
    assert b * d == a * d + (b - a) * d;
  }

  /** Dividing by 2^(e+1) is halving and then dividing by 2^e. */
  lemma DivPow2Step(x: nat, e: nat)
    ensures x / Pow2(e + 1) == (x / 2) / Pow2(e)
  {
    var p := Pow2(e);
    var h := x / 2;
    var q := h / p;
    var r := h % p;
    assert h == q * p + r;
    assert x == q * (2 * p) + (2 * r + x % 2);
    DivUnique(x, 2 * p, q, 2 * r + x % 2);
  }

  /** The early return of int_bit agrees with the shift `(num >> n) & 1`. */
  lemma IntBitIsShift(num: nat, n: nat)
    ensures IntBit(num, n) == ((num / Pow2(n)) % 2 == 1)
  {
    if Pow2(n) > num {
      DivUnique(num, Pow2(n), 0, num);
    }
  }

  lemma IntBitStep(x: nat, e: nat)
    ensures IntBit(x, e + 1) == IntBit(x / 2, e)
  {
    IntBitIsShift(x, e + 1);
    IntBitIsShift(x / 2, e);
    DivPow2Step(x, e);
  }

  /** The value of a bit vector read most significant bit first. */
  function FromBits(v: seq<bool>): nat
  {
    if |v| == 0 then 0 else 2 * FromBits(v[..|v| - 1]) + (if v[|v| - 1] then 1 else 0)
  }

  /** The N qubit states of basis index x, qubit 0 first. */
  function ToBits(x: nat, N: nat): (v: seq<bool>)
    ensures |v| == N
  {
    seq(N, q requires 0 <= q < N => QbitState(q, N, x))
  }

  lemma {:induction false} FromBitsBound(v: seq<bool>)
    ensures FromBits(v) < Pow2(|v|)
  {
    if |v| > 0 {
      FromBitsBound(v[..|v| - 1]);
    }
  }

  /** Reading qubit q of the value of a bit vector gives back entry q. */
  lemma {:induction false} FromBitsQbit(v: seq<bool>, q: nat)
    requires q < |v|
    ensures QbitState(q, |v|, FromBits(v)) == v[q]
  {
    var n := |v|;
    var w := v[..n - 1];
    var x := FromBits(v);
    assert x / 2 == FromBits(w);
    if q == n - 1 {
      IntBitIsShift(x, 0);
    } else {
      IntBitStep(x, n - 2 - q);
      FromBitsQbit(w, q);
    }
  }

  lemma {:induction false} ToBitsStep(x: nat, N: nat)
    requires N > 0
    ensures ToBits(x, N)[..N - 1] == ToBits(x / 2, N - 1)
    ensures ToBits(x, N)[N - 1] == (x % 2 == 1)
  {
    forall q | 0 <= q < N - 1
      ensures ToBits(x, N)[q] == ToBits(x / 2, N - 1)[q]
    {
      IntBitStep(x, N - 2 - q);
    }
    IntBitIsShift(x, 0);
  }

  /** Every x < 2^N is the value of its own N qubit states. */
  lemma {:induction false} FromToBits(x: nat, N: nat)
    requires x < Pow2(N)
    ensures FromBits(ToBits(x, N)) == x
  {
    if N > 0 {
      ToBitsStep(x, N);
      FromToBits(x / 2, N - 1);
    }
  }

  /** Two N-qubit basis indices with the same qubit states are equal. */
  lemma SameQbitsSameIndex(x: nat, y: nat, N: nat)
    requires x < Pow2(N) && y < Pow2(N)
    requires forall q :: 0 <= q < N ==> QbitState(q, N, x) == QbitState(q, N, y)
    ensures x == y
  {
    assert ToBits(x, N) == ToBits(y, N);
    FromToBits(x, N);
    FromToBits(y, N);
  }

  /** Switching on an off bit p adds its weight 2^(|v|-1-p), with no carry. */
  lemma {:induction false} FromBitsSetBit(v: seq<bool>, p: nat)
    requires p < |v| && !v[p]
    ensures FromBits(v[p := true]) == FromBits(v) + Pow2(|v| - 1 - p)
  {
    var n := |v|;
    if p < n - 1 {
      assert v[p := true][..n - 1] == v[..n - 1][p := true];
      FromBitsSetBit(v[..n - 1], p);
    } else {
      assert v[p := true][..n - 1] == v[..n - 1];
    }
  }

  predicate Distinct(s: seq<nat>)
  {
    forall i, j :: 0 <= i < j < |s| ==> s[i] != s[j]
  }

  predicate Below(s: seq<nat>, N: nat)
  {
    forall i :: 0 <= i < |s| ==> s[i] < N
  }

  /**
   * The running accumulator of act/ptrace/submatrix: the weights of the positions pos[q]
   * whose bit q is on, added up in order.
   */
  function ScatterSum(bits: seq<bool>, pos: seq<nat>, N: nat): nat
    requires |bits| == |pos| && Below(pos, N)
  {
    if |bits| == 0 then 0
    else
      ScatterSum(bits[..|bits| - 1], pos[..|pos| - 1], N)
      + (if bits[|bits| - 1] then BitInt(pos[|pos| - 1], N) else 0)
  }

  /** The N-bit vector with bit pos[q] set to bits[q]. */
  function Placed(bits: seq<bool>, pos: seq<nat>, N: nat): (v: seq<bool>)
    requires |bits| == |pos| && Below(pos, N)
    ensures |v| == N
  {
    if |bits| == 0 then seq(N, p => false)
    else
      var w := Placed(bits[..|bits| - 1], pos[..|pos| - 1], N);
      if bits[|bits| - 1] then w[pos[|pos| - 1] := true] else w
  }

  lemma {:induction false} PlacedAt(bits: seq<bool>, pos: seq<nat>, N: nat, p: nat)
    requires |bits| == |pos| && Below(pos, N) && p < N
    ensures Placed(bits, pos, N)[p] <==> exists q :: 0 <= q < |pos| && pos[q] == p && bits[q]
  {
    if |bits| > 0 {
      var k := |bits| - 1;
      PlacedAt(bits[..k], pos[..k], N, p);
      if Placed(bits, pos, N)[p] && p != pos[k] {
        var q :| 0 <= q < k && pos[..k][q] == p && bits[..k][q];
        assert pos[q] == p && bits[q];
      }
      if exists q :: 0 <= q < |pos| && pos[q] == p && bits[q] {
        var q :| 0 <= q < |pos| && pos[q] == p && bits[q];
        if q < k {
          assert pos[..k][q] == p && bits[..k][q];
        }
      }
    }
  }

  lemma {:induction false} ScatterSumIsPlaced(bits: seq<bool>, pos: seq<nat>, N: nat)
    requires |bits| == |pos| && Below(pos, N) && Distinct(pos)
    ensures ScatterSum(bits, pos, N) == FromBits(Placed(bits, pos, N))
  {
    if |bits| == 0 {
      assert FromBits(seq(N, p => false)) == 0 by {
        AllOffIsZero(N);
      }
    } else {
      var k := |bits| - 1;
      ScatterSumIsPlaced(bits[..k], pos[..k], N);
      if bits[k] {
        PlacedAt(bits[..k], pos[..k], N, pos[k]);
        FromBitsSetBit(Placed(bits[..k], pos[..k], N), pos[k]);
      }
    }
  }

  lemma {:induction false} AllOffIsZero(N: nat)
    ensures FromBits(seq(N, p => false)) == 0
  {
    if N > 0 {
      assert seq(N, p => false)[..N - 1] == seq(N - 1, p => false);
      AllOffIsZero(N - 1);
    }
  }

  /**
   * Scattering bits into distinct positions below N yields an N-qubit index whose qubit
   * pos[q] is bits[q] and whose other qubits are off.
   */
  lemma ScatterSumQbits(bits: seq<bool>, pos: seq<nat>, N: nat)
    requires |bits| == |pos| && Below(pos, N) && Distinct(pos)
    ensures ScatterSum(bits, pos, N) < Pow2(N)
    ensures forall q :: 0 <= q < |pos| ==> QbitState(pos[q], N, ScatterSum(bits, pos, N)) == bits[q]
    ensures forall p :: 0 <= p < N && p !in pos ==> !QbitState(p, N, ScatterSum(bits, pos, N))
  {
    var v := Placed(bits, pos, N);
    var x := ScatterSum(bits, pos, N);
    ScatterSumIsPlaced(bits, pos, N);
    FromBitsBound(v);
    forall q | 0 <= q < |pos|
      ensures QbitState(pos[q], N, x) == bits[q]
    {
      FromBitsQbit(v, pos[q]);
      PlacedOwn(bits, pos, N, q);
    }
    forall p | 0 <= p < N && p !in pos
      ensures !QbitState(p, N, x)
    {
      FromBitsQbit(v, p);
      PlacedAt(bits, pos, N, p);
    }
  }

  /** With distinct positions, the placed qubit pos[q] is bits[q]. */
  lemma PlacedOwn(bits: seq<bool>, pos: seq<nat>, N: nat, q: nat)
    requires |bits| == |pos| && Below(pos, N) && Distinct(pos) && q < |pos|
    ensures Placed(bits, pos, N)[pos[q]] == bits[q]
  {
    PlacedAt(bits, pos, N, pos[q]);
    if Placed(bits, pos, N)[pos[q]] {
      var r :| 0 <= r < |pos| && pos[r] == pos[q] && bits[r];
      assert r == q;
    }
  }

  /** Accumulating two position lists one after the other adds their sums. */
  lemma {:induction false} ScatterSumAppend(b1: seq<bool>, p1: seq<nat>, b2: seq<bool>, p2: seq<nat>, N: nat)
    requires |b1| == |p1| && Below(p1, N) && |b2| == |p2| && Below(p2, N)
    ensures Below(p1 + p2, N)
    ensures ScatterSum(b1 + b2, p1 + p2, N) == ScatterSum(b1, p1, N) + ScatterSum(b2, p2, N)
  {
    if |b2| > 0 {
      var k := |b2| - 1;
      assert (b1 + b2)[..|b1| + k] == b1 + b2[..k];
      assert (p1 + p2)[..|p1| + k] == p1 + p2[..k];
      ScatterSumAppend(b1, p1, b2[..k], p2[..k], N);
    } else {
      assert b1 + b2 == b1 && p1 + p2 == p1;
    }
  }

  /** 0, 1, ..., N-1 */
  function Range(N: nat): (r: seq<nat>)
    ensures |r| == N && forall i :: 0 <= i < N ==> r[i] == i
  {
    seq(N, i => i)
  }

  /**
   * Every s < 2^N is the sum of bit_int(q,N) over the qubits q that are on in s: the
   * accumulator with the identity position map rebuilds s.
   */
  lemma BitDecomposition(s: nat, N: nat)
    requires s < Pow2(N)
    ensures ScatterSum(ToBits(s, N), Range(N), N) == s
  {
    var r := ScatterSum(ToBits(s, N), Range(N), N);
    ScatterSumQbits(ToBits(s, N), Range(N), N);
    forall q | 0 <= q < N
      ensures QbitState(q, N, r) == QbitState(q, N, s)
    {
      assert Range(N)[q] == q;
    }
    SameQbitsSameIndex(r, s, N);
  }

  /** For q < N, bit_int(q,N) has qubit q' on exactly when q' == q. */
  lemma BitIntQbits(q: nat, N: nat, q': nat)
    requires q < N
    ensures QbitState(q', N, BitInt(q, N)) <==> q' == q
  {
    var bits := [true];
    var pos := [q];
    assert ScatterSum(bits, pos, N) == BitInt(q, N) by {
      assert bits[..0] == [] && pos[..0] == [];
    }
    ScatterSumQbits(bits, pos, N);
    if q' < N && q' != q {
      assert q' !in pos;
    }
  }
}
