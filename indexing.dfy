/**
 * The index bijections behind act, ptrace and submatrix (qp-math.cpp).  A list of qubits `pos`
 * out of N picks bits out of an N-qubit basis index (Gather/SubIndex), and the running
 * accumulators of the source put them back (Join).  When two lists of qubits partition 0..N-1,
 * splitting an index into its two sub-indices and joining them again are inverse maps.
 */
module QubitIndex {
  import opened Bits

  predicate Increasing(s: seq<nat>)
  {
    forall i, j :: 0 <= i < j < |s| ==> s[i] < s[j]
  }

  /**
   * The qubits below n that are not in qs, in ascending order: qs_ignore in act,
   * qs_keep in ptrace and ignored_qbits in submatrix.
   */
  function Complement(qs: seq<nat>, n: nat): (c: seq<nat>)
    ensures Increasing(c) && Below(c, n)
    ensures forall p: nat :: p in c <==> p < n && p !in qs
  {
    if n == 0 then []
    else
      var c := Complement(qs, n - 1);
      if InVector(n - 1, qs) then c else c + [n - 1]
  }

  /** The loop of act (lines 77-82), ptrace (123-126) and submatrix (164-169). */
  method Unlisted(qs: seq<nat>, n: nat) returns (c: seq<nat>)
    ensures c == Complement(qs, n)
  {
    c := [];
    var i := 0;
    while i < n
      invariant 0 <= i <= n
      invariant c == Complement(qs, i)
    {
      if !InVector(i, qs) {
        c := c + [i];
      }
      i := i + 1;
    }
  }

  /** The elements of s, as a set. */
  function Elems(s: seq<nat>): set<nat>
  {
    set x | x in s
  }

  lemma {:induction false} DistinctCard(s: seq<nat>)
    requires Distinct(s)
    ensures |Elems(s)| == |s|
  {
    if |s| > 0 {
      var k := |s| - 1;
      assert Distinct(s[..k]);
      DistinctCard(s[..k]);
      assert s == s[..k] + [s[k]];
      assert Elems(s) == Elems(s[..k]) + {s[k]};
      assert s[k] !in Elems(s[..k]);
    }
  }

  /** The source's size check `qbits_new == qs_keep.size()` (qp-math.cpp:127) holds. */
  lemma ComplementSize(qs: seq<nat>, N: nat)
    requires Distinct(qs) && Below(qs, N)
    ensures |Complement(qs, N)| == N - |qs|
    ensures |qs| <= N
  {
    var c := Complement(qs, N);
    DistinctCard(qs);
    DistinctCard(c);
    DistinctCard(Range(N));
    assert Elems(qs) !! Elems(c);
    assert Elems(Range(N)) == Elems(qs) + Elems(c) by {
      forall x: nat
        ensures x in Elems(Range(N)) <==> x in Elems(qs) || x in Elems(c)
      {
        if x in Elems(qs) {
          var i :| 0 <= i < |qs| && qs[i] == x;
          assert x < N;
        }
        if x < N {
          assert Range(N)[x] == x;
        }
      }
    }
    DisjointUnionCard(Elems(qs), Elems(c), Elems(Range(N)));
  }

  lemma DisjointUnionCard(a: set<nat>, b: set<nat>, u: set<nat>)
    requires a !! b && u == a + b
    ensures |u| == |a| + |b|
  {
  }

  /** The two lists of qubits a and b partition 0..N-1. */
  predicate Partition(a: seq<nat>, b: seq<nat>, N: nat)
  {
    Below(a, N) && Below(b, N) && Distinct(a + b) &&
    forall p :: 0 <= p < N ==> p in a || p in b
  }

  lemma ComplementPartition(qs: seq<nat>, N: nat)
    requires Distinct(qs) && Below(qs, N)
    ensures Partition(qs, Complement(qs, N), N)
    ensures Partition(Complement(qs, N), qs, N)
  {
    var c := Complement(qs, N);
    forall i, j | 0 <= i < j < |qs + c|
      ensures (qs + c)[i] != (qs + c)[j]
    {
      if j >= |qs| && i < |qs| {
        assert (qs + c)[j] in c;
      }
    }
    forall i, j | 0 <= i < j < |c + qs|
      ensures (c + qs)[i] != (c + qs)[j]
    {
      if j >= |c| && i < |c| {
        assert (c + qs)[i] in c;
      }
    }
  }

  /** The states of the qubits pos[0], pos[1], ... of the N-qubit basis index i. */
  function Gather(i: nat, pos: seq<nat>, N: nat): (v: seq<bool>)
    ensures |v| == |pos|
  {
    seq(|pos|, q requires 0 <= q < |pos| => QbitState(pos[q], N, i))
  }

  /** The basis index, over the qubits pos, of the part of i that lives on those qubits. */
  function SubIndex(i: nat, pos: seq<nat>, N: nat): (r: nat)
    ensures r < Pow2(|pos|)
  {
    FromBitsBound(Gather(i, pos, N));
    FromBits(Gather(i, pos, N))
  }

  /**
   * The accumulators of the source: start from 0, add bit_int(a[q],N) for every bit q of m
   * that is on, then bit_int(b[q],N) for every bit q of s that is on.
   */
  function Join(m: nat, s: nat, a: seq<nat>, b: seq<nat>, N: nat): nat
    requires Below(a, N) && Below(b, N)
  {
    ScatterSum(ToBits(m, |a|), a, N) + ScatterSum(ToBits(s, |b|), b, N)
  }

  /** Joining two sub-indices gives an index whose sub-indices are those two. */
  lemma JoinParts(m: nat, s: nat, a: seq<nat>, b: seq<nat>, N: nat)
    requires Partition(a, b, N) && m < Pow2(|a|) && s < Pow2(|b|)
    ensures Join(m, s, a, b, N) < Pow2(N)
    ensures SubIndex(Join(m, s, a, b, N), a, N) == m
    ensures SubIndex(Join(m, s, a, b, N), b, N) == s
  {
    JoinGather(m, s, a, b, N);
    FromToBits(m, |a|);
    FromToBits(s, |b|);
  }

  lemma JoinGather(m: nat, s: nat, a: seq<nat>, b: seq<nat>, N: nat)
    requires Partition(a, b, N)
    ensures Join(m, s, a, b, N) < Pow2(N)
    ensures Gather(Join(m, s, a, b, N), a, N) == ToBits(m, |a|)
    ensures Gather(Join(m, s, a, b, N), b, N) == ToBits(s, |b|)
  {
    var bits := ToBits(m, |a|) + ToBits(s, |b|);
    ScatterSumAppend(ToBits(m, |a|), a, ToBits(s, |b|), b, N);
    ScatterSumQbits(bits, a + b, N);
    var i := Join(m, s, a, b, N);
    var ab, n := a + b, |a| + |b|;
    assert i == ScatterSum(bits, ab, N);
    AppendSlices(a, b);
    AppendSlices(ToBits(m, |a|), ToBits(s, |b|));
    GatherSlice(i, bits, ab, 0, |a|, N);
    GatherSlice(i, bits, ab, |a|, n, N);
  }

  lemma AppendSlices<T>(x: seq<T>, y: seq<T>)
    ensures (x + y)[0..|x|] == x && (x + y)[|x|..|x| + |y|] == y
  {
  }

  /** Gathering i over a slice of the positions gives the matching slice of i's bits there. */
  lemma GatherSlice(i: nat, bits: seq<bool>, pos: seq<nat>, lo: nat, hi: nat, N: nat)
    requires |bits| == |pos| && lo <= hi <= |pos|
    requires forall q :: 0 <= q < |pos| ==> QbitState(pos[q], N, i) == bits[q]
    ensures Gather(i, pos[lo..hi], N) == bits[lo..hi]
  {
    forall q | 0 <= q < hi - lo
      ensures Gather(i, pos[lo..hi], N)[q] == bits[lo..hi][q]
    {
      assert pos[lo..hi][q] == pos[lo + q];
    }
  }

  /** Splitting an index into its two sub-indices and joining them gives the index back. */
  lemma SplitJoin(i: nat, a: seq<nat>, b: seq<nat>, N: nat)
    requires Partition(a, b, N) && i < Pow2(N)
    ensures Join(SubIndex(i, a, N), SubIndex(i, b, N), a, b, N) == i
  {
    var m, s := SubIndex(i, a, N), SubIndex(i, b, N);
    var j := Join(m, s, a, b, N);
    JoinParts(m, s, a, b, N);
    assert Gather(j, a, N) == Gather(i, a, N) by {
      FromBitsBound(Gather(j, a, N));
      FromBitsBound(Gather(i, a, N));
      FromToBitsInverse(Gather(j, a, N));
      FromToBitsInverse(Gather(i, a, N));
    }
    assert Gather(j, b, N) == Gather(i, b, N) by {
      FromToBitsInverse(Gather(j, b, N));
      FromToBitsInverse(Gather(i, b, N));
    }
    forall p | 0 <= p < N
      ensures QbitState(p, N, j) == QbitState(p, N, i)
    {
      if p in a {
        var q :| 0 <= q < |a| && a[q] == p;
        assert Gather(j, a, N)[q] == Gather(i, a, N)[q];
      } else {
        var q :| 0 <= q < |b| && b[q] == p;
        assert Gather(j, b, N)[q] == Gather(i, b, N)[q];
      }
    }
    SameQbitsSameIndex(j, i, N);
  }

  /** A bit vector is the N-bit expansion of its own value. */
  lemma FromToBitsInverse(v: seq<bool>)
    ensures ToBits(FromBits(v), |v|) == v
  {
    forall q | 0 <= q < |v|
      ensures ToBits(FromBits(v), |v|)[q] == v[q]
    {
      FromBitsQbit(v, q);
    }
  }
}
