/**
 * The term structure of the NV + cluster Hamiltonians H_int, H_nZ and H_Z (nv-math.cpp:330-387,
 * and the older H_int and H_Z of nv-math.h:212-236).  The coefficient matrix of each term is a
 * physical formula (H_ss, the Zeeman couplings) and is left out; what is kept is the list of
 * qubits each term is embedded on by act, and whether it is added or subtracted.  Qubit 0 is the
 * NV centre and qubit s + 1 is the s-th nucleus of the cluster.
 */
module Hamiltonian {
  /** One term H += act(M, qubits, spins) (sign 1) or H -= act(M, qubits, spins) (sign -1). */
  datatype Term = Term(sign: int, qubits: seq<nat>)

  /**
   * The terms H_int adds for a cluster of n nuclei, in the order of its loops: for each nucleus
   * s, first the NV coupling {0, s+1}, then the couplings {r+1, s+1} to every earlier nucleus r.
   */
  function PairTerms(n: nat): seq<Term>
  {
    if n == 0 then []
    else PairTerms(n - 1) + [Term(1, [0, n])] + NucleusPairs(n - 1)
  }

  /** The couplings {r+1, s+1} of nucleus s to the nuclei r < s. */
  function NucleusPairs(s: nat): (ts: seq<Term>)
    ensures |ts| == s && forall r :: 0 <= r < s ==> ts[r] == Term(1, [r + 1, s + 1])
  {
    seq(s, r requires 0 <= r < s => Term(1, [r + 1, s + 1]))
  }

  /**
   * The double loop of H_int (nv-math.cpp:334-343, nv-math.h:215-222) over a cluster of n
   * nuclei, recording the term each += adds.
   */
  method InteractionTerms(n: nat) returns (terms: seq<Term>)
    ensures terms == PairTerms(n)
  {
    terms := [];
    var s := 0;
    while s < n
      invariant 0 <= s <= n && terms == PairTerms(s)
    {
      terms := terms + [Term(1, [0, s + 1])];
      var r := 0;
      while r < s
        invariant 0 <= r <= s
        invariant terms == PairTerms(s) + [Term(1, [0, s + 1])] + NucleusPairs(s)[..r]
      {
        assert NucleusPairs(s)[..r + 1] == NucleusPairs(s)[..r] + [Term(1, [r + 1, s + 1])];
        terms := terms + [Term(1, [r + 1, s + 1])];
        r := r + 1;
      }
      assert NucleusPairs(s)[..s] == NucleusPairs(s);
      s := s + 1;
    }
  }

  /** A coupling of two distinct qubits a < b of the NV + n nuclei system. */
  predicate IsPair(t: Term, n: nat)
  {
    t.sign == 1 && |t.qubits| == 2 && t.qubits[0] < t.qubits[1] <= n
  }

  /** Every term of H_int couples two distinct qubits of the system, the lower one first. */
  lemma {:induction false} PairTermsArePairs(n: nat)
    ensures forall i :: 0 <= i < |PairTerms(n)| ==> IsPair(PairTerms(n)[i], n)
  {
    if n > 0 {
      PairTermsArePairs(n - 1);
      var ts := PairTerms(n);
      var prev := PairTerms(n - 1);
      forall i | 0 <= i < |ts|
        ensures IsPair(ts[i], n)
      {
        if i < |prev| {
          assert ts[i] == prev[i];
        } else if i > |prev| {
          assert ts[i] == NucleusPairs(n - 1)[i - |prev| - 1];
        }
      }
    }
  }

  /** Every pair of qubits a < b of the NV + n nuclei system is coupled by a term of H_int. */
  lemma {:induction false} PairTermsComplete(n: nat, a: nat, b: nat)
    requires a < b <= n
    ensures Term(1, [a, b]) in PairTerms(n)
  {
    if b < n {
      PairTermsComplete(n - 1, a, b);
    } else if a == 0 {
      assert PairTerms(n)[|PairTerms(n - 1)|] == Term(1, [0, n]);
    } else {
      assert PairTerms(n)[|PairTerms(n - 1)| + 1 + (a - 1)] == NucleusPairs(n - 1)[a - 1];
    }
  }

  /** No pair of qubits is coupled twice. */
  lemma {:induction false} PairTermsDistinct(n: nat)
    ensures forall i, j :: 0 <= i < j < |PairTerms(n)| ==> PairTerms(n)[i] != PairTerms(n)[j]
  {
    if n > 0 {
      PairTermsDistinct(n - 1);
      PairTermsArePairs(n - 1);
      var ts := PairTerms(n);
      var prev := PairTerms(n - 1);
      forall i, j | 0 <= i < j < |ts|
        ensures ts[i] != ts[j]
      {
        if j < |prev| {
          assert ts[i] == prev[i] && ts[j] == prev[j];
        } else if i < |prev| {
          // the earlier terms stay below qubit n, the later ones reach it
          assert ts[i] == prev[i] && IsPair(prev[i], n - 1);
          assert ts[j].qubits[1] == n;
        } else {
          assert ts[i].qubits[0] < ts[j].qubits[0];
        }
      }
    }
  }

  /** H_int has one term per unordered pair of the n + 1 qubits. */
  lemma {:induction false} PairTermsCount(n: nat)
    ensures 2 * |PairTerms(n)| == n * (n + 1)
  {
    if n > 0 {
      PairTermsCount(n - 1);
    }
  }

  /** The nuclear Zeeman terms of H_nZ: nucleus s contributes -act(.., {s+1}, spins). */
  function NuclearTerms(n: nat): (ts: seq<Term>)
    ensures |ts| == n && forall s :: 0 <= s < n ==> ts[s] == Term(-1, [s + 1])
  {
    seq(n, s requires 0 <= s < n => Term(-1, [s + 1]))
  }

  /** The loop of H_nZ (nv-math.cpp:371-382): one subtracted term per nucleus. */
  method NuclearZeemanTerms(n: nat) returns (terms: seq<Term>)
    ensures terms == NuclearTerms(n)
  {
    terms := [];
    var s := 0;
    while s < n
      invariant 0 <= s <= n && terms == NuclearTerms(n)[..s]
    {
      assert NuclearTerms(n)[..s + 1] == NuclearTerms(n)[..s] + [Term(-1, [s + 1])];
      terms := terms + [Term(-1, [s + 1])];
      s := s + 1;
    }
    assert NuclearTerms(n)[..n] == NuclearTerms(n);
  }

  /** The NV term act(H_NV_GS, {0}, spins), added. */
  const NVTerm := Term(1, [0])

  /** H_Z of nv-math.cpp (lines 385-387): the nuclear terms, then the NV term. */
  function ZeemanTerms(n: nat): seq<Term>
  {
    NuclearTerms(n) + [NVTerm]
  }

  /**
   * H_Z of nv-math.h (lines 227-236): it starts from the NV term and subtracts the nuclear terms
   * in its loop: the terms of nv-math.cpp's H_Z in another order, so the same sum.
   */
  method HeaderZeemanTerms(n: nat) returns (terms: seq<Term>)
    ensures terms == [NVTerm] + NuclearTerms(n)
    ensures multiset(terms) == multiset(ZeemanTerms(n))
  {
    terms := [NVTerm];
    var s := 0;
    while s < n
      invariant 0 <= s <= n && terms == [NVTerm] + NuclearTerms(n)[..s]
    {
      assert NuclearTerms(n)[..s + 1] == NuclearTerms(n)[..s] + [Term(-1, [s + 1])];
      terms := terms + [Term(-1, [s + 1])];
      s := s + 1;
    }
    assert NuclearTerms(n)[..n] == NuclearTerms(n);
  }

  /**
   * The Zeeman terms act on one qubit each and every qubit 0..n carries exactly one of them:
   * the NV term is added, the nuclear ones subtracted.
   */
  lemma ZeemanOnePerQubit(n: nat, q: nat)
    requires q <= n
    ensures forall i :: 0 <= i < |ZeemanTerms(n)| ==> |ZeemanTerms(n)[i].qubits| == 1
    ensures exists i :: 0 <= i < |ZeemanTerms(n)| && ZeemanTerms(n)[i].qubits == [q]
    ensures forall i, j ::
      (0 <= i < |ZeemanTerms(n)| && 0 <= j < |ZeemanTerms(n)| &&
       ZeemanTerms(n)[i].qubits == [q] && ZeemanTerms(n)[j].qubits == [q]) ==> i == j
    ensures forall i :: 0 <= i < |ZeemanTerms(n)| ==>
      (ZeemanTerms(n)[i].sign == 1 <==> ZeemanTerms(n)[i].qubits == [0])
  {
    var ts := ZeemanTerms(n);
    if q == 0 {
      assert ts[n].qubits == [q];
    } else {
      assert ts[q - 1].qubits == [q];
    }
    forall i, j | 0 <= i < |ts| && 0 <= j < |ts| && ts[i].qubits == [q] && ts[j].qubits == [q]
      ensures i == j
    {
      assert ts[i].qubits[0] == ts[j].qubits[0];
    }
  }
}
