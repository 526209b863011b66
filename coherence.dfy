/**
 * The structure of the NV coherence measurements (nv-math.cpp:390-434, and the older
 * coherence_measurement and exact_coherence_measurement of nv-math.h:239-348).  The coherence is
 * a product of one factor per cluster, starting from 1.  Each factor compares two AXY sequence
 * propagators built from free evolutions under the cluster Hamiltonian for the NV in state |ms>
 * (H_m) or |0> (H_0); those evolutions are kept symbolic, as the NV state and the duration of
 * each factor.  The traces and matrix exponentials are left out.
 */
module Coherence {
  import opened Schedule
  import opened Propagator

  /** The product of the factors, left to right from 1. */
  function Product(factors: seq<real>): real
  {
    if |factors| == 0 then 1.0 else Product(factors[..|factors| - 1]) * factors[|factors| - 1]
  }

  /**
   * The cluster loop of the coherence functions (nv-math.cpp:396-433, nv-math.h:257-286 and
   * 304-346): coherence starts at 1 and is multiplied by the factor of each cluster.
   */
  method CombineClusters(factors: seq<real>) returns (coherence: real)
    ensures coherence == Product(factors)
  {
    coherence := 1.0;
    var c := 0;
    while c < |factors|
      invariant 0 <= c <= |factors| && coherence == Product(factors[..c])
    {
      assert factors[..c + 1][..c] == factors[..c];
      coherence := coherence * factors[c];
      c := c + 1;
    }
    assert factors[..|factors|] == factors;
  }

  /** The factors of two lists of clusters multiply. */
  lemma {:induction false} ProductAppend(a: seq<real>, b: seq<real>)
    ensures Product(a + b) == Product(a) * Product(b)
  {
    if |b| == 0 {
      assert a + b == a;
    } else {
      assert (a + b)[..|a + b| - 1] == a + b[..|b| - 1];
      ProductAppend(a, b[..|b| - 1]);
    }
  }

  lemma UnitMul(a: real, b: real)
    requires 0.0 <= a <= 1.0 && 0.0 <= b <= 1.0
    ensures 0.0 <= a * b <= 1.0
  {
    if b > 0.0 {
      MulLe(0.0, a, b);
      MulLe(a, 1.0, b);
      assert a * b <= 1.0 * b;
      assert 1.0 * b == b;
      assert a * b <= b;
    }
  }

  lemma MulBounded(x: real, y: real)
    requires -1.0 <= x <= 1.0 && -1.0 <= y <= 1.0
    ensures -1.0 <= x * y <= 1.0
  {
    if x >= 0.0 && y >= 0.0 {
      UnitMul(x, y);
    } else if x >= 0.0 {
      UnitMul(x, -y);
      assert x * y == -(x * (-y));
    } else if y >= 0.0 {
      UnitMul(-x, y);
      assert x * y == -((-x) * y);
    } else {
      UnitMul(-x, -y);
      assert x * y == (-x) * (-y);
    }
  }

  /** With every factor a coherence in [-1, 1], so is the product. */
  lemma {:induction false} ProductBounded(factors: seq<real>)
    requires forall c :: 0 <= c < |factors| ==> -1.0 <= factors[c] <= 1.0
    ensures -1.0 <= Product(factors) <= 1.0
  {
    if |factors| > 0 {
      ProductBounded(factors[..|factors| - 1]);
      MulBounded(Product(factors[..|factors| - 1]), factors[|factors| - 1]);
    }
  }

  /** A cluster with vanishing factor makes the whole coherence vanish. */
  lemma {:induction false} ProductZero(factors: seq<real>, c: nat)
    requires c < |factors| && factors[c] == 0.0
    ensures Product(factors) == 0.0
  {
    if c < |factors| - 1 {
      ProductZero(factors[..|factors| - 1], c);
    }
  }

  /** The NV state whose cluster Hamiltonian drives a free evolution: H_m or H_0. */
  datatype NVState = Ms | Zero

  /** exp(-j H t) for the Hamiltonian of an NV state and a duration t. */
  datatype Segment = Segment(state: NVState, duration: real)

  function Other(s: NVState): NVState
  {
    if s == Ms then Zero else Ms
  }

  /**
   * U_m of nv-math.cpp (line 421) from the section durations d1, d2, d3, factor by factor from
   * the left (U1_m = exp(-j H_m d1), U2_m = exp(-j H_0 d2), U3_m = exp(-j H_m d3), and the
   * U_0 factors with the states exchanged).
   */
  function SequenceM(d1: real, d2: real, d3: real): (u: seq<Segment>)
    ensures |u| == 12
  {
    [Segment(Ms, d1), Segment(Zero, d2), Segment(Ms, d3), Segment(Zero, d3), Segment(Ms, d2),
     Segment(Zero, d1), Segment(Zero, d1), Segment(Ms, d2), Segment(Zero, d3), Segment(Ms, d3),
     Segment(Zero, d2), Segment(Ms, d1)]
  }

  /** U_0 of nv-math.cpp (line 422), factor by factor from the left. */
  function Sequence0(d1: real, d2: real, d3: real): (u: seq<Segment>)
    ensures |u| == 12
  {
    [Segment(Zero, d1), Segment(Ms, d2), Segment(Zero, d3), Segment(Ms, d3), Segment(Zero, d2),
     Segment(Ms, d1), Segment(Ms, d1), Segment(Zero, d2), Segment(Ms, d3), Segment(Zero, d3),
     Segment(Ms, d2), Segment(Zero, d1)]
  }

  /**
   * U_m of nv-math.h (lines 320-338): the six factors U1_m .. U6_m, where U4_m = U3_0,
   * U5_m = U2_0 and U6_m = U1_0, followed by the same six in reverse.
   */
  function HeaderSequenceM(d1: real, d2: real, d3: real): seq<Segment>
  {
    var six := [Segment(Ms, d1), Segment(Zero, d2), Segment(Ms, d3),
                Segment(Zero, d3), Segment(Ms, d2), Segment(Zero, d1)];
    six + Reverse(six)
  }

  function Reverse<T>(s: seq<T>): (r: seq<T>)
    ensures |r| == |s| && forall i :: 0 <= i < |s| ==> r[i] == s[|s| - 1 - i]
  {
    seq(|s|, i requires 0 <= i < |s| => s[|s| - 1 - i])
  }

  /** The time a list of segments spends under the Hamiltonian of one NV state. */
  function TimeIn(u: seq<Segment>, s: NVState): real
  {
    if |u| == 0 then 0.0
    else TimeIn(u[..|u| - 1], s) + (if u[|u| - 1].state == s then u[|u| - 1].duration else 0.0)
  }

  /**
   * The sequence propagators are palindromes, so they do not depend on the order in which the
   * factors act.
   */
  lemma SequencePalindromes(d1: real, d2: real, d3: real)
    ensures Reverse(SequenceM(d1, d2, d3)) == SequenceM(d1, d2, d3)
    ensures Reverse(Sequence0(d1, d2, d3)) == Sequence0(d1, d2, d3)
  {
  }

  /** U_0 is U_m with the two NV states exchanged. */
  lemma SequencesExchanged(d1: real, d2: real, d3: real)
    ensures forall i :: 0 <= i < 12 ==>
      Sequence0(d1, d2, d3)[i] ==
      Segment(Other(SequenceM(d1, d2, d3)[i].state), SequenceM(d1, d2, d3)[i].duration)
  {
  }

  /** The older header builds the same U_m. */
  lemma HeaderSequenceSame(d1: real, d2: real, d3: real)
    ensures HeaderSequenceM(d1, d2, d3) == SequenceM(d1, d2, d3)
  {
  }

  /** U_m spends the same time 2 (d1 + d2 + d3) under H_m as under H_0. */
  lemma SequenceTime(d1: real, d2: real, d3: real)
    ensures TimeIn(SequenceM(d1, d2, d3), Ms) == 2.0 * (d1 + d2 + d3)
    ensures TimeIn(SequenceM(d1, d2, d3), Zero) == 2.0 * (d1 + d2 + d3)
  {
    var u := SequenceM(d1, d2, d3);
    assert u[..12] == u;
    TimeInPrefixes(u, Ms, 12);
    assert TimeIn(u[..0], Ms) == 0.0;
    assert TimeIn(u[..1], Ms) == d1;
    assert TimeIn(u[..2], Ms) == d1;
    assert TimeIn(u[..3], Ms) == d1 + d3;
    assert TimeIn(u[..4], Ms) == d1 + d3;
    assert TimeIn(u[..5], Ms) == d1 + d3 + d2;
    assert TimeIn(u[..6], Ms) == d1 + d3 + d2;
    assert TimeIn(u[..7], Ms) == d1 + d3 + d2;
    assert TimeIn(u[..8], Ms) == d1 + d3 + d2 + d2;
    assert TimeIn(u[..9], Ms) == d1 + d3 + d2 + d2;
    assert TimeIn(u[..10], Ms) == d1 + d3 + d2 + d2 + d3;
    assert TimeIn(u[..11], Ms) == d1 + d3 + d2 + d2 + d3;
    assert TimeIn(u[..12], Ms) == d1 + d3 + d2 + d2 + d3 + d1;
    TimeInPrefixes(u, Zero, 12);
    assert TimeIn(u[..0], Zero) == 0.0;
    assert TimeIn(u[..1], Zero) == 0.0;
    assert TimeIn(u[..2], Zero) == d2;
    assert TimeIn(u[..3], Zero) == d2;
    assert TimeIn(u[..4], Zero) == d2 + d3;
    assert TimeIn(u[..5], Zero) == d2 + d3;
    assert TimeIn(u[..6], Zero) == d2 + d3 + d1;
    assert TimeIn(u[..7], Zero) == d2 + d3 + d1 + d1;
    assert TimeIn(u[..8], Zero) == d2 + d3 + d1 + d1;
    assert TimeIn(u[..9], Zero) == d2 + d3 + d1 + d1 + d3;
    assert TimeIn(u[..10], Zero) == d2 + d3 + d1 + d1 + d3;
    assert TimeIn(u[..11], Zero) == d2 + d3 + d1 + d1 + d3 + d2;
    assert TimeIn(u[..12], Zero) == d2 + d3 + d1 + d1 + d3 + d2;
  }

  /** TimeIn taken over the prefixes of u, one segment at a time. */
  lemma {:induction false} TimeInPrefixes(u: seq<Segment>, s: NVState, k: nat)
    requires k <= |u|
    ensures forall j :: 0 < j <= k ==>
      TimeIn(u[..j], s) == TimeIn(u[..j - 1], s) + (if u[j - 1].state == s then u[j - 1].duration else 0.0)
  {
    if k > 0 {
      TimeInPrefixes(u, s, k - 1);
      assert u[..k][..k - 1] == u[..k - 1];
    }
  }

  /**
   * With the section durations of nv-math.cpp (lines 412-418), t_DD times the gaps of the
   * first three AXY pulse times, one sequence lasts t_DD/2 under each NV state: one AXY period
   * in total.
   */
  lemma AxySequenceTime(k: nat, x1: real, x2: real, tDD: real, p: seq<real>)
    requires k == 1 || k == 3
    requires p == AxyPulseTimes(k, x1, x2)
    ensures TimeIn(SequenceM(tDD * (p[1] - p[0]), tDD * (p[2] - p[1]), tDD * (p[3] - p[2])), Ms)
      == tDD / 2.0
    ensures TimeIn(SequenceM(tDD * (p[1] - p[0]), tDD * (p[2] - p[1]), tDD * (p[3] - p[2])), Zero)
      == tDD / 2.0
  {
    var d1, d2, d3 := tDD * (p[1] - p[0]), tDD * (p[2] - p[1]), tDD * (p[3] - p[2]);
    SequenceTime(d1, d2, d3);
    assert p[0] == 0.0 && p[3] == 0.25;
    assert d1 + d2 + d3 == tDD * (p[3] - p[0]);
    assert 2.0 * (d1 + d2 + d3) == tDD / 2.0;
  }

  /**
   * The AXY half-sequence propagator of exact_coherence_measurement (nv-math.h:270-276):
   * U1 X U2 X U3 X U3 X U2 X U1, with t1, t2 the pulse times and t3 = t_DD/4 of lines 248-250.
   */
  function HalfSequence(t1: real, t2: real, t3: real): seq<Op>
  {
    [Evolve(t1), Flip, Evolve(t2 - t1), Flip, Evolve(t3 - t2), Flip, Evolve(t3 - t2), Flip,
     Evolve(t2 - t1), Flip, Evolve(t1)]
  }

  /**
   * pow(U, 2 int(scan_time/t_DD)) (nv-math.h:279): as the half sequence has five flips and
   * lasts t_DD/2, the scan flips the NV an even number of times and lasts int(scan_time/t_DD)
   * whole periods.
   */
  lemma ExactScan(t1: real, t2: real, tDD: real, periods: nat)
    ensures Flips(Repeat(HalfSequence(t1, t2, tDD / 4.0), 2 * periods)) % 2 == 0
    ensures Duration(Repeat(HalfSequence(t1, t2, tDD / 4.0), 2 * periods)) == periods as real * tDD
  {
    var u := HalfSequence(t1, t2, tDD / 4.0);
    HalfSequenceCounts(t1, t2, tDD / 4.0);
    RepeatCounts(u, 2 * periods);
    assert (2 * periods) * 5 == 2 * (periods * 5);
  }

  /** The half sequence flips the NV five times and evolves for 2 t3. */
  lemma HalfSequenceCounts(t1: real, t2: real, t3: real)
    ensures Flips(HalfSequence(t1, t2, t3)) == 5
    ensures Duration(HalfSequence(t1, t2, t3)) == 2.0 * t3
  {
    var a, b, c, e := [Evolve(t1), Flip], [Evolve(t2 - t1), Flip], [Evolve(t3 - t2), Flip], [Evolve(t1)];
    PairCounts(t1);
    PairCounts(t2 - t1);
    PairCounts(t3 - t2);
    EvolveCounts(t1);
    Additive(a, b);
    Additive(a + b, c);
    Additive(a + b + c, c);
    Additive(a + b + c + c, b);
    Additive(a + b + c + c + b, e);
    assert HalfSequence(t1, t2, t3) == a + b + c + c + b + e;
  }

  lemma EvolveCounts(d: real)
    ensures Flips([Evolve(d)]) == 0 && Duration([Evolve(d)]) == d
  {
    assert [Evolve(d)][..0] == [];
  }

  /** An evolution followed by a flip. */
  lemma PairCounts(d: real)
    ensures Flips([Evolve(d), Flip]) == 1 && Duration([Evolve(d), Flip]) == d
  {
    assert [Evolve(d), Flip][..1] == [Evolve(d)];
    EvolveCounts(d);
  }
}
