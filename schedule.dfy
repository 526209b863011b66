/**
 * The AXY pulse schedule of nv-math.cpp:261-321 and the older pulse_times of nv-math.h:176-202.
 * Pulse times are fractions of one AXY period.  The first two times x1 and x2 come from
 * trigonometric formulas and are parameters here; what is modelled is how the schedule is
 * assembled from them and how advanced_pulse_times shifts a schedule by a fraction of a period.
 */
module Schedule {
  import opened Bits

  /** The twelve times of axy_pulse_times (lines 286-300), from 0 to one whole period. */
  function AxyPulseTimes(k: nat, x1: real, x2: real): (t: seq<real>)
    requires k == 1 || k == 3
    ensures |t| == 12
    ensures t[0] == 0.0 && t[3] == 0.25 && t[8] == 0.75 && t[11] == 1.0
    ensures forall i :: 0 <= i < 12 ==> t[i] + t[11 - i] == 1.0
  {
    [0.0, x1, x2, 0.25, 0.5 - x2, 0.5 - x1, 0.5 + x1, 0.5 + x2, 0.75, 1.0 - x2, 1.0 - x1, 1.0]
  }

  predicate Increasing(t: seq<real>)
  {
    forall i, j :: 0 <= i < j < |t| ==> t[i] < t[j]
  }

  /** With 0 < x1 < x2 < 1/4 the twelve times ascend strictly from 0 to 1. */
  lemma AxyPulseTimesIncreasing(k: nat, x1: real, x2: real)
    requires k == 1 || k == 3
    requires 0.0 < x1 < x2 < 0.25
    ensures Increasing(AxyPulseTimes(k, x1, x2))
  {
    var t := AxyPulseTimes(k, x1, x2);
    forall i | 0 <= i < 11
      ensures t[i] < t[i + 1]
    {
    }
    IncreasingFromSteps(t);
  }

  lemma {:induction false} IncreasingFromSteps(t: seq<real>)
    requires forall i :: 0 <= i < |t| - 1 ==> t[i] < t[i + 1]
    ensures Increasing(t)
  {
    if |t| > 1 {
      var init := t[..|t| - 1];
      IncreasingFromSteps(init);
      forall i | 0 <= i < |t| - 1
        ensures t[i] < t[|t| - 1]
      {
        if i < |t| - 2 {
          assert init[i] < init[|t| - 2];
        }
      }
    }
  }

  /** C++ division of two ints: the quotient truncated toward zero. */
  function CDiv(a: int, b: int): int
    requires b != 0
  {
    var q := (if a < 0 then -a else a) / (if b < 0 then -b else b);
    if (a < 0) == (b < 0) then q else -q
  }

  /**
   * pulse_times of nv-math.h (lines 176-202) as written.  For k == 1 the two times are the
   * atan2 formulas, given here as u1 and u2; for k == 3 they are 1/4 minus the phases a1 and a2
   * (atan(...)/(2 pi)), and 1/4 is a division of two ints.
   */
  function HeaderPulseTimesAsWritten(k: nat, u1: real, u2: real, a1: real, a2: real): (t: seq<real>)
    requires k == 1 || k == 3
    ensures |t| == 2
    ensures k == 1 ==> t == [u1, u2]
    ensures k == 3 ==> t[0] + a1 == 0.0 && t[1] + a2 == 0.0
  {
    if k == 1 then [u1, u2]
    else [CDiv(1, 4) as real - a1, CDiv(1, 4) as real - a2]
  }

  /** For k == 3 the integer 1/4 is 0, so every positive phase gives a negative pulse time. */
  lemma HeaderPulseTimesNegative(a1: real, a2: real)
    requires 0.0 < a1 && 0.0 < a2
    ensures HeaderPulseTimesAsWritten(3, 0.0, 0.0, a1, a2)[0] < 0.0
    ensures HeaderPulseTimesAsWritten(3, 0.0, 0.0, a1, a2)[1] < 0.0
  {
    assert CDiv(1, 4) == 0;
  }

  /** pulse_times with the quarter period written as a real, as axy_pulse_times has it (line 282). */
  function HeaderPulseTimes(k: nat, u1: real, u2: real, a1: real, a2: real): (t: seq<real>)
    requires k == 1 || k == 3
    ensures |t| == 2
    ensures k == 3 ==> t[0] + a1 == 0.25 && t[1] + a2 == 0.25
    ensures k == 3 && 0.0 < a2 < a1 < 0.25 ==> 0.0 < t[0] < t[1] < 0.25
  {
    if k == 1 then [u1, u2] else [0.25 - a1, 0.25 - a2]
  }

  /** The fractional part x - floor(x), in [0, 1). */
  function Frac(x: real): (f: real)
    ensures 0.0 <= f < 1.0
  {
    x - x.Floor as real
  }

  lemma FracOfUnit(v: real)
    requires 0.0 <= v < 1.0
    ensures Frac(v) == v
  {
    assert v.Floor == 0;
  }

  lemma FracOfNegativeUnit(v: real)
    requires -1.0 <= v < 0.0
    ensures Frac(v) == v + 1.0
  {
    assert v.Floor == -1;
  }

  /** Position m + j - 1 taken round a cycle of N positions. */
  function Rotated(m: nat, j: nat, N: nat): (i: nat)
    requires N > 0 && m + j >= 1
    ensures i < N
  {
    (m + j - 1) % N
  }

  /** The interior times of a schedule (all but the first and the last). */
  function Interior(pulses: seq<real>): seq<real>
    requires |pulses| >= 2
  {
    pulses[1..|pulses| - 1]
  }

  /** A schedule whose interior times ascend strictly within [0, 1). */
  predicate Regular(pulses: seq<real>)
  {
    |pulses| >= 2 && Increasing(Interior(pulses)) &&
    forall i :: 0 <= i < |Interior(pulses)| ==> 0.0 <= Interior(pulses)[i] < 1.0
  }

  /** The number of leading times below v. */
  function LeadBelow(xs: seq<real>, v: real): (m: nat)
    ensures m <= |xs|
    ensures forall i :: 0 <= i < m ==> xs[i] < v
    ensures m < |xs| ==> xs[m] >= v
  {
    if |xs| == 0 || xs[0] >= v then 0 else 1 + LeadBelow(xs[1..], v)
  }

  /** The pulses still to come after the advance, moved back by it. */
  function Later(xs: seq<real>, normed: real, m: nat, p: nat): (r: seq<real>)
    requires m <= |xs| && p <= |xs|
  {
    if p <= m then [] else seq(p - m, k requires 0 <= k < p - m => xs[m + k] - normed)
  }

  /** The first q pulses moved into the next period, back by the advance. */
  function Wrapped(xs: seq<real>, normed: real, q: nat): (r: seq<real>)
    requires q <= |xs|
  {
    seq(q, k requires 0 <= k < q => 1.0 + xs[k] - normed)
  }

  /**
   * advanced_pulse_times (lines 303-321): the schedule seen from a start advanced by a fraction
   * of a period.  An integer advance returns the schedule as it is.  Otherwise the result runs
   * from 0 to 1 and, for a schedule whose interior ascends within [0, 1), holds as many times
   * as the input: the interior times moved back by the advance modulo one period, starting with
   * the first one not before the advance, again ascending within [0, 1).  With no interior time
   * the loop does not run and the result is [0, 1]; with fewer than two times the source reads
   * past the end of the schedule.
   */
  method AdvancedPulseTimes(pulses: seq<real>, advance: real) returns (r: seq<real>)
    requires |pulses| >= 2
    ensures Frac(advance) == 0.0 ==> r == pulses
    ensures Frac(advance) != 0.0 ==> |r| >= 2 && r[0] == 0.0 && r[|r| - 1] == 1.0
    ensures Frac(advance) != 0.0 && Regular(pulses) ==> |r| == |pulses| && Advanced(pulses, Frac(advance), r)
  {
    var normed := advance - advance.Floor as real;
    if normed == 0.0 {
      return pulses;
    }
    assert normed == Frac(advance);
    var body := AdvanceLoop(pulses, normed);
    r := body + [1.0];
    if Regular(pulses) {
      if |pulses| > 2 {
        Finish(pulses, Interior(pulses), normed, LeadBelow(Interior(pulses), normed), body);
      } else {
        NoInterior(pulses, normed);
      }
    }
  }

  /**
   * The loop of advanced_pulse_times (lines 312-317): from 0, the interior times moved back by
   * normed, first those of this period not before normed, then those of the next, until one
   * time per interior time is collected.  With no interior time the loop does not run.
   */
  method AdvanceLoop(pulses: seq<real>, normed: real) returns (r: seq<real>)
    requires |pulses| >= 2 && 0.0 < normed < 1.0
    ensures |r| >= 1 && r[0] == 0.0
    ensures |pulses| == 2 ==> r == [0.0]
    ensures |pulses| > 2 && Regular(pulses) ==>
      var xs := Interior(pulses);
      r == [0.0] + Later(xs, normed, LeadBelow(xs, normed), |xs|) + Wrapped(xs, normed, LeadBelow(xs, normed))
  {
    var N := |pulses| - 2;
    ghost var good := Regular(pulses) && N > 0;
    ghost var xs := Interior(pulses);
    ghost var m := LeadBelow(xs, normed);
    r := [0.0];
    var p := 0;
    while p < 2 * N
      invariant 0 <= p <= 2 * N && 1 <= |r| && (|r| <= N || r == [0.0]) && r[0] == 0.0
      invariant good ==> Collected(xs, normed, m, p, r)
    {
      var v := (p / N) as real + pulses[p % N + 1] - normed;
      ghost var before := r;
      if v >= 0.0 {
        r := r + [v];
      }
      if good {
        AdvanceStep(pulses, xs, normed, m, p, before, v, r);
      }
      if |r| == N + 1 {
        if good {
          BreakShape(xs, normed, m, p, r);
        }
        break;
      }
      p := p + 1;
    }
  }

  /**
   * r is the schedule advanced by normed: as many times as the input, the interior ones being
   * the input's interior times moved back by normed modulo 1, beginning with the first one not
   * before normed; they ascend within [0, 1).
   */
  predicate Advanced(pulses: seq<real>, normed: real, r: seq<real>)
    requires |pulses| >= 2
  {
    |r| == |pulses| && RotatedBack(Interior(pulses), normed, r) && Regular(r)
  }

  /** Entry j of r (from 1) is interior time j of the cycle that starts at the advance, moved back by it. */
  predicate RotatedBack(xs: seq<real>, normed: real, r: seq<real>)
    requires |r| > |xs|
  {
    forall j :: 1 <= j <= |xs| ==> r[j] == Frac(xs[Rotated(LeadBelow(xs, normed), j, |xs|)] - normed)
  }

  /** A schedule with no interior time, advanced, is the bare frame [0, 1]. */
  lemma NoInterior(pulses: seq<real>, normed: real)
    requires |pulses| == 2
    ensures Advanced(pulses, normed, [0.0, 1.0])
  {
    assert Interior([0.0, 1.0]) == [];
  }

  lemma Finish(pulses: seq<real>, xs: seq<real>, normed: real, m: nat, body: seq<real>)
    requires |pulses| >= 3 && Regular(pulses) && 0.0 < normed < 1.0
    requires xs == Interior(pulses) && m == LeadBelow(xs, normed)
    requires body == [0.0] + Later(xs, normed, m, |xs|) + Wrapped(xs, normed, m)
    ensures Advanced(pulses, normed, body + [1.0])
  {
    AdvancedShape(xs, normed, m, body);
    var r := body + [1.0];
    forall j | 1 <= j <= |xs|
      ensures r[j] == Frac(xs[Rotated(m, j, |xs|)] - normed)
    {
      assert r[j] == body[j];
    }
    assert RotatedBack(xs, normed, r);
    Closed(body);
  }

  /** Closing an ascending interior within [0, 1) with the time 1 gives a regular schedule. */
  lemma Closed(body: seq<real>)
    requires |body| >= 1
    requires forall j :: 1 <= j < |body| ==> 0.0 <= body[j] < 1.0
    requires forall i, j :: 1 <= i < j < |body| ==> body[i] < body[j]
    ensures Regular(body + [1.0])
  {
    var r := body + [1.0];
    assert Interior(r) == body[1..];
  }

  /** The loop breaks once it holds every later pulse and as many wrapped ones as came before. */
  lemma BreakShape(xs: seq<real>, normed: real, m: nat, p: nat, r: seq<real>)
    requires |xs| >= 1 && m <= |xs| && p < 2 * |xs| && |r| == |xs| + 1
    requires Collected(xs, normed, m, p + 1, r)
    ensures r == [0.0] + Later(xs, normed, m, |xs|) + Wrapped(xs, normed, m)
  {
    var N := |xs|;
    if p + 1 <= N {
      assert |Later(xs, normed, m, p + 1)| == N;
      assert m == 0 && p + 1 == N;
      assert Wrapped(xs, normed, 0) == [];
    } else {
      assert |Wrapped(xs, normed, p + 1 - N)| == p + 1 - N;
    }
  }

  /** After p steps the loop holds 0, the later pulses among the first p and the wrapped ones after them. */
  predicate Collected(xs: seq<real>, normed: real, m: nat, p: nat, r: seq<real>)
    requires m <= |xs| && p <= 2 * |xs|
  {
    if p <= |xs| then r == [0.0] + Later(xs, normed, m, p)
    else r == [0.0] + Later(xs, normed, m, |xs|) + Wrapped(xs, normed, p - |xs|)
  }

  /** One step of the loop of advanced_pulse_times on a regular schedule. */
  lemma AdvanceStep(pulses: seq<real>, xs: seq<real>, normed: real, m: nat, p: nat, before: seq<real>,
                    v: real, after: seq<real>)
    requires |pulses| >= 3 && Regular(pulses) && xs == Interior(pulses)
    requires 0.0 < normed < 1.0 && p < 2 * |xs|
    requires m == LeadBelow(xs, normed) && |before| <= |xs|
    requires Collected(xs, normed, m, p, before)
    requires v == (p / |xs|) as real + pulses[p % |xs| + 1] - normed
    requires after == if v >= 0.0 then before + [v] else before
    ensures Collected(xs, normed, m, p + 1, after)
  {
    var N := |xs|;
    assert pulses[p % N + 1] == xs[p % N];
    if p < N {
      DivUnique(p, N, 0, p);
      AdvanceLater(xs, normed, m, p, before, v, after);
    } else {
      DivUnique(p, N, 1, p - N);
      AdvanceWrapped(xs, normed, m, p, before, v, after);
    }
  }

  /** A step within the first period appends the pulse if it is not before the advance. */
  lemma AdvanceLater(xs: seq<real>, normed: real, m: nat, p: nat, before: seq<real>, v: real,
                     after: seq<real>)
    requires Increasing(xs) && p < |xs| && m == LeadBelow(xs, normed)
    requires before == [0.0] + Later(xs, normed, m, p)
    requires v == xs[p] - normed
    requires after == if v >= 0.0 then before + [v] else before
    ensures after == [0.0] + Later(xs, normed, m, p + 1)
  {
    if p < m {
      assert v < 0.0;
    } else {
      assert xs[p] >= normed by {
        if p > m {
          assert xs[m] < xs[p];
        }
      }
      assert Later(xs, normed, m, p + 1) == Later(xs, normed, m, p) + [xs[p] - normed];
    }
  }

  /** A step within the second period appends the pulse moved into the next period. */
  lemma AdvanceWrapped(xs: seq<real>, normed: real, m: nat, p: nat, before: seq<real>, v: real,
                       after: seq<real>)
    requires |xs| <= p < 2 * |xs| && normed < 1.0 && 0.0 <= xs[p - |xs|] && m <= |xs|
    requires Collected(xs, normed, m, p, before)
    requires v == 1.0 + xs[p - |xs|] - normed
    requires after == if v >= 0.0 then before + [v] else before
    ensures after == [0.0] + Later(xs, normed, m, |xs|) + Wrapped(xs, normed, p + 1 - |xs|)
  {
    var N := |xs|;
    assert Wrapped(xs, normed, p + 1 - N) == Wrapped(xs, normed, p - N) + [1.0 + xs[p - N] - normed];
    if p == N {
      assert Wrapped(xs, normed, 0) == [];
    }
  }

  /** Interior time j (from 1) of the advanced schedule: later pulses first, then wrapped ones. */
  function Entry(xs: seq<real>, normed: real, m: nat, j: nat): real
    requires m <= |xs| && 1 <= j <= |xs|
  {
    if j <= |xs| - m then xs[m + j - 1] - normed else 1.0 + xs[j - 1 - (|xs| - m)] - normed
  }

  lemma ShapeIndex(xs: seq<real>, normed: real, m: nat, r: seq<real>)
    requires m <= |xs|
    requires r == [0.0] + Later(xs, normed, m, |xs|) + Wrapped(xs, normed, m)
    ensures |r| == |xs| + 1 && r[0] == 0.0
    ensures forall j :: 1 <= j <= |xs| ==> r[j] == Entry(xs, normed, m, j)
  {
  }

  /** Each interior time is the matching input time moved back by the advance, modulo 1. */
  lemma EntryFrac(xs: seq<real>, normed: real, m: nat, j: nat)
    requires |xs| >= 1 && 0.0 < normed < 1.0
    requires Increasing(xs) && forall i :: 0 <= i < |xs| ==> 0.0 <= xs[i] < 1.0
    requires m == LeadBelow(xs, normed) && 1 <= j <= |xs|
    ensures Entry(xs, normed, m, j) == Frac(xs[Rotated(m, j, |xs|)] - normed)
  {
    var N := |xs|;
    if j <= N - m {
      DivUnique(m + j - 1, N, 0, m + j - 1);
      if m + j - 1 > m {
        assert xs[m] < xs[m + j - 1];
      }
      FracOfUnit(xs[m + j - 1] - normed);
    } else {
      var k := j - 1 - (N - m);
      DivUnique(m + j - 1, N, 1, k);
      FracOfNegativeUnit(xs[k] - normed);
    }
  }

  lemma EntryOrder(xs: seq<real>, normed: real, m: nat, i: nat, j: nat)
    requires Increasing(xs) && forall k :: 0 <= k < |xs| ==> 0.0 <= xs[k] < 1.0
    requires m <= |xs| && 1 <= i < j <= |xs|
    ensures Entry(xs, normed, m, i) < Entry(xs, normed, m, j)
  {
    var N := |xs|;
    if j <= N - m {
      assert xs[m + i - 1] < xs[m + j - 1];
    } else if i > N - m {
      assert xs[i - 1 - (N - m)] < xs[j - 1 - (N - m)];
    } else {
      assert xs[m + i - 1] < 1.0 && 0.0 <= xs[j - 1 - (N - m)];
    }
  }

  /** The interior the loop leaves on a regular schedule, and what it means. */
  lemma AdvancedShape(xs: seq<real>, normed: real, m: nat, r: seq<real>)
    requires |xs| >= 1 && 0.0 < normed < 1.0
    requires Increasing(xs) && forall i :: 0 <= i < |xs| ==> 0.0 <= xs[i] < 1.0
    requires m == LeadBelow(xs, normed)
    requires r == [0.0] + Later(xs, normed, m, |xs|) + Wrapped(xs, normed, m)
    ensures |r| == |xs| + 1 && r[0] == 0.0
    ensures forall j :: 1 <= j <= |xs| ==> r[j] == Frac(xs[Rotated(m, j, |xs|)] - normed)
    ensures forall i, j :: 1 <= i < j <= |xs| ==> r[i] < r[j]
  {
    ShapeIndex(xs, normed, m, r);
    forall j | 1 <= j <= |xs|
      ensures r[j] == Frac(xs[Rotated(m, j, |xs|)] - normed)
    {
      EntryFrac(xs, normed, m, j);
    }
    forall i, j | 1 <= i < j <= |xs|
      ensures r[i] < r[j]
    {
      EntryOrder(xs, normed, m, i, j);
    }
  }
}
