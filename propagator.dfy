/**
 * The structure of the static simulate_propagator (nv-math.cpp:442-498), kept symbolic: the
 * propagator exp(-i H dt) of a free evolution is the token Evolve(dt) and the NV spin flip X is
 * Flip.  The propagator is the list of these factors in the order they act (the first one acts
 * first, so each left multiplication of the source appends a factor).  The final renormalisation
 * of the matrix (line 495) has no symbolic counterpart.
 */
module Propagator {
  import opened Bits
  import opened Schedule

  datatype Op = Flip | Evolve(duration: real)

  /** The number of NV flips in a list of factors. */
  function Flips(ops: seq<Op>): nat
  {
    if |ops| == 0 then 0 else Flips(ops[..|ops| - 1]) + (if ops[|ops| - 1].Flip? then 1 else 0)
  }

  /** The total time of free evolution in a list of factors. */
  function Duration(ops: seq<Op>): real
  {
    if |ops| == 0 then 0.0
    else Duration(ops[..|ops| - 1]) + (if ops[|ops| - 1].Evolve? then ops[|ops| - 1].duration else 0.0)
  }

  lemma {:induction false} Additive(a: seq<Op>, b: seq<Op>)
    ensures Flips(a + b) == Flips(a) + Flips(b)
    ensures Duration(a + b) == Duration(a) + Duration(b)
  {
    if |b| > 0 {
      assert (a + b)[..|a + b| - 1] == a + b[..|b| - 1];
      Additive(a, b[..|b| - 1]);
    } else {
      assert a + b == a;
    }
  }

  /** A block of factors applied n times over: pow(U, n). */
  function Repeat(block: seq<Op>, n: nat): seq<Op>
  {
    if n == 0 then [] else Repeat(block, n - 1) + block
  }

  lemma RepeatCounts(block: seq<Op>, n: nat)
    ensures Flips(Repeat(block, n)) == n * Flips(block)
    ensures Duration(Repeat(block, n)) == n as real * Duration(block)
  {
    RepeatSums(block, n);
    SumsProducts(n, Flips(block), Duration(block));
  }

  /** f added to itself n times, as a nat and as a real. */
  function Sum(n: nat, f: nat): nat
  {
    if n == 0 then 0 else Sum(n - 1, f) + f
  }

  function SumReal(n: nat, d: real): real
  {
    if n == 0 then 0.0 else SumReal(n - 1, d) + d
  }

  lemma {:induction false} SumsProducts(n: nat, f: nat, d: real)
    ensures Sum(n, f) == n * f && SumReal(n, d) == n as real * d
  {
    if n > 0 {
      SumsProducts(n - 1, f, d);
      SuccTimes(n - 1, n, f, d);
    }
  }

  lemma {:induction false} RepeatSums(block: seq<Op>, n: nat)
    ensures Flips(Repeat(block, n)) == Sum(n, Flips(block))
    ensures Duration(Repeat(block, n)) == SumReal(n, Duration(block))
  {
    if n > 0 {
      RepeatStep(block, n);
      RepeatSums(block, n - 1);
    }
  }

  lemma SuccTimes(m: nat, n: nat, f: nat, d: real)
    requires n == m + 1
    ensures m * f + f == n * f
    ensures m as real * d + d == n as real * d
  {
  }

  /** One more repetition adds the flips and the duration of one block. */
  lemma RepeatStep(block: seq<Op>, n: nat)
    requires n > 0
    ensures Flips(Repeat(block, n)) == Flips(Repeat(block, n - 1)) + Flips(block)
    ensures Duration(Repeat(block, n)) == Duration(Repeat(block, n - 1)) + Duration(block)
  {
    Additive(Repeat(block, n - 1), block);
  }

  lemma RepeatStart(block: seq<Op>, n: nat)
    requires n > 0 && |block| > 0
    ensures |Repeat(block, n)| > 0 && Repeat(block, n)[0] == block[0]
  {
    if n > 1 {
      RepeatStart(block, n - 1);
    }
  }

  /** int(x) of C++: the real truncated toward zero. */
  function Trunc(x: real): int
  {
    if x >= 0.0 then x.Floor else -((-x).Floor)
  }

  /**
   * The loop of lines 461-465: the number of interior pulses before the advance, counted until
   * the first one that is not.
   */
  method LeadingPulses(pulses: seq<real>, normed: real) returns (count: nat)
    requires |pulses| >= 2
    ensures count == LeadBelow(Interior(pulses), normed)
  {
    count := 0;
    var i := 1;
    while i < |pulses| - 1
      invariant 1 <= i <= |pulses| - 1 && count == i - 1
      invariant forall k :: 1 <= k < i ==> pulses[k] < normed
    {
      if pulses[i] < normed {
        count := count + 1;
      } else {
        break;
      }
      i := i + 1;
    }
    LeadBelowUnique(Interior(pulses), normed, count);
  }

  /** The leading run below v is the only prefix all below v that is followed by a time not below. */
  lemma LeadBelowUnique(xs: seq<real>, v: real, m: nat)
    requires m <= |xs| && (forall i :: 0 <= i < m ==> xs[i] < v) && (m < |xs| ==> xs[m] >= v)
    ensures m == LeadBelow(xs, v)
  {
  }

  /**
   * The propagator of one whole AXY period (lines 470-476): after each interval of the advanced
   * schedule a flip, and a last flip that undoes the pulse at the end of the period.  It flips
   * as often as the schedule has times, and evolves for the whole span of the schedule.
   */
  method WholePeriod(advanced: seq<real>, tDD: real) returns (block: seq<Op>)
    requires |advanced| >= 2
    ensures Flips(block) == |advanced|
    ensures Duration(block) == (advanced[|advanced| - 1] - advanced[0]) * tDD
    ensures |block| > 0 && block[0].Evolve?
  {
    block := [];
    var i := 1;
    while i < |advanced|
      invariant 1 <= i <= |advanced| && |block| == 2 * (i - 1)
      invariant Flips(block) == i - 1
      invariant Duration(block) == (advanced[i - 1] - advanced[0]) * tDD
      invariant i > 1 ==> block[0].Evolve?
    {
      var step := [Evolve((advanced[i] - advanced[i - 1]) * tDD), Flip];
      PeriodStep(advanced, tDD, i, block, step);
      block := block + step;
      i := i + 1;
    }
    Additive(block, [Flip]);
    block := block + [Flip];
  }

  /** One interval and its flip extend the period's flips by one and its evolution to the next time. */
  lemma PeriodStep(advanced: seq<real>, tDD: real, i: nat, block: seq<Op>, step: seq<Op>)
    requires 1 <= i < |advanced| && |block| == 2 * (i - 1)
    requires Flips(block) == i - 1 && Duration(block) == (advanced[i - 1] - advanced[0]) * tDD
    requires i > 1 ==> block[0].Evolve?
    requires step == [Evolve((advanced[i] - advanced[i - 1]) * tDD), Flip]
    ensures Flips(block + step) == i
    ensures Duration(block + step) == (advanced[i] - advanced[0]) * tDD
    ensures (block + step)[0].Evolve?
  {
    var d1 := advanced[i - 1] - advanced[0];
    var d2 := advanced[i] - advanced[i - 1];
    Additive(block, step);
    Additive([step[0]], [Flip]);
    assert [step[0]] == [] + [step[0]];
    assert [step[0]] + [Flip] == step;
    assert d1 * tDD + d2 * tDD == (d1 + d2) * tDD;
  }

  /**
   * The remainder of the simulation after the whole periods (lines 481-490): whole intervals
   * ending in a flip while the next pulse comes before the remaining time, then the rest of the
   * remaining time.  count is pulse_count, raised by one for every flip.  Once the last time of
   * the schedule is not before the remaining time, the evolution adds up to the remaining time
   * past the first time of the schedule.
   */
  method Remainder(advanced: seq<real>, tDD: real, remaining: real, count0: nat)
    returns (ops: seq<Op>, count: nat)
    requires |advanced| >= 2
    ensures count == count0 + Flips(ops)
    ensures |ops| > 0 && ops[0].Evolve?
    ensures advanced[|advanced| - 1] * tDD >= remaining ==> Duration(ops) == remaining - advanced[0] * tDD
  {
    ops := [];
    count := count0;
    var i := 1;
    while i < |advanced|
      invariant 1 <= i <= |advanced| && |ops| == 2 * (i - 1)
      invariant count == count0 + Flips(ops)
      invariant Duration(ops) == (advanced[i - 1] - advanced[0]) * tDD
      invariant i > 1 ==> ops[0].Evolve? && advanced[i - 1] * tDD < remaining
    {
      if advanced[i] * tDD < remaining {
        var step := [Evolve(tDD * (advanced[i] - advanced[i - 1])), Flip];
        Additive(ops, step);
        Additive([Evolve(tDD * (advanced[i] - advanced[i - 1]))], [Flip]);
        assert [Evolve(tDD * (advanced[i] - advanced[i - 1]))] == [] + [Evolve(tDD * (advanced[i] - advanced[i - 1]))];
        ops := ops + step;
        count := count + 1;
      } else {
        var last := [Evolve(remaining - advanced[i - 1] * tDD)];
        Additive(ops, last);
        assert last == [] + last;
        ops := ops + last;
        return;
      }
      i := i + 1;
    }
  }

  lemma DivMul(s: real, t: real)
    requires t > 0.0
    ensures (s / t) * t == s
  {
  }

  lemma MulLe(a: real, b: real, t: real)
    requires a <= b && t > 0.0
    ensures a * t <= b * t
  {
    assert b * t - a * t == (b - a) * t;
  }

  lemma MulLt(a: real, b: real, t: real)
    requires a < b && t > 0.0
    ensures a * t < b * t
  {
    assert b * t - a * t == (b - a) * t;
  }

  lemma AddOneTimes(a: real, t: real)
    ensures (a + 1.0) * t == a * t + t
  {
  }

  /** The remaining time after the whole periods lies in [0, t_DD). */
  lemma RemainingTime(simulationTime: real, tDD: real, whole: int)
    requires simulationTime >= 0.0 && tDD > 0.0 && whole == Trunc(simulationTime / tDD)
    ensures whole >= 0 && 0.0 <= simulationTime - whole as real * tDD < tDD
    ensures simulationTime >= tDD <==> whole >= 1
  {
    var q := simulationTime / tDD;
    DivNonneg(simulationTime, tDD);
    assert whole == q.Floor;
    ScaleBounds(simulationTime, tDD, q, whole as real);
  }

  lemma DivNonneg(s: real, t: real)
    requires s >= 0.0 && t > 0.0
    ensures s / t >= 0.0 && (s / t) * t == s
  {
    var q := s / t;
    DivMul(s, t);
    if q < 0.0 {
      MulLt(q, 0.0, t);
    }
  }

  /** Scaling wr <= q < wr + 1 by t > 0 where q * t == s. */
  lemma ScaleBounds(s: real, t: real, q: real, wr: real)
    requires t > 0.0 && q * t == s && wr <= q < wr + 1.0
    ensures wr * t <= s < wr * t + t
    ensures s >= t ==> wr > 0.0
    ensures wr >= 1.0 ==> s >= t
  {
    MulLe(wr, q, t);
    var up := wr + 1.0;
    MulLt(q, up, t);
    AddOneTimes(wr, t);
    assert s < up * t;
    if wr <= 0.0 {
      MulLe(wr, 0.0, t);
      assert 0.0 * t == 0.0;
    }
    if wr >= 1.0 {
      MulLe(1.0, wr, t);
      assert 1.0 * t == t;
    }
  }

  /** A schedule from 0 to 1 with an even number of times, whose interior ascends within [0, 1). */
  predicate Framed(pulses: seq<real>)
  {
    |pulses| >= 3 && |pulses| % 2 == 0 && pulses[0] == 0.0 && pulses[|pulses| - 1] == 1.0 &&
    Regular(pulses)
  }

  /**
   * The static simulate_propagator (lines 442-498) for an AXY schedule pulses, an advance and a
   * simulation time, with the period t_DD > 0 given directly.  The NV starts flipped exactly
   * when an odd number of interior pulses come before the advance.  For a framed schedule and
   * a non-negative simulation time it flips the NV an even number of times, so that the NV ends
   * as it started, and its free evolutions add up to the simulation time.
   */
  method SimulatePropagator(pulses: seq<real>, advance: real, tDD: real, simulationTime: real)
    returns (ops: seq<Op>)
    requires |pulses| >= 3 && tDD > 0.0
    ensures |ops| > 0
    ensures ops[0] == Flip <==> LeadBelow(Interior(pulses), Frac(advance / tDD)) % 2 == 1
    ensures Framed(pulses) && simulationTime >= 0.0 ==>
      Flips(ops) % 2 == 0 && Duration(ops) == simulationTime
  {
    var normed := advance / tDD - (advance / tDD).Floor as real;
    assert normed == Frac(advance / tDD);
    var advanced := AdvancedPulseTimes(pulses, normed);
    var count := LeadingPulses(pulses, normed);
    ghost var count0 := count;
    ops := [];
    if count % 2 != 0 {
      ops := [Flip];
    }
    ghost var start := ops;
    assert start == FlipIfOdd(count0);
    var whole := Trunc(simulationTime / tDD);
    var periods := AxyPeriods(advanced, tDD, simulationTime, whole);
    ops := ops + periods;
    var remaining := simulationTime - whole as real * tDD;
    var rest;
    rest, count := Remainder(advanced, tDD, remaining, count);
    ops := ops + rest;
    ghost var body := ops;
    if count % 2 != 0 {
      ops := ops + [Flip];
    } else {
      assert ops == body + FlipIfOdd(count);
    }
    FirstOp(count0, periods, rest, count);
    if Framed(pulses) && simulationTime >= 0.0 {
      FramedBalance(pulses, normed, advanced, tDD, simulationTime, whole, remaining, periods, rest, count0,
                    count);
    }
  }

  /**
   * The whole AXY periods of simulate_propagator (lines 468-477): none when the simulation is
   * shorter than one period, otherwise pow(U_AXY, int(simulation_time/t_DD)), each period
   * flipping once per advanced time and lasting the advanced schedule's span times t_DD.
   */
  method AxyPeriods(advanced: seq<real>, tDD: real, simulationTime: real, whole: int)
    returns (periods: seq<Op>)
    requires |advanced| >= 2 && tDD > 0.0 && whole == Trunc(simulationTime / tDD)
    ensures simulationTime < tDD ==> periods == []
    ensures simulationTime >= tDD ==>
      (Flips(periods) == whole * |advanced| &&
       Duration(periods) == whole as real * ((advanced[|advanced| - 1] - advanced[0]) * tDD))
    ensures periods == [] || periods[0].Evolve?
  {
    periods := [];
    if simulationTime >= tDD {
      var block := WholePeriod(advanced, tDD);
      RemainingTime(simulationTime, tDD, whole);
      periods := Repeat(block, whole as nat);
      WholePeriods(block, advanced, tDD, whole);
    }
  }

  /**
   * For a framed schedule the flips of the four parts add up to an even number and their
   * evolutions to the simulation time.
   */
  lemma FramedBalance(pulses: seq<real>, normed: real, advanced: seq<real>, tDD: real,
                      simulationTime: real, whole: int, remaining: real, periods: seq<Op>,
                      rest: seq<Op>, count0: nat, count: nat)
    requires Framed(pulses) && simulationTime >= 0.0 && tDD > 0.0
    requires normed == 0.0 ==> advanced == pulses
    requires normed != 0.0 ==> |advanced| >= 2 && advanced[0] == 0.0 && advanced[|advanced| - 1] == 1.0
    requires normed != 0.0 && Regular(pulses) ==> |advanced| == |pulses|
    requires whole == Trunc(simulationTime / tDD)
    requires simulationTime >= tDD ==>
      (Flips(periods) == whole * |advanced| &&
       Duration(periods) == whole as real * ((advanced[|advanced| - 1] - advanced[0]) * tDD))
    requires simulationTime < tDD ==> periods == []
    requires count == count0 + Flips(rest)
    requires remaining == simulationTime - whole as real * tDD
    requires advanced[|advanced| - 1] * tDD >= remaining ==> Duration(rest) == remaining - advanced[0] * tDD
    ensures Flips(FlipIfOdd(count0) + periods + rest + FlipIfOdd(count)) % 2 == 0
    ensures Duration(FlipIfOdd(count0) + periods + rest + FlipIfOdd(count)) == simulationTime
  {
    AdvancedFramed(pulses, normed, advanced);
    PeriodsEven(simulationTime, tDD, whole, |advanced|, periods);
    FlipsEven(periods, rest, count0, count);
    PartsDuration(advanced, tDD, simulationTime, whole, remaining, periods, rest);
    DurationSum(periods, rest, count0, count);
  }

  /** pow(U_AXY, whole): whole times the flips and the duration of one period. */
  lemma WholePeriods(block: seq<Op>, advanced: seq<real>, tDD: real, whole: int)
    requires whole >= 1 && |advanced| >= 2 && |block| > 0 && block[0].Evolve?
    requires Flips(block) == |advanced|
    requires Duration(block) == (advanced[|advanced| - 1] - advanced[0]) * tDD
    ensures Flips(Repeat(block, whole as nat)) == whole * |advanced|
    ensures Duration(Repeat(block, whole as nat)) == whole as real * ((advanced[|advanced| - 1] - advanced[0]) * tDD)
    ensures Repeat(block, whole as nat)[0].Evolve?
  {
    RepeatCounts(block, whole as nat);
    RepeatStart(block, whole as nat);
  }

  /** The propagator starts with a flip exactly when the count before the periods is odd. */
  lemma FirstOp(count0: nat, periods: seq<Op>, rest: seq<Op>, count: nat)
    requires periods == [] || periods[0].Evolve?
    requires |rest| > 0 && rest[0].Evolve?
    ensures |FlipIfOdd(count0) + periods + rest + FlipIfOdd(count)| > 0
    ensures (FlipIfOdd(count0) + periods + rest + FlipIfOdd(count))[0] == Flip <==> count0 % 2 == 1
  {
    var ops := FlipIfOdd(count0) + periods + rest + FlipIfOdd(count);
    if count0 % 2 == 1 {
      assert ops[0] == Flip;
    } else if periods == [] {
      assert ops[0] == rest[0];
    } else {
      assert ops[0] == periods[0];
    }
  }

  /**
   * The advanced schedule of a framed schedule is framed too: an even number of times from 0
   * to 1.
   */
  lemma AdvancedFramed(pulses: seq<real>, normed: real, advanced: seq<real>)
    requires Framed(pulses)
    requires normed == 0.0 ==> advanced == pulses
    requires normed != 0.0 ==> |advanced| >= 2 && advanced[0] == 0.0 && advanced[|advanced| - 1] == 1.0
    requires normed != 0.0 && Regular(pulses) ==> |advanced| == |pulses|
    ensures |advanced| >= 2 && |advanced| % 2 == 0
    ensures advanced[0] == 0.0 && advanced[|advanced| - 1] == 1.0
  {
  }

  /** The flips of the four parts of the propagator add up to an even number. */
  lemma FlipsEven(periods: seq<Op>, rest: seq<Op>, count0: nat, count: nat)
    requires Flips(periods) % 2 == 0
    requires count == count0 + Flips(rest)
    ensures Flips(FlipIfOdd(count0) + periods + rest + FlipIfOdd(count)) % 2 == 0
  {
    SumOfFour(FlipIfOdd(count0), periods, rest, FlipIfOdd(count));
    Toggle(count0);
    Toggle(count);
    Parity(count0, Flips(periods), Flips(rest));
  }

  /** The evolutions of the four parts of the propagator add up to those of the middle two. */
  lemma DurationSum(periods: seq<Op>, rest: seq<Op>, count0: nat, count: nat)
    ensures Duration(FlipIfOdd(count0) + periods + rest + FlipIfOdd(count)) == Duration(periods) + Duration(rest)
  {
    SumOfFour(FlipIfOdd(count0), periods, rest, FlipIfOdd(count));
    Toggle(count0);
    Toggle(count);
  }

  /** Whole periods and the remainder of a framed schedule last exactly the simulation time. */
  lemma PartsDuration(advanced: seq<real>, tDD: real, simulationTime: real, whole: int,
                      remaining: real, periods: seq<Op>, rest: seq<Op>)
    requires simulationTime >= 0.0 && tDD > 0.0
    requires |advanced| >= 2 && advanced[0] == 0.0 && advanced[|advanced| - 1] == 1.0
    requires whole == Trunc(simulationTime / tDD)
    requires simulationTime >= tDD ==>
      Duration(periods) == whole as real * ((advanced[|advanced| - 1] - advanced[0]) * tDD)
    requires simulationTime < tDD ==> periods == []
    requires remaining == simulationTime - whole as real * tDD
    requires advanced[|advanced| - 1] * tDD >= remaining ==> Duration(rest) == remaining - advanced[0] * tDD
    ensures Duration(periods) + Duration(rest) == simulationTime
  {
    RemainingTime(simulationTime, tDD, whole);
    UnitSpan(advanced[|advanced| - 1], advanced[0], tDD);
    if simulationTime < tDD {
      assert whole == 0;
    }
  }

  lemma UnitSpan(hi: real, lo: real, t: real)
    requires hi == 1.0 && lo == 0.0
    ensures hi * t == t && lo * t == 0.0 && (hi - lo) * t == t
  {
  }

  /** The flips of whole periods of a schedule with an even number of times are even. */
  lemma PeriodsEven(simulationTime: real, tDD: real, whole: int, n: nat, periods: seq<Op>)
    requires simulationTime >= 0.0 && tDD > 0.0 && n % 2 == 0
    requires whole == Trunc(simulationTime / tDD)
    requires simulationTime >= tDD ==> Flips(periods) == whole * n
    requires simulationTime < tDD ==> periods == []
    ensures Flips(periods) % 2 == 0
  {
    if simulationTime >= tDD {
      RemainingTime(simulationTime, tDD, whole);
      EvenTimes(whole, n);
    }
  }

  /** A flip when x is odd, nothing otherwise (lines 466 and 492). */
  function FlipIfOdd(x: nat): seq<Op>
  {
    if x % 2 != 0 then [Flip] else []
  }

  lemma Toggle(x: nat)
    ensures Flips(FlipIfOdd(x)) == x % 2 && Duration(FlipIfOdd(x)) == 0.0
  {
    assert [Flip][..0] == [];
  }

  lemma SumOfFour(a: seq<Op>, b: seq<Op>, c: seq<Op>, d: seq<Op>)
    ensures Flips(a + b + c + d) == Flips(a) + Flips(b) + Flips(c) + Flips(d)
    ensures Duration(a + b + c + d) == Duration(a) + Duration(b) + Duration(c) + Duration(d)
  {
    Additive(a, b);
    Additive(a + b, c);
    Additive(a + b + c, d);
  }

  /** Flipping back when the count is odd makes the flips before and after the periods even. */
  lemma Parity(c0: nat, fp: nat, fr: nat)
    requires fp % 2 == 0
    ensures (c0 % 2 + fp + fr + (c0 + fr) % 2) % 2 == 0
  {
  }

  lemma EvenTimes(a: int, b: nat)
    requires a >= 0 && b % 2 == 0
    ensures (a * b) % 2 == 0
  {
    assert a * b == 2 * (a * (b / 2));
  }

  /** The AXY schedule with 0 < x1 < x2 < 1/4 is framed. */
  lemma AxyFramed(k: nat, x1: real, x2: real)
    requires k == 1 || k == 3
    requires 0.0 < x1 < x2 < 0.25
    ensures Framed(AxyPulseTimes(k, x1, x2))
  {
    var t := AxyPulseTimes(k, x1, x2);
    AxyPulseTimesIncreasing(k, x1, x2);
    assert Increasing(Interior(t));
  }

  /**
   * pulse_times of nv-math.h for k == 3, with phases 0 < a2 < a1 < 1/4: the corrected times
   * start a framed AXY schedule, while the times as written (integer 1/4) fall before 0, so
   * the schedule they start is not framed.
   */
  lemma HeaderTimesFramed(u1: real, u2: real, a1: real, a2: real)
    requires 0.0 < a2 < a1 < 0.25
    ensures var t := HeaderPulseTimes(3, u1, u2, a1, a2); Framed(AxyPulseTimes(3, t[0], t[1]))
    ensures var w := HeaderPulseTimesAsWritten(3, u1, u2, a1, a2);
      !Framed(AxyPulseTimes(3, w[0], w[1]))
  {
    var t := HeaderPulseTimes(3, u1, u2, a1, a2);
    AxyFramed(3, t[0], t[1]);
    var w := HeaderPulseTimesAsWritten(3, u1, u2, a1, a2);
    var s := AxyPulseTimes(3, w[0], w[1]);
    assert Interior(s)[0] == w[0] < 0.0;
  }
}
