/**
 * The exact arithmetic of the gate synthesis of nv-control.cpp: the choice of the AXY frequency
 * and harmonic, the folding of control and interaction times into half a phase period (with the
 * control strength reversed when folded back), the split of a time into whole cycles and a
 * leading remainder, the order and phases of the propagator pieces, the Larmor flush time and
 * the correction phases of U_int.  pi is a parameter (any positive value); the physical inputs
 * (Larmor frequency, hyperfine strength, phase frequencies) are parameters too, and the
 * propagators themselves are left out.
 */
module Control {
  import opened Wrappers
  import opened Bits
  import opened Matrices
  import opened Propagator

  /** x - floor(x / p) p, the floor-mod of lines 80, 128, 244, 268 and 274. */
  function Wrap(x: real, p: real): (r: real)
    requires p > 0.0
    ensures 0.0 <= r < p
  {
    FloorBounds(x, p);
    x - (x / p).Floor as real * p
  }

  lemma FloorBounds(x: real, p: real)
    requires p > 0.0
    ensures 0.0 <= x - (x / p).Floor as real * p < p
  {
    var q := x / p;
    var f := q.Floor as real;
    assert f <= q < f + 1.0;
    DivMul(x, p);
    MulLe(f, q, p);
    MulLt(q, f + 1.0, p);
    assert q * p == x;
    assert x < (f + 1.0) * p;
    assert (f + 1.0) * p == f * p + p;
    assert x - f * p < p;
  }

  /** a and b differ by a whole number of m. */
  predicate Congruent(a: real, b: real, m: real)
    requires m != 0.0
  {
    var q := (a - b) / m;
    q.Floor as real == q
  }

  lemma CongruentBy(a: real, b: real, m: real, k: int)
    requires m != 0.0 && a - b == k as real * m
    ensures Congruent(a, b, m)
  {
    assert (a - b) / m == k as real;
  }

  lemma CongruentWitness(a: real, b: real, m: real) returns (k: int)
    requires m != 0.0 && Congruent(a, b, m)
    ensures a - b == k as real * m
  {
    k := ((a - b) / m).Floor;
  }

  /** The floor-mod of x is the one value of [0, p) that differs from x by whole periods. */
  lemma WrapCongruent(x: real, p: real)
    requires p > 0.0
    ensures Congruent(x, Wrap(x, p), p)
  {
    CongruentBy(x, Wrap(x, p), p, (x / p).Floor);
  }

  /** The only whole multiple of p strictly between -p and p is 0. */
  lemma OnlyZeroMultiple(d: int, p: real, z: real)
    requires p > 0.0 && -p < z < p && z == d as real * p
    ensures d == 0
  {
    if d >= 1 {
      MulLe(1.0, d as real, p);
    } else if d <= -1 {
      MulLe(d as real, -1.0, p);
    }
  }

  lemma {:induction false} WrapUnique(x: real, p: real, y: real)
    requires p > 0.0 && 0.0 <= y < p && Congruent(x, y, p)
    ensures Wrap(x, p) == y
  {
    var k := CongruentWitness(x, y, p);
    var f := (x / p).Floor;
    var w := Wrap(x, p);
    var d := k - f;
    assert w == x - f as real * p;
    assert w - y == k as real * p - f as real * p;
    assert k as real * p - f as real * p == d as real * p;
    OnlyZeroMultiple(d, p, w - y);
  }

  /**
   * The folding of lines 79-84 (control_time and g_B_ctl of U_ctl) and 243-248
   * (interaction_time and f_DD of U_int): the time is brought into [0, period) by the
   * floor-mod and, past half a period, reflected to period - time with the strength reversed.
   * The product strength * time, the phase the operation accumulates, is unchanged modulo
   * strength * period, and the time ends within half a period.
   */
  method Fold(time0: real, period: real, strength0: real) returns (time: real, strength: real)
    requires period > 0.0
    ensures 0.0 <= time <= period / 2.0
    ensures strength == (if Wrap(time0, period) > period / 2.0 then -strength0 else strength0)
    ensures time == (if Wrap(time0, period) > period / 2.0 then period - Wrap(time0, period)
                     else Wrap(time0, period))
    ensures strength0 != 0.0 ==> Congruent(strength * time, strength0 * time0, strength0 * period)
  {
    time := time0;
    strength := strength0;
    time := time - (time / period).Floor as real * period;
    assert time == Wrap(time0, period);
    ghost var f := (time0 / period).Floor;
    ghost var w := time;
    if time > period / 2.0 {
      strength := -strength;
      time := period - time;
    }
    FoldCongruent(time0, period, strength0, w, f, time, strength);
  }

  /** The reflected or unreflected folded time keeps strength * time modulo strength * period. */
  lemma FoldCongruent(time0: real, period: real, strength0: real, w: real, f: int, time: real,
                      strength: real)
    requires period > 0.0 && time0 == w + f as real * period
    requires (time == period - w && strength == -strength0) || (time == w && strength == strength0)
    ensures strength0 != 0.0 ==> Congruent(strength * time, strength0 * time0, strength0 * period)
  {
    if strength0 != 0.0 {
      if time == period - w && strength == -strength0 {
        FoldReflected(time0, period, strength0, w, f, time, strength);
      } else {
        FoldUnreflected(time0, period, strength0, w, f, time, strength);
      }
    }
  }

  lemma FoldUnreflected(time0: real, period: real, strength0: real, w: real, f: int, time: real,
                        strength: real)
    requires period > 0.0 && strength0 != 0.0 && time0 == w + f as real * period
    requires time == w && strength == strength0
    ensures Congruent(strength * time, strength0 * time0, strength0 * period)
  {
    var m, fr := strength0 * period, f as real;
    assert strength0 * time0 == strength0 * w + strength0 * (fr * period);
    assert strength0 * (fr * period) == -f as real * -m;
    CongruentBy(strength * time, strength0 * time0, m, -f);
  }

  lemma FoldReflected(time0: real, period: real, strength0: real, w: real, f: int, time: real,
                      strength: real)
    requires period > 0.0 && strength0 != 0.0 && time0 == w + f as real * period
    requires time == period - w && strength == -strength0
    ensures Congruent(strength * time, strength0 * time0, strength0 * period)
  {
    var m, fr := strength0 * period, f as real;
    assert strength * time == strength0 * w - m;
    assert strength0 * time0 == strength0 * w + strength0 * (fr * period);
    assert strength0 * (fr * period) == fr * m;
    assert (-1 - f) as real * m == -m - fr * m;
    CongruentBy(strength * time, strength0 * time0, m, -1 - f);
  }

  /**
   * The cycle split of lines 98-101, 113-116 and 250-252: cycles whole periods of a
   * non-negative time, the leading remainder in [0, period) and the trailing rest of the
   * period.  Leading and trailing times make up a whole period, and the leading time followed
   * by cycles of trailing plus leading time adds up to the time.
   */
  method SplitCycles(time: real, period: real) returns (cycles: nat, leading: real, trailing: real)
    requires time >= 0.0 && period > 0.0
    ensures 0.0 <= leading < period && leading + trailing == period
    ensures leading + cycles as real * (trailing + leading) == time
  {
    var whole := Trunc(time / period);
    RemainingTime(time, period, whole);
    cycles := whole;
    leading := time - cycles as real * period;
    trailing := period - leading;
  }

  /** round() of C++ on a non-negative value: halves round up. */
  function Round(x: real): (r: int)
    requires x >= 0.0
    ensures r >= 0 && r as real - 0.5 <= x < r as real + 0.5
  {
    (x + 0.5).Floor
  }

  /**
   * The adjusted AXY frequency of U_ctl with adjust_AXY (lines 93-103 and 110-116): below the
   * Larmor frequency the DD frequency is brought to the Larmor frequency over an even ratio,
   * and the cycle is one adjusted DD period; above it the DD frequency is brought to a whole
   * multiple of the Larmor frequency, and the cycle is one Larmor period.  Either way one cycle
   * lasts a whole number of Larmor periods and a whole number of adjusted DD periods.
   */
  method AdjustFrequency(wDD: real, wLarmor: real, pi: real)
    returns (ratio: nat, wAdjusted: real, period: real)
    requires wDD != wLarmor
    requires wDD > 0.0 && wLarmor > 0.0 && pi > 0.0
    ensures ratio >= 1 && wAdjusted > 0.0 && period > 0.0
    ensures wDD < wLarmor ==>
      ratio % 2 == 0 && period * wLarmor == 2.0 * pi * ratio as real && period * wAdjusted == 2.0 * pi
    ensures wDD > wLarmor ==>
      period * wLarmor == 2.0 * pi && period * wAdjusted == 2.0 * pi * ratio as real
  {
    if wDD < wLarmor {
      ratio := EvenRatio(wDD, wLarmor);
      wAdjusted := wLarmor / ratio as real;
      period := 2.0 * pi / wAdjusted;
      SlowCycle(wLarmor, pi, ratio);
    } else {
      ratio := NearestRatio(wLarmor, wDD);
      wAdjusted := wLarmor * ratio as real;
      period := 2.0 * pi / wLarmor;
      FastCycle(wLarmor, pi, ratio);
    }
  }

  /**
   * U_ctl's split of the control time with adjust_AXY (lines 93-116): the control time is
   * divided into whole cycles of the adjusted period, with the remainder leading.
   */
  method AdjustedCycles(controlTime: real, wDD: real, wLarmor: real, pi: real)
    returns (ratio: nat, wAdjusted: real, period: real, cycles: nat, leading: real, trailing: real)
    requires wDD != wLarmor
    requires wDD > 0.0 && wLarmor > 0.0 && pi > 0.0 && controlTime >= 0.0
    ensures ratio >= 1 && wAdjusted > 0.0 && period > 0.0
    ensures wDD < wLarmor ==>
      ratio % 2 == 0 && period * wLarmor == 2.0 * pi * ratio as real && period * wAdjusted == 2.0 * pi
    ensures wDD > wLarmor ==>
      period * wLarmor == 2.0 * pi && period * wAdjusted == 2.0 * pi * ratio as real
    ensures 0.0 <= leading < period && leading + trailing == period
    ensures leading + cycles as real * (trailing + leading) == controlTime
  {
    ratio, wAdjusted, period := AdjustFrequency(wDD, wLarmor, pi);
    cycles, leading, trailing := SplitCycles(controlTime, period);
  }

  /** The ratio of a higher frequency to a lower one exceeds 1. */
  lemma Faster(lo: real, hi: real)
    requires 0.0 < lo < hi
    ensures hi / lo > 1.0 && 0.5 * hi / lo > 0.5
  {
    DivMul(hi, lo);
    MulLt(lo, hi, 1.0 / lo);
    assert 0.5 * hi / lo == 0.5 * (hi / lo);
  }

  /** Twice the rounded half of hi / lo, an even ratio of at least 2 when lo < hi. */
  function EvenRatio(lo: real, hi: real): (r: nat)
    requires 0.0 < lo < hi
    ensures r >= 2 && r % 2 == 0
  {
    Faster(lo, hi);
    2 * Round(0.5 * hi / lo)
  }

  /** hi / lo rounded, at least 1 when lo < hi. */
  function NearestRatio(lo: real, hi: real): (r: nat)
    requires 0.0 < lo < hi
    ensures r >= 1
  {
    Faster(lo, hi);
    Round(hi / lo)
  }

  /** Below the Larmor frequency one adjusted DD period lasts `ratio` Larmor periods. */
  lemma SlowCycle(wLarmor: real, pi: real, ratio: nat)
    requires wLarmor > 0.0 && pi > 0.0 && ratio >= 1
    ensures wLarmor / ratio as real > 0.0
    ensures 2.0 * pi / (wLarmor / ratio as real) > 0.0
    ensures (2.0 * pi / (wLarmor / ratio as real)) * wLarmor == 2.0 * pi * ratio as real
    ensures (2.0 * pi / (wLarmor / ratio as real)) * (wLarmor / ratio as real) == 2.0 * pi
  {
    var r := ratio as real;
    var wa := wLarmor / r;
    DivMul(wLarmor, r);
    var p := 2.0 * pi / wa;
    DivMul(2.0 * pi, wa);
    assert p * wLarmor == p * wa * r;
  }

  /** Above the Larmor frequency one Larmor period lasts `ratio` adjusted DD periods. */
  lemma FastCycle(wLarmor: real, pi: real, ratio: nat)
    requires wLarmor > 0.0 && pi > 0.0 && ratio >= 1
    ensures wLarmor * ratio as real > 0.0
    ensures 2.0 * pi / wLarmor > 0.0
    ensures (2.0 * pi / wLarmor) * wLarmor == 2.0 * pi
    ensures (2.0 * pi / wLarmor) * (wLarmor * ratio as real) == 2.0 * pi * ratio as real
  {
    var p := 2.0 * pi / wLarmor;
    DivMul(2.0 * pi, wLarmor);
    assert p * (wLarmor * ratio as real) == p * wLarmor * ratio as real;
  }

  /** One call of simulate_propagator: its simulation time and its phase advance. */
  datatype Piece = Piece(length: real, advance: real)

  /**
   * U_leading * pow(U_trailing * U_leading, cycles) (lines 103-108, 118-123 and 256-261), as the
   * pieces in the order they act: every leading piece starts at the phase advance start (0 in
   * U_ctl, phase_advance in U_int) and every trailing one leading later.
   */
  function CyclePieces(leading: real, trailing: real, cycles: nat, start: real): seq<Piece>
  {
    if cycles == 0 then [Piece(leading, start)]
    else
      CyclePieces(leading, trailing, cycles - 1, start) +
      [Piece(trailing, start + leading), Piece(leading, start)]
  }

  /** The total simulation time of a list of pieces. */
  function Elapsed(ps: seq<Piece>): real
  {
    if |ps| == 0 then 0.0 else Elapsed(ps[..|ps| - 1]) + ps[|ps| - 1].length
  }

  /** The pieces last leading + cycles (trailing + leading): one leading piece, then whole cycles. */
  lemma {:induction false} CyclePiecesElapsed(leading: real, trailing: real, cycles: nat, start: real,
                                              period: real)
    requires leading + trailing == period
    ensures |CyclePieces(leading, trailing, cycles, start)| == 2 * cycles + 1
    ensures Elapsed(CyclePieces(leading, trailing, cycles, start)) == leading + cycles as real * period
  {
    if cycles > 0 {
      var prev := CyclePieces(leading, trailing, cycles - 1, start);
      CyclePiecesElapsed(leading, trailing, cycles - 1, start, period);
      var before := leading + (cycles - 1) as real * period;
      CycleStep(prev, Piece(trailing, start + leading), Piece(leading, start));
      CycleArithmetic(leading, trailing, period, cycles, before);
    }
  }

  /**
   * Each piece starts at the phase of the AXY period that the pieces before it have reached:
   * its advance differs from start plus the time elapsed before it by whole periods, so the
   * pieces together act as one uninterrupted sequence started at phase start.
   */
  lemma {:induction false} CyclePiecesPhases(leading: real, trailing: real, cycles: nat, start: real,
                                             period: real)
    requires period > 0.0 && leading + trailing == period
    ensures InPhase(CyclePieces(leading, trailing, cycles, start), start, period)
  {
    if cycles == 0 {
      SinglePieceInPhase(leading, start, period);
    } else {
      var prev := CyclePieces(leading, trailing, cycles - 1, start);
      var before := leading + (cycles - 1) as real * period;
      CyclePiecesPhases(leading, trailing, cycles - 1, start, period);
      CyclePiecesElapsed(leading, trailing, cycles - 1, start, period);
      CycleCongruences(leading, trailing, period, cycles, before, start);
      PhasesAppend(prev, leading, trailing, start, before, period);
    }
  }

  lemma SinglePieceInPhase(leading: real, start: real, period: real)
    requires period != 0.0
    ensures InPhase([Piece(leading, start)], start, period)
  {
    assert [Piece(leading, start)][..0] == [];
    CongruentBy(start, start + 0.0, period, 0);
  }

  /** After c - 1 whole cycles, the next trailing and leading pieces start in phase. */
  lemma CycleCongruences(leading: real, trailing: real, period: real, c: nat, before: real, start: real)
    requires period > 0.0 && leading + trailing == period && c >= 1
    requires before == leading + (c - 1) as real * period
    ensures Congruent(start + leading, start + before, period)
    ensures Congruent(start, start + (before + trailing), period)
  {
    CycleArithmetic(leading, trailing, period, c, before);
    CongruentBy(start + leading, start + before, period, -(c - 1));
    CongruentBy(start, start + (before + trailing), period, -(c as int));
  }

  /** Whether every piece's advance is congruent to start plus the time elapsed before it. */
  predicate InPhase(ps: seq<Piece>, start: real, period: real)
    requires period != 0.0
  {
    |ps| == 0 ||
    (InPhase(ps[..|ps| - 1], start, period) &&
     Congruent(ps[|ps| - 1].advance, start + Elapsed(ps[..|ps| - 1]), period))
  }

  /** In phase, piece by piece. */
  lemma {:induction false} InPhaseAt(ps: seq<Piece>, start: real, period: real, i: nat)
    requires period != 0.0 && InPhase(ps, start, period) && i < |ps|
    ensures Congruent(ps[i].advance, start + Elapsed(ps[..i]), period)
  {
    if i < |ps| - 1 {
      var init := ps[..|ps| - 1];
      InPhaseAt(init, start, period, i);
      assert init[i] == ps[i] && init[..i] == ps[..i];
    }
  }

  /** Appending a cycle that starts in phase keeps the pieces in phase. */
  lemma PhasesAppend(prev: seq<Piece>, leading: real, trailing: real, start: real, before: real,
                     period: real)
    requires period != 0.0 && InPhase(prev, start, period)
    requires Elapsed(prev) == before
    requires Congruent(start + leading, start + before, period)
    requires Congruent(start, start + (before + trailing), period)
    ensures InPhase(prev + [Piece(trailing, start + leading), Piece(leading, start)], start, period)
  {
    var mid := prev + [Piece(trailing, start + leading)];
    assert mid[..|prev|] == prev;
    assert InPhase(mid, start, period);
    assert Elapsed(mid) == before + trailing;
    assert (prev + [Piece(trailing, start + leading), Piece(leading, start)])[..|mid|] == mid;
  }

  lemma CycleArithmetic(leading: real, trailing: real, period: real, c: nat, before: real)
    requires leading + trailing == period && c >= 1
    requires before == leading + (c - 1) as real * period
    ensures before + period == leading + c as real * period
    ensures leading - before == (-(c - 1)) as real * period
    ensures 0.0 - (before + trailing) == (-(c as int)) as real * period
  {
    var r := c as real;
    assert (c - 1) as real == r - 1.0;
    assert (r - 1.0) * period + period == r * period;
  }

  /** One more cycle, a trailing piece t and a leading piece l, appended to pieces prev. */
  lemma CycleStep(prev: seq<Piece>, t: Piece, l: Piece)
    ensures Elapsed(prev + [t, l]) == Elapsed(prev) + t.length + l.length
  {
    var mid := prev + [t];
    assert mid[..|prev|] == prev;
    assert (prev + [t, l])[..|mid|] == mid;
  }

  /** ceil() of C++. */
  function Ceil(x: real): (r: int)
    ensures x <= r as real < x + 1.0
  {
    -((-x).Floor)
  }

  /**
   * flush_time of U_ctl (lines 127-128): the time to the next whole Larmor period after the
   * control time, less the z phase in time units, floor-moded into [0, t_larmor).  The control
   * and the flush together last a whole number of Larmor periods less z_phase / w_larmor.
   */
  method FlushTime(controlTime: real, tLarmor: real, zShift: real) returns (flushTime: real)
    requires tLarmor > 0.0
    ensures 0.0 <= flushTime < tLarmor
    ensures Congruent(controlTime + flushTime + zShift, 0.0, tLarmor)
  {
    var turns := Ceil(controlTime / tLarmor);
    flushTime := turns as real * tLarmor - controlTime - zShift;
    ghost var f0 := flushTime;
    flushTime := flushTime - (flushTime / tLarmor).Floor as real * tLarmor;
    assert flushTime == Wrap(f0, tLarmor);
    CongruentBy(controlTime + flushTime + zShift, 0.0, tLarmor, turns - (f0 / tLarmor).Floor);
  }

  /**
   * The correction phases of U_int (lines 267-274): z_phase, the Larmor precession during the
   * interaction floor-moded into [0, 2 pi); z_flush_phase, the shorter way back around the
   * circle, in [0, pi]; and xy_phase, the control rotation during the interaction floor-moded
   * into [0, 2 pi).
   */
  method InteractionPhases(interactionTime: real, wLarmor: real, wCtl: real, pi: real)
    returns (zPhase: real, zFlushPhase: real, xyPhase: real)
    requires pi > 0.0
    ensures 0.0 <= zPhase < 2.0 * pi && Congruent(zPhase, interactionTime * wLarmor, 2.0 * pi)
    ensures 0.0 <= zFlushPhase <= pi
    ensures zFlushPhase <= zPhase && zFlushPhase <= 2.0 * pi - zPhase
    ensures zFlushPhase == zPhase || zFlushPhase == 2.0 * pi - zPhase
    ensures 0.0 <= xyPhase < 2.0 * pi && Congruent(xyPhase, interactionTime * wCtl, 2.0 * pi)
  {
    var turn := 2.0 * pi;
    var precession := interactionTime * wLarmor;
    zPhase := precession - (precession / turn).Floor as real * turn;
    assert zPhase == Wrap(precession, turn);
    WrapCongruent(precession, turn);
    CongruentSymmetric(precession, zPhase, turn);
    zFlushPhase := if zPhase < pi then zPhase else turn - zPhase;
    var rotation := interactionTime * wCtl;
    xyPhase := rotation - (rotation / turn).Floor as real * turn;
    assert xyPhase == Wrap(rotation, turn);
    WrapCongruent(rotation, turn);
    CongruentSymmetric(rotation, xyPhase, turn);
  }

  lemma CongruentSymmetric(a: real, b: real, m: real)
    requires m != 0.0 && Congruent(a, b, m)
    ensures Congruent(b, a, m)
  {
    var k := CongruentWitness(a, b, m);
    CongruentBy(b, a, m, -k);
  }

  /** |x|. */
  function Abs(x: real): (r: real)
    ensures r >= 0.0 && (r == x || r == -x)
  {
    if x < 0.0 then -x else x
  }

  /** (wL - sA) / w is an even whole number of at least 2: w is a small AXY resonance. */
  predicate EvenResonance(w: real, wLarmor: real, sA: real)
    requires w != 0.0
  {
    var q := (wLarmor - sA) / w;
    q.Floor as real == q && q.Floor >= 2 && q.Floor % 2 == 0
  }

  /**
   * w_DD of U_ctl (lines 52-65).  The large frequency (w_larmor + sA) / 3 is used below sA; above
   * it, the small frequency (w_larmor - sA) / k_m over the even k_m = 2 int((w_larmor/sA - 1) / 2)
   * is used when it exceeds sA and is finite (k_m > 0; for k_m = 0 it is infinite or NaN).
   * The frequency is positive, and either the third harmonic of the large frequency meets
   * w_larmor + sA or the small frequency exceeds sA and is an even resonance.
   */
  function DDFrequency(wLarmor: real, sA: real): (w: real)
    requires wLarmor > 0.0 && sA > 0.0
    ensures w > 0.0
    ensures 3.0 * w == wLarmor + sA || (w > sA && EvenResonance(w, wLarmor, sA))
  {
    var large := (wLarmor + sA) / 3.0;
    if wLarmor < sA then large
    else
      var km := 2 * Trunc(0.5 * (wLarmor / sA - 1.0));
      if km <= 0 then large
      else
        var small := (wLarmor - sA) / km as real;
        if small > sA then
          DivMul(wLarmor - sA, km as real);
          assert (wLarmor - sA) / small == km as real;
          small
        else large
  }

  /** k_DD of U_ctl (line 68): the first harmonic when it is strictly nearer w_larmor, else the third. */
  function Harmonic(wDD: real, wLarmor: real): (k: nat)
    ensures k == 1 || k == 3
    ensures Abs(k as real * wDD - wLarmor) <= Abs((4 - k) as real * wDD - wLarmor)
    ensures Abs(wDD - wLarmor) == Abs(3.0 * wDD - wLarmor) ==> k == 3
  {
    if Abs(wDD - wLarmor) < Abs(3.0 * wDD - wLarmor) then 1 else 3
  }

  /**
   * The harmonic that goes with the chosen frequency: below sA the large frequency is nearer
   * w_larmor at the first harmonic; the small frequency always at the third.
   */
  lemma DDHarmonic(wLarmor: real, sA: real)
    requires wLarmor > 0.0 && sA > 0.0
    ensures wLarmor < sA ==> Harmonic(DDFrequency(wLarmor, sA), wLarmor) == 1
    ensures 3.0 * DDFrequency(wLarmor, sA) != wLarmor + sA ==>
      Harmonic(DDFrequency(wLarmor, sA), wLarmor) == 3
  {
    var w := DDFrequency(wLarmor, sA);
    if 3.0 * w != wLarmor + sA {
      var q := (wLarmor - sA) / w;
      DivMul(wLarmor - sA, w);
      assert wLarmor == q * w + sA;
      var km := q.Floor;
      assert km >= 2;
      if km == 2 {
        assert wLarmor == 2.0 * w + sA;
      } else {
        MulLe(4.0, q, w);
        assert wLarmor >= 4.0 * w + sA;
      }
    }
  }

  /**
   * The early return of act_target (lines 152-153): a rotation whose angle (the norm of the
   * rotation vector read off the matrix logarithm of the target's propagator, which is not part
   * of this model) is zero acts as the identity on the 2^spins states of the cluster; any other
   * rotation goes on to U_ctl, which is not part of this model either (None).
   */
  function ZeroRotation(rotationAngle: real, spins: nat): (r: Option<Matrix>)
    ensures r.Some? <==> rotationAngle == 0.0
    ensures r.Some? ==>
      (IsSquare(r.value, Pow2(spins)) &&
       forall i, j :: 0 <= i < Pow2(spins) && 0 <= j < Pow2(spins) ==>
         r.value[i][j] == (if i == j then 1 else 0))
  {
    if rotationAngle == 0.0 then Some(Identity(Pow2(spins))) else None
  }
}
