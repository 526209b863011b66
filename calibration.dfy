/**
 * find_target_coupling (nv-math.cpp:173-214 and its older form nv-math.h:130-158): a search for
 * a coupling threshold at which the largest cluster just reaches a target size.  The threshold
 * moves by a step dcc up while the largest cluster is at least the target and down while it is
 * smaller; the step doubles until the search first crosses the target and halves at every
 * crossing.  Nothing bounds the number of rounds, so the loop runs on a fuel budget here and
 * reports running out of it; a coupling it does return is proved to meet the exit condition.
 */
module Calibration {
  import opened Wrappers
  import opened Clustering
  import opened Spins

  /** Whether the largest cluster at a threshold reaches the target (coupling_too_small). */
  function ReachesTarget(strength: Strength, n: nat, threshold: real, target: nat): bool
  {
    LargestSize(Clusters(strength, threshold, n)) >= target
  }

  /** One evaluation of the exit test: cluster at the threshold and compare the largest size. */
  method TestCoupling(strength: Strength, n: nat, threshold: real, target: nat) returns (tooSmall: bool)
    ensures tooSmall == ReachesTarget(strength, n, threshold, target)
  {
    var clusters := ClusterNuclei(strength, threshold, n);
    var largest := LargestClusterSize(clusters);
    tooSmall := largest >= target;
  }

  /**
   * The while loop of find_target_coupling (nv-math.cpp:189-213, nv-math.h:133-157).  crossed0
   * is the initial value of crossed_correct_coupling: false in nv-math.cpp, never initialised in
   * nv-math.h.  On exit (Some) the largest cluster at the returned coupling reaches the target
   * and the last step is below the cutoff; a positive initial coupling keeps every step positive.
   */
  method SearchCoupling(strength: Strength, n: nat, initial: real, target: nat, cutoff: real,
                        crossed0: bool, fuel: nat)
    returns (result: Option<real>, step: real)
    ensures result.Some? ==> ReachesTarget(strength, n, result.value, target) && step < cutoff
    ensures initial > 0.0 ==> step > 0.0
  {
    var coupling := initial;
    step := coupling / 4.0;
    var tooSmall := TestCoupling(strength, n, coupling, target);
    var crossed := crossed0;
    var budget := fuel;
    while step >= cutoff || !tooSmall
      invariant tooSmall == ReachesTarget(strength, n, coupling, target)
      invariant initial > 0.0 ==> step > 0.0
      decreases budget
    {
      if budget == 0 {
        return None, step;
      }
      budget := budget - 1;
      var lastTooSmall := tooSmall;
      coupling := coupling + (if tooSmall then step else -step);
      tooSmall := TestCoupling(strength, n, coupling, target);
      if tooSmall != lastTooSmall {
        crossed := true;
      }
      if tooSmall == lastTooSmall {
        if !crossed {
          step := step * 2.0;
        }
      } else {
        step := step / 2.0;
      }
    }
    result := Some(coupling);
  }

  /**
   * The double loop of the special case cluster_size_target == 1 (nv-math.cpp:178-185): the
   * largest coupling of a pair i < j, or 0 when no pair couples more strongly.
   */
  method MaxPairCoupling(strength: Strength, n: nat) returns (m: real)
    ensures m >= 0.0
    ensures forall a: nat, b: nat :: a < b < n ==> strength(a, b) <= m
    ensures m == 0.0 || exists a: nat, b: nat :: a < b < n && strength(a, b) == m
  {
    m := 0.0;
    var i := 0;
    while i < n
      invariant 0 <= i <= n && m >= 0.0
      invariant forall a: nat, b: nat :: a < i && a < b < n ==> strength(a, b) <= m
      invariant m == 0.0 || exists a: nat, b: nat :: a < b < n && strength(a, b) == m
    {
      var j := i + 1;
      while j < n
        invariant i + 1 <= j <= n && m >= 0.0
        invariant forall a: nat, b: nat :: a < i && a < b < n ==> strength(a, b) <= m
        invariant forall b: nat :: i < b < j ==> strength(i, b) <= m
        invariant m == 0.0 || exists a: nat, b: nat :: a < b < n && strength(a, b) == m
      {
        var c := strength(i, j);
        if c > m {
          m := c;
        }
        j := j + 1;
      }
      i := i + 1;
    }
  }

  /**
   * find_target_coupling of nv-math.cpp (lines 173-214).  It asserts a positive cutoff.  For a
   * target of one nucleus it returns the largest pair coupling plus the cutoff, a threshold above
   * every coupling; otherwise it runs the search with crossed_correct_coupling set to false.
   */
  method FindTargetCoupling(strength: Strength, n: nat, initial: real, target: nat, cutoff: real,
                            fuel: nat)
    returns (result: Option<real>)
    requires cutoff > 0.0
    ensures target == 1 ==> result.Some? && Clusters(strength, result.value, n) == Singletons(n)
    ensures result.Some? ==> ReachesTarget(strength, n, result.value, target) || n == 0
  {
    if target == 1 {
      var m := MaxPairCoupling(strength, n);
      result := Some(m + cutoff);
      ClustersSingletons(strength, m + cutoff, n);
      SingletonsLargest(n);
      return;
    }
    var step;
    result, step := SearchCoupling(strength, n, initial, target, cutoff, false, fuel);
  }

  /** Every singleton cluster has size one, so the largest is 1 (0 for no nuclei). */
  lemma SingletonsLargest(n: nat)
    ensures LargestSize(Singletons(n)) == (if n == 0 then 0 else 1)
  {
    if n > 0 {
      assert |Singletons(n)[0]| == 1;
    }
  }

  /**
   * find_target_coupling of nv-math.h (lines 130-158), over spins clustered by get_clusters and
   * with no special case for a target of one.  crossed_correct_coupling is read before it is
   * ever set (line 139), so its initial value is a parameter.
   */
  method FindTargetCouplingSpins(coupling: Coupling, spins: seq<Spin>, target: nat, initial: real,
                                 cutoff: real, crossedInit: bool, fuel: nat)
    returns (result: Option<real>)
    ensures result.Some? ==> LargestSize(IndexClusters(coupling, spins, result.value)) >= target
  {
    var step;
    result, step := SearchCoupling(PairStrength(coupling, spins), |spins|, initial, target, cutoff,
                                   crossedInit, fuel);
  }
}
