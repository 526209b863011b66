/**
 * The spin record of nv-math.h:45-62 and the older, spin-valued clustering of nv-math.h:82-127.
 * A spin is a value (the struct is copied, never updated after construction): a position, a
 * gyromagnetic ratio and the components of its spin vector.  Positions and ratios are reals; the
 * spin-vector components are matrices over the ring of Matrices.
 */
module Spins {
  import opened Bits
  import opened Matrices
  import opened Clustering

  datatype Spin = Spin(pos: seq<real>, g: real, S: seq<Matrix>)

  /** What the constructor asserts: a spin vector has three components. */
  predicate WellBuilt(s: Spin)
  {
    |s.S| == 3
  }

  /**
   * spin::operator==: positions and ratios equal and the spin vectors equal component by
   * component (mvec's ==, which asserts that both have as many components).
   */
  function Equal(s: Spin, t: Spin): (r: bool)
    requires |s.S| == |t.S|
    ensures r <==> s == t
  {
    s.pos == t.pos && s.g == t.g && forall i :: 0 <= i < |s.S| ==> s.S[i] == t.S[i]
  }

  /** spin::operator!=: the negation of ==. */
  function NotEqual(s: Spin, t: Spin): (r: bool)
    requires |s.S| == |t.S|
    ensures r <==> s != t
  {
    !Equal(s, t)
  }

  /** coupling_strength of two spins, a physical formula left abstract. */
  type Coupling = (Spin, Spin) -> real

  /** The coupling of the spins with indices a and b (0 outside the list, where it is never used). */
  function PairStrength(coupling: Coupling, spins: seq<Spin>): Strength
  {
    (a: nat, b: nat) => if a < |spins| && b < |spins| then coupling(spins[a], spins[b]) else 0.0
  }

  /** Every index in the clusters of cluster_nuclei is below n. */
  lemma ClustersBelow(strength: Strength, threshold: real, n: nat)
    ensures forall c, k ::
      (0 <= c < |Clusters(strength, threshold, n)| && 0 <= k < |Clusters(strength, threshold, n)[c]|)
      ==> Clusters(strength, threshold, n)[c][k] < n
  {
    var cs := Clusters(strength, threshold, n);
    ClustersProperties(strength, threshold, n);
    forall c, k | 0 <= c < |cs| && 0 <= k < |cs[c]|
      ensures cs[c][k] < n
    {
      FlattenMember(cs, cs[c][k]);
    }
  }

  /** The spins a list of indices names. */
  function Pick(spins: seq<Spin>, cl: seq<nat>): (r: seq<Spin>)
    requires Below(cl, |spins|)
    ensures |r| == |cl| && forall k :: 0 <= k < |cl| ==> r[k] == spins[cl[k]]
  {
    seq(|cl|, k requires 0 <= k < |cl| => spins[cl[k]])
  }

  /** The index clusters of the spins at a threshold. */
  function IndexClusters(coupling: Coupling, spins: seq<Spin>, threshold: real): seq<seq<nat>>
  {
    Clusters(PairStrength(coupling, spins), threshold, |spins|)
  }

  /**
   * get_clusters (nv-math.h:82-118).  Its loops are those of cluster_nuclei, carrying the spin
   * of every index alongside it: cluster ci grows by each later unclustered spin k whose coupling
   * to the ci-th spin of the cluster reaches the threshold.  The result is the index clusters
   * with every index replaced by its spin.
   */
  method GetClusters(coupling: Coupling, spins: seq<Spin>, minCoupling: real)
    returns (clusters: seq<seq<Spin>>)
    ensures |clusters| == |IndexClusters(coupling, spins, minCoupling)|
    ensures forall c :: 0 <= c < |clusters| ==>
      Below(IndexClusters(coupling, spins, minCoupling)[c], |spins|) &&
      clusters[c] == Pick(spins, IndexClusters(coupling, spins, minCoupling)[c])
  {
    var indices := ClusterNuclei(PairStrength(coupling, spins), minCoupling, |spins|);
    ClustersBelow(PairStrength(coupling, spins), minCoupling, |spins|);
    clusters := [];
    var c := 0;
    while c < |indices|
      invariant 0 <= c <= |indices| && |clusters| == c
      invariant forall d :: 0 <= d < c ==> clusters[d] == Pick(spins, indices[d])
    {
      clusters := clusters + [Pick(spins, indices[c])];
      c := c + 1;
    }
  }

  /**
   * Every spin of the input lies in exactly one cluster of get_clusters, at the position its
   * index has in the index clusters; every cluster is non-empty and the clusters are ordered by
   * the index of their first spin.
   */
  lemma GetClustersPlacement(coupling: Coupling, spins: seq<Spin>, minCoupling: real, i: nat)
    requires i < |spins|
    ensures Ordered(IndexClusters(coupling, spins, minCoupling))
    ensures exists c, k ::
      (0 <= c < |IndexClusters(coupling, spins, minCoupling)| &&
       0 <= k < |IndexClusters(coupling, spins, minCoupling)[c]| &&
       IndexClusters(coupling, spins, minCoupling)[c][k] == i)
    ensures forall c, d ::
      (0 <= c < |IndexClusters(coupling, spins, minCoupling)| &&
       0 <= d < |IndexClusters(coupling, spins, minCoupling)| &&
       i in IndexClusters(coupling, spins, minCoupling)[c] &&
       i in IndexClusters(coupling, spins, minCoupling)[d]) ==> c == d
  {
    var strength := PairStrength(coupling, spins);
    ClustersProperties(strength, minCoupling, |spins|);
    ClusterOfIndex(strength, minCoupling, |spins|, i);
    var cs := Clusters(strength, minCoupling, |spins|);
    var c :| 0 <= c < |cs| && i in cs[c];
    var k :| 0 <= k < |cs[c]| && cs[c][k] == i;
  }

  /** Two lists of clusters with the same sizes have the same largest size. */
  lemma LargestSizeSameShape<A, B>(xs: seq<seq<A>>, ys: seq<seq<B>>)
    requires |xs| == |ys| && forall c :: 0 <= c < |xs| ==> |xs[c]| == |ys[c]|
    ensures LargestSize(xs) == LargestSize(ys)
  {
    if |xs| > 0 {
      var c :| 0 <= c < |xs| && |xs[c]| == LargestSize(xs);
      var d :| 0 <= d < |ys| && |ys[d]| == LargestSize(ys);
      assert |ys[c]| <= LargestSize(ys);
      assert |xs[d]| <= LargestSize(xs);
    }
  }

  /** largest_cluster_size of the spin clusters (nv-math.h:121-127) is that of the index clusters. */
  lemma SpinLargestSize(coupling: Coupling, spins: seq<Spin>, minCoupling: real, clusters: seq<seq<Spin>>)
    requires |clusters| == |IndexClusters(coupling, spins, minCoupling)|
    requires forall c :: 0 <= c < |clusters| ==>
      Below(IndexClusters(coupling, spins, minCoupling)[c], |spins|) &&
      clusters[c] == Pick(spins, IndexClusters(coupling, spins, minCoupling)[c])
    ensures LargestSize(clusters) == LargestSize(IndexClusters(coupling, spins, minCoupling))
  {
    LargestSizeSameShape(clusters, IndexClusters(coupling, spins, minCoupling));
  }
}
