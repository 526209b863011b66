/**
 * Spin clustering of nv-math.cpp:92-234.  Nuclei are numbered 0..n-1 and the coupling
 * strength between two of them is an abstract function of their indices.  cluster_nuclei
 * starts a cluster at every index not yet clustered and grows it by scanning, for each member
 * in turn, the higher indices that are still unclustered and couple strongly enough to it.
 */
module Clustering {
  import opened Wrappers
  import opened Bits
  import opened QubitIndex

  /** The coupling strength between the nuclei with the given indices. */
  type Strength = (nat, nat) -> real

  /** The clusters one after another. */
  function Flatten(cs: seq<seq<nat>>): seq<nat>
  {
    if |cs| == 0 then [] else Flatten(cs[..|cs| - 1]) + cs[|cs| - 1]
  }

  lemma FlattenAppend(cs: seq<seq<nat>>, c: seq<nat>)
    ensures Flatten(cs + [c]) == Flatten(cs) + c
  {
    assert (cs + [c])[..|cs|] == cs;
  }

  /**
   * The k-loop (lines 112-121): for k from `k` up to n-1, every unclustered k with
   * strength(c, k) >= threshold is appended to the cluster and to the clustered list.
   */
  function Scan(strength: Strength, threshold: real, n: nat, c: nat, k: nat,
                cluster: seq<nat>, clustered: seq<nat>): (r: (seq<nat>, seq<nat>))
    ensures |r.1| >= |clustered| && r.1[..|clustered|] == clustered
    ensures r.0 == cluster + r.1[|clustered|..]
    decreases n - k
  {
    if k >= n then (cluster, clustered)
    else if !InVector(k, clustered) && strength(c, k) >= threshold then
      var r := Scan(strength, threshold, n, c, k + 1, cluster + [k], clustered + [k]);
      assert r.1[..|clustered|] == r.1[..|clustered| + 1][..|clustered|];
      assert r.1[|clustered|..] == [k] + r.1[|clustered| + 1..];
      r
    else
      Scan(strength, threshold, n, c, k + 1, cluster, clustered)
  }

  /**
   * The entries of r1 after the first |clustered| are unclustered, in [k, n), coupled to c at
   * the threshold, and ascending.
   */
  ghost predicate Appended(strength: Strength, threshold: real, n: nat, c: nat, k: nat,
                           clustered: seq<nat>, r1: seq<nat>)
  {
    (forall j :: |clustered| <= j < |r1| ==>
       k <= r1[j] < n && r1[j] !in clustered && strength(c, r1[j]) >= threshold) &&
    (forall j1, j2 :: |clustered| <= j1 < j2 < |r1| ==> r1[j1] < r1[j2])
  }

  /**
   * The indices a scan appends are unclustered, in [k, n), coupled to c at the threshold and
   * ascending.
   */
  lemma {:induction false} ScanShape(strength: Strength, threshold: real, n: nat, c: nat, k: nat,
                                     cluster: seq<nat>, clustered: seq<nat>)
    ensures Appended(strength, threshold, n, c, k, clustered,
                     Scan(strength, threshold, n, c, k, cluster, clustered).1)
    decreases n - k
  {
    if k < n {
      if !InVector(k, clustered) && strength(c, k) >= threshold {
        var cl := clustered + [k];
        ScanShape(strength, threshold, n, c, k + 1, cluster + [k], cl);
        var r := Scan(strength, threshold, n, c, k + 1, cluster + [k], cl);
        assert r == Scan(strength, threshold, n, c, k, cluster, clustered);
        ScanTake(strength, threshold, n, c, k, clustered, r.1);
      } else {
        ScanShape(strength, threshold, n, c, k + 1, cluster, clustered);
        assert Scan(strength, threshold, n, c, k + 1, cluster, clustered)
            == Scan(strength, threshold, n, c, k, cluster, clustered);
      }
    }
  }

  /** Taking k into the cluster puts k right after the clustered list, before the later indices. */
  lemma ScanTake(strength: Strength, threshold: real, n: nat, c: nat, k: nat,
                 clustered: seq<nat>, r1: seq<nat>)
    requires k < n && k !in clustered && strength(c, k) >= threshold
    requires |r1| > |clustered| && r1[..|clustered| + 1] == clustered + [k]
    requires Appended(strength, threshold, n, c, k + 1, clustered + [k], r1)
    ensures Appended(strength, threshold, n, c, k, clustered, r1)
  {
    assert r1[|clustered|] == r1[..|clustered| + 1][|clustered|];
    forall j | |clustered| <= j < |r1|
      ensures k <= r1[j] < n && r1[j] !in clustered && strength(c, r1[j]) >= threshold
    {
      if j > |clustered| {
        assert r1[j] !in clustered + [k];
      }
    }
  }

  /** Scanning keeps the clustered list free of repeats and below n. */
  lemma ScanKeeps(strength: Strength, threshold: real, n: nat, c: nat, k: nat,
                  cluster: seq<nat>, clustered: seq<nat>)
    requires Distinct(clustered) && Below(clustered, n)
    ensures Distinct(Scan(strength, threshold, n, c, k, cluster, clustered).1)
    ensures Below(Scan(strength, threshold, n, c, k, cluster, clustered).1, n)
  {
    var r := Scan(strength, threshold, n, c, k, cluster, clustered);
    ScanShape(strength, threshold, n, c, k, cluster, clustered);
    forall j1, j2 | 0 <= j1 < j2 < |r.1|
      ensures r.1[j1] != r.1[j2]
    {
      if j2 >= |clustered| && j1 < |clustered| {
        assert r.1[j1] in clustered;
      }
    }
    forall j | 0 <= j < |r.1|
      ensures r.1[j] < n
    {
      if j < |clustered| {
        assert r.1[j] == clustered[j];
      }
    }
  }

  /**
   * The ci-loop (lines 109-122): scan from every member of the cluster in turn, including the
   * members the scans append.
   */
  function Grow(strength: Strength, threshold: real, n: nat, ci: nat,
                cluster: seq<nat>, clustered: seq<nat>): (r: (seq<nat>, seq<nat>))
    requires Distinct(clustered) && Below(clustered, n)
    ensures |r.1| >= |clustered| && r.1[..|clustered|] == clustered
    ensures r.0 == cluster + r.1[|clustered|..]
    ensures Distinct(r.1) && Below(r.1, n)
    decreases n - |clustered|, |cluster| - ci
  {
    if ci >= |cluster| then (cluster, clustered)
    else
      var s := Scan(strength, threshold, n, cluster[ci], cluster[ci] + 1, cluster, clustered);
      ScanKeeps(strength, threshold, n, cluster[ci], cluster[ci] + 1, cluster, clustered);
      ComplementSize(clustered, n);
      ComplementSize(s.1, n);
      var r := Grow(strength, threshold, n, ci + 1, s.0, s.1);
      assert r.1[..|clustered|] == r.1[..|s.1|][..|clustered|];
      assert r.1[|clustered|..] == s.1[|clustered|..] + r.1[|s.1|..];
      r
  }

  /** The i-loop (lines 99-125) from index i on. */
  function Outer(strength: Strength, threshold: real, n: nat, i: nat,
                 clusters: seq<seq<nat>>, clustered: seq<nat>): seq<seq<nat>>
    requires Distinct(clustered) && Below(clustered, n)
    decreases n - i
  {
    if i >= n then clusters
    else if InVector(i, clustered) then Outer(strength, threshold, n, i + 1, clusters, clustered)
    else
      var g := Grow(strength, threshold, n, 0, [i], clustered + [i]);
      Outer(strength, threshold, n, i + 1, clusters + [g.0], g.1)
  }

  /** cluster_nuclei(nuclei, min_coupling_strength) for n nuclei. */
  function Clusters(strength: Strength, threshold: real, n: nat): seq<seq<nat>>
  {
    Outer(strength, threshold, n, 0, [], [])
  }

  /** cluster_nuclei (lines 92-127). */
  method ClusterNuclei(strength: Strength, threshold: real, n: nat) returns (clusters: seq<seq<nat>>)
    ensures clusters == Clusters(strength, threshold, n)
  {
    clusters := [];
    var clustered: seq<nat> := [];
    var i := 0;
    while i < n
      invariant i <= n && Distinct(clustered) && Below(clustered, n)
      invariant Outer(strength, threshold, n, i, clusters, clustered) == Clusters(strength, threshold, n)
    {
      if !InVector(i, clustered) {
        var cluster;
        cluster, clustered := GrowCluster(strength, threshold, n, [i], clustered + [i]);
        clusters := clusters + [cluster];
      }
      i := i + 1;
    }
  }

  /** The ci-loop of cluster_nuclei (lines 109-122), on the cluster just started. */
  method GrowCluster(strength: Strength, threshold: real, n: nat, cluster0: seq<nat>, clustered0: seq<nat>)
    returns (cluster: seq<nat>, clustered: seq<nat>)
    requires Distinct(clustered0) && Below(clustered0, n)
    ensures (cluster, clustered) == Grow(strength, threshold, n, 0, cluster0, clustered0)
    ensures Distinct(clustered) && Below(clustered, n)
  {
    cluster, clustered := cluster0, clustered0;
    var ci := 0;
    while ci < |cluster|
      invariant ci <= |cluster| && Distinct(clustered) && Below(clustered, n)
      invariant Grow(strength, threshold, n, ci, cluster, clustered)
                == Grow(strength, threshold, n, 0, cluster0, clustered0)
      decreases n - |clustered|, |cluster| - ci
    {
      ComplementSize(clustered, n);
      ScanKeeps(strength, threshold, n, cluster[ci], cluster[ci] + 1, cluster, clustered);
      ComplementSize(Scan(strength, threshold, n, cluster[ci], cluster[ci] + 1, cluster, clustered).1, n);
      cluster, clustered := ScanFrom(strength, threshold, n, ci, cluster, clustered);
      ci := ci + 1;
    }
  }

  /** The k-loop of cluster_nuclei (lines 112-121) for member ci of the cluster. */
  method ScanFrom(strength: Strength, threshold: real, n: nat, ci: nat,
                  cluster0: seq<nat>, clustered0: seq<nat>) returns (cluster: seq<nat>, clustered: seq<nat>)
    requires ci < |cluster0|
    ensures (cluster, clustered)
            == Scan(strength, threshold, n, cluster0[ci], cluster0[ci] + 1, cluster0, clustered0)
  {
    cluster, clustered := cluster0, clustered0;
    var k := cluster[ci] + 1;
    while k < n
      invariant ci < |cluster| && cluster[ci] == cluster0[ci]
      invariant Scan(strength, threshold, n, cluster0[ci], k, cluster, clustered)
                == Scan(strength, threshold, n, cluster0[ci], cluster0[ci] + 1, cluster0, clustered0)
    {
      if !InVector(k, clustered) && strength(cluster[ci], k) >= threshold {
        cluster := cluster + [k];
        clustered := clustered + [k];
      }
      k := k + 1;
    }
  }

  /** Member j of cluster cl has an earlier, smaller member coupled to it at the threshold. */
  predicate Linked(strength: Strength, threshold: real, cl: seq<nat>, j: nat)
    requires j < |cl|
  {
    exists c :: 0 <= c < j && cl[c] < cl[j] && strength(cl[c], cl[j]) >= threshold
  }

  /** Every member but the first of every cluster is linked to an earlier one. */
  predicate Chained(strength: Strength, threshold: real, cs: seq<seq<nat>>)
  {
    forall c, j :: 0 <= c < |cs| && 1 <= j < |cs[c]| ==> Linked(strength, threshold, cs[c], j)
  }

  /** Clusters are non-empty, each begins with its smallest member, and first members ascend. */
  predicate Ordered(cs: seq<seq<nat>>)
  {
    (forall c :: 0 <= c < |cs| ==> |cs[c]| > 0) &&
    (forall c, j :: 0 <= c < |cs| && 1 <= j < |cs[c]| ==> cs[c][0] < cs[c][j]) &&
    (forall c, d :: 0 <= c < d < |cs| && |cs[c]| > 0 && |cs[d]| > 0 ==> cs[c][0] < cs[d][0])
  }

  /** Every index below n occurs exactly once in the clusters taken together. */
  ghost predicate Covers(cs: seq<seq<nat>>, n: nat)
  {
    Distinct(Flatten(cs)) && forall p: nat :: p in Flatten(cs) <==> p < n
  }

  lemma LinkedPrefix(strength: Strength, threshold: real, a: seq<nat>, b: seq<nat>, j: nat)
    requires j < |a| <= |b| && b[..|a|] == a && Linked(strength, threshold, a, j)
    ensures Linked(strength, threshold, b, j)
  {
    var c :| 0 <= c < j && a[c] < a[j] && strength(a[c], a[j]) >= threshold;
    assert b[c] == a[c] && b[j] == a[j];
  }

  /** The members a cluster gains while it grows are all linked to earlier members. */
  lemma {:induction false} GrowLinked(strength: Strength, threshold: real, n: nat, ci: nat,
                                      cluster: seq<nat>, clustered: seq<nat>)
    requires Distinct(clustered) && Below(clustered, n)
    requires forall j :: 1 <= j < |cluster| ==> Linked(strength, threshold, cluster, j)
    ensures forall j :: 1 <= j < |Grow(strength, threshold, n, ci, cluster, clustered).0| ==>
      Linked(strength, threshold, Grow(strength, threshold, n, ci, cluster, clustered).0, j)
    decreases n - |clustered|, |cluster| - ci
  {
    if ci < |cluster| {
      var c := cluster[ci];
      var s := Scan(strength, threshold, n, c, c + 1, cluster, clustered);
      ScanLinked(strength, threshold, n, ci, cluster, clustered, s);
      ScanMeasure(strength, threshold, n, c, cluster, clustered, s);
      GrowLinked(strength, threshold, n, ci + 1, s.0, s.1);
    }
  }

  /** A scan keeps the clustered list valid and grows cluster and clustered list alike. */
  lemma ScanMeasure(strength: Strength, threshold: real, n: nat, c: nat,
                    cluster: seq<nat>, clustered: seq<nat>, s: (seq<nat>, seq<nat>))
    requires Distinct(clustered) && Below(clustered, n)
    requires s == Scan(strength, threshold, n, c, c + 1, cluster, clustered)
    ensures Distinct(s.1) && Below(s.1, n)
    ensures |clustered| <= |s.1| <= n && |s.0| - |cluster| == |s.1| - |clustered|
  {
    ScanKeeps(strength, threshold, n, c, c + 1, cluster, clustered);
    ComplementSize(s.1, n);
  }

  /** The members one scan adds to a cluster are linked to its member ci. */
  lemma ScanLinked(strength: Strength, threshold: real, n: nat, ci: nat,
                   cluster: seq<nat>, clustered: seq<nat>, s: (seq<nat>, seq<nat>))
    requires ci < |cluster|
    requires forall j :: 1 <= j < |cluster| ==> Linked(strength, threshold, cluster, j)
    requires s == Scan(strength, threshold, n, cluster[ci], cluster[ci] + 1, cluster, clustered)
    ensures forall j :: 1 <= j < |s.0| ==> Linked(strength, threshold, s.0, j)
  {
    var c := cluster[ci];
    ScanShape(strength, threshold, n, c, c + 1, cluster, clustered);
    assert s.0[..|cluster|] == cluster;
    forall j | 1 <= j < |s.0|
      ensures Linked(strength, threshold, s.0, j)
    {
      if j < |cluster| {
        LinkedPrefix(strength, threshold, cluster, s.0, j);
      } else {
        assert s.0[j] == s.1[|clustered| + j - |cluster|];
        assert s.0[ci] == c;
      }
    }
  }

  /** What the clusters built before index i satisfy (the invariant of the i-loop). */
  ghost predicate OuterInv(strength: Strength, threshold: real, n: nat, i: nat,
                     clusters: seq<seq<nat>>, clustered: seq<nat>)
  {
    clustered == Flatten(clusters) && Distinct(clustered) && Below(clustered, n) && i <= n &&
    (forall p: nat :: p < i ==> p in clustered) &&
    Ordered(clusters) && (forall c :: 0 <= c < |clusters| ==> clusters[c][0] < i) &&
    Chained(strength, threshold, clusters)
  }

  /**
   * g is the cluster started at index i together with the new clustered list: i, then larger
   * indices linked to earlier members, all appended to the clustered list in the same order.
   */
  ghost predicate StartedAt(strength: Strength, threshold: real, i: nat, clustered: seq<nat>,
                            g: (seq<nat>, seq<nat>))
  {
    g.1 == clustered + g.0 && |g.0| >= 1 && g.0[0] == i &&
    forall j :: 1 <= j < |g.0| ==> i < g.0[j] && Linked(strength, threshold, g.0, j)
  }

  /** The cluster started at an unclustered index i: i, then larger linked indices. */
  lemma StartCluster(strength: Strength, threshold: real, n: nat, i: nat, clustered: seq<nat>)
    requires Distinct(clustered) && Below(clustered, n) && i < n && i !in clustered
    requires forall p: nat :: p < i ==> p in clustered
    ensures Distinct(clustered + [i]) && Below(clustered + [i], n)
    ensures StartedAt(strength, threshold, i, clustered,
                      Grow(strength, threshold, n, 0, [i], clustered + [i]))
  {
    var start := clustered + [i];
    assert Distinct(start);
    var g := Grow(strength, threshold, n, 0, [i], start);
    GrowLinked(strength, threshold, n, 0, [i], start);
    assert g.1 == start + g.1[|start|..];
    assert g.1 == clustered + g.0;
    forall j | 1 <= j < |g.0|
      ensures i < g.0[j]
    {
      var x := g.0[j];
      assert x == g.1[|clustered| + j];
      assert x != i by { assert g.1[|clustered|] == i; }
      forall m | 0 <= m < |clustered|
        ensures clustered[m] != x
      {
        assert g.1[m] == clustered[m];
      }
      assert x !in clustered;
    }
  }

  /** One cluster started at an unclustered index i keeps the invariant. */
  lemma OuterStep(strength: Strength, threshold: real, n: nat, i: nat,
                  clusters: seq<seq<nat>>, clustered: seq<nat>)
    requires OuterInv(strength, threshold, n, i, clusters, clustered) && i < n && i !in clustered
    ensures Distinct(clustered + [i]) && Below(clustered + [i], n)
    ensures OuterInv(strength, threshold, n, i + 1,
                     clusters + [Grow(strength, threshold, n, 0, [i], clustered + [i]).0],
                     Grow(strength, threshold, n, 0, [i], clustered + [i]).1)
  {
    StartCluster(strength, threshold, n, i, clustered);
    var g := Grow(strength, threshold, n, 0, [i], clustered + [i]);
    var cs := clusters + [g.0];
    FlattenAppend(clusters, g.0);
    assert Ordered(cs) by {
      forall c, j | 0 <= c < |cs| && 1 <= j < |cs[c]|
        ensures cs[c][0] < cs[c][j]
      {
        if c < |clusters| {
          assert cs[c] == clusters[c];
        }
      }
    }
    assert Chained(strength, threshold, cs) by {
      forall c, j | 0 <= c < |cs| && 1 <= j < |cs[c]|
        ensures Linked(strength, threshold, cs[c], j)
      {
        if c < |clusters| {
          assert cs[c] == clusters[c];
        }
      }
    }
    forall p: nat | p < i + 1
      ensures p in g.1
    {
      if p < i {
        assert p in clustered;
      } else {
        assert g.1[|clustered|] == i;
      }
    }
  }

  /** What cluster_nuclei promises of its clusters of 0..n-1. */
  ghost predicate Promised(strength: Strength, threshold: real, n: nat, clusters: seq<seq<nat>>)
  {
    Covers(clusters, n) && Ordered(clusters) && Chained(strength, threshold, clusters)
  }

  /** Once every index has been visited, the invariant is the whole promise. */
  lemma OuterDone(strength: Strength, threshold: real, n: nat, i: nat,
                  clusters: seq<seq<nat>>, clustered: seq<nat>)
    requires OuterInv(strength, threshold, n, i, clusters, clustered) && i >= n
    ensures Promised(strength, threshold, n, clusters)
  {
    forall p: nat | p in clustered
      ensures p < n
    {
    }
  }

  /** An index already clustered is passed over. */
  lemma OuterSkip(strength: Strength, threshold: real, n: nat, i: nat,
                  clusters: seq<seq<nat>>, clustered: seq<nat>)
    requires OuterInv(strength, threshold, n, i, clusters, clustered) && i < n && i in clustered
    ensures OuterInv(strength, threshold, n, i + 1, clusters, clustered)
  {
  }

  lemma {:induction false} OuterProps(strength: Strength, threshold: real, n: nat, i: nat,
                                      clusters: seq<seq<nat>>, clustered: seq<nat>)
    requires OuterInv(strength, threshold, n, i, clusters, clustered)
    ensures Promised(strength, threshold, n, Outer(strength, threshold, n, i, clusters, clustered))
    decreases n - i
  {
    if i >= n {
      OuterDone(strength, threshold, n, i, clusters, clustered);
    } else if InVector(i, clustered) {
      OuterSkip(strength, threshold, n, i, clusters, clustered);
      OuterProps(strength, threshold, n, i + 1, clusters, clustered);
    } else {
      OuterStep(strength, threshold, n, i, clusters, clustered);
      var g := Grow(strength, threshold, n, 0, [i], clustered + [i]);
      OuterProps(strength, threshold, n, i + 1, clusters + [g.0], g.1);
    }
  }

  /**
   * The clusters partition 0..n-1: every index occurs in exactly one cluster, exactly once.
   * Every cluster is non-empty and starts with its smallest index, the clusters come in
   * ascending order of their first index, and every later member of a cluster has an earlier,
   * smaller member whose coupling to it reaches the threshold.
   */
  lemma ClustersProperties(strength: Strength, threshold: real, n: nat)
    ensures Covers(Clusters(strength, threshold, n), n)
    ensures Ordered(Clusters(strength, threshold, n))
    ensures Chained(strength, threshold, Clusters(strength, threshold, n))
  {
    OuterProps(strength, threshold, n, 0, [], []);
  }

  lemma {:induction false} FlattenConcat(a: seq<seq<nat>>, b: seq<seq<nat>>)
    ensures Flatten(a + b) == Flatten(a) + Flatten(b)
  {
    if |b| > 0 {
      var init := b[..|b| - 1];
      assert (a + b)[..|a + b| - 1] == a + init;
      FlattenConcat(a, init);
    } else {
      assert a + b == a;
    }
  }

  lemma {:induction false} FlattenMember(cs: seq<seq<nat>>, p: nat)
    ensures p in Flatten(cs) <==> exists c :: 0 <= c < |cs| && p in cs[c]
  {
    if |cs| > 0 {
      var init := cs[..|cs| - 1];
      FlattenMember(init, p);
      if p in Flatten(init) {
        var c :| 0 <= c < |init| && p in init[c];
        assert cs[c] == init[c];
      }
      forall c | 0 <= c < |cs| - 1 && p in cs[c]
        ensures p in Flatten(init)
      {
        assert init[c] == cs[c];
      }
    }
  }

  lemma {:induction false} FlattenDistinct(cs: seq<seq<nat>>, c: nat, d: nat, p: nat)
    requires Distinct(Flatten(cs)) && c < d < |cs| && p in cs[c]
    ensures p !in cs[d]
  {
    var init := cs[..|cs| - 1];
    var f := Flatten(cs);
    assert f == Flatten(init) + cs[|cs| - 1];
    assert Distinct(Flatten(init)) by {
      forall i, j | 0 <= i < j < |Flatten(init)|
        ensures Flatten(init)[i] != Flatten(init)[j]
      {
        assert f[i] == Flatten(init)[i] && f[j] == Flatten(init)[j];
      }
    }
    assert init[c] == cs[c];
    if d == |cs| - 1 {
      FlattenMember(init, p);
      var i :| 0 <= i < |Flatten(init)| && Flatten(init)[i] == p;
      forall j | 0 <= j < |cs[d]|
        ensures cs[d][j] != p
      {
        assert f[|Flatten(init)| + j] == cs[d][j];
        assert f[i] == p;
      }
    } else {
      assert init[d] == cs[d];
      FlattenDistinct(init, c, d, p);
    }
  }

  /** Every index below n lies in exactly one of the clusters of cluster_nuclei. */
  lemma ClusterOfIndex(strength: Strength, threshold: real, n: nat, p: nat)
    requires p < n
    ensures exists c :: 0 <= c < |Clusters(strength, threshold, n)| && p in Clusters(strength, threshold, n)[c]
    ensures forall c, d ::
      (0 <= c < |Clusters(strength, threshold, n)| && 0 <= d < |Clusters(strength, threshold, n)| &&
       p in Clusters(strength, threshold, n)[c] && p in Clusters(strength, threshold, n)[d]) ==> c == d
  {
    var cs := Clusters(strength, threshold, n);
    ClustersProperties(strength, threshold, n);
    FlattenMember(cs, p);
    forall c, d | 0 <= c < |cs| && 0 <= d < |cs| && p in cs[c] && p in cs[d]
      ensures c == d
    {
      if c < d {
        FlattenDistinct(cs, c, d, p);
      } else if d < c {
        FlattenDistinct(cs, d, c, p);
      }
    }
  }

  /** [[0], [1], ..., [n-1]]. */
  function Singletons(n: nat): (r: seq<seq<nat>>)
    ensures |r| == n && forall p :: 0 <= p < n ==> r[p] == [p]
  {
    seq(n, p => [p])
  }

  /** A scan from c finds nothing when no higher index couples to c at the threshold. */
  lemma {:induction false} ScanNone(strength: Strength, threshold: real, n: nat, c: nat, k: nat,
                                    cluster: seq<nat>, clustered: seq<nat>)
    requires forall b: nat :: k <= b < n ==> strength(c, b) < threshold
    ensures Scan(strength, threshold, n, c, k, cluster, clustered) == (cluster, clustered)
    decreases n - k
  {
    if k < n {
      ScanNone(strength, threshold, n, c, k + 1, cluster, clustered);
    }
  }

  lemma {:induction false} OuterSingletons(strength: Strength, threshold: real, n: nat, i: nat)
    requires i <= n
    requires forall a: nat, b: nat :: a < b < n ==> strength(a, b) < threshold
    ensures Distinct(Range(i)) && Below(Range(i), n)
    ensures Outer(strength, threshold, n, i, Singletons(i), Range(i)) == Singletons(n)
    decreases n - i
  {
    if i < n {
      var R := Range(i);
      assert !InVector(i, R);
      ScanNone(strength, threshold, n, i, i + 1, [i], R + [i]);
      assert Distinct(R + [i]);
      assert Grow(strength, threshold, n, 0, [i], R + [i]) == ([i], R + [i]);
      assert R + [i] == Range(i + 1);
      assert Singletons(i) + [[i]] == Singletons(i + 1);
      OuterSingletons(strength, threshold, n, i + 1);
    } else {
      assert Singletons(i) == Singletons(n);
    }
  }

  /**
   * When the threshold exceeds the coupling of every pair a < b, every nucleus is a cluster of
   * its own (the special case cluster_size_target == 1 of find_target_coupling).
   */
  lemma ClustersSingletons(strength: Strength, threshold: real, n: nat)
    requires forall a: nat, b: nat :: a < b < n ==> strength(a, b) < threshold
    ensures Clusters(strength, threshold, n) == Singletons(n)
  {
    OuterSingletons(strength, threshold, n, 0);
    assert Range(0) == [];
    assert Singletons(0) == [];
  }

  /** Nuclei 0 and 1 are each coupled to 2, but not to each other. */
  function Triangle(a: nat, b: nat): real
  {
    if a != b && (a == 2 || b == 2) && a < 3 && b < 3 then 1.0 else 0.0
  }

  /**
   * Clusters are not connected components: 1 is coupled to 2 at the threshold, but 2 has
   * already joined 0's cluster when 1 starts its own, and the scan from 1 skips clustered
   * indices.
   */
  lemma NotConnectedComponents()
    ensures Clusters(Triangle, 1.0, 3) == [[0, 2], [1]]
    ensures Triangle(1, 2) >= 1.0
  {
    TriangleFirst();
    TriangleSecond();
  }

  /** Nucleus 0 starts the first cluster and takes in 2. */
  lemma TriangleFirst()
    ensures Outer(Triangle, 1.0, 3, 0, [], []) == Outer(Triangle, 1.0, 3, 1, [[0, 2]], [0, 2])
  {
    var none: seq<nat> := [];
    assert none + [0] == [0];
    TriangleGrow();
    var g := Grow(Triangle, 1.0, 3, 0, [0], none + [0]);
    assert g == ([0, 2], [0, 2]);
    assert [] + [g.0] == [[0, 2]];
    assert !InVector(0, none);
  }

  /** Growing 0's cluster takes in 2 and stops there. */
  lemma TriangleGrow()
    ensures Grow(Triangle, 1.0, 3, 0, [0], [0]) == ([0, 2], [0, 2])
  {
    TriangleScans();
    TriangleGrowTail();
  }

  /** Nothing joins the cluster [0, 2] from its second member on. */
  lemma TriangleGrowTail()
    ensures Grow(Triangle, 1.0, 3, 1, [0, 2], [0, 2]) == ([0, 2], [0, 2])
  {
    TriangleScans();
    assert Grow(Triangle, 1.0, 3, 2, [0, 2], [0, 2]) == ([0, 2], [0, 2]);
  }

  /** The scan from 0 takes in 2, and the scans from 2 add nothing. */
  lemma TriangleScans()
    ensures Scan(Triangle, 1.0, 3, 0, 1, [0], [0]) == ([0, 2], [0, 2])
    ensures Scan(Triangle, 1.0, 3, 2, 3, [0, 2], [0, 2]) == ([0, 2], [0, 2])
  {
    var t := Triangle;
    assert Scan(t, 1.0, 3, 0, 3, [0, 2], [0, 2]) == ([0, 2], [0, 2]);
    assert !InVector(2, [0]) && t(0, 2) >= 1.0;
    assert [0] + [2] == [0, 2];
    assert Scan(t, 1.0, 3, 0, 2, [0], [0]) == ([0, 2], [0, 2]);
  }

  /** Nucleus 1 then starts a cluster of its own: 2 is already clustered. */
  lemma TriangleSecond()
    ensures Outer(Triangle, 1.0, 3, 1, [[0, 2]], [0, 2]) == [[0, 2], [1]]
  {
    var t := Triangle;
    assert InVector(2, [0, 2, 1]) && !InVector(1, [0, 2]);
    assert [0, 2] + [1] == [0, 2, 1] && [[0, 2]] + [[1]] == [[0, 2], [1]];
    assert Scan(t, 1.0, 3, 1, 3, [1], [0, 2, 1]) == ([1], [0, 2, 1]);
    assert Scan(t, 1.0, 3, 1, 2, [1], [0, 2, 1]) == ([1], [0, 2, 1]);
    assert Grow(t, 1.0, 3, 1, [1], [0, 2, 1]) == ([1], [0, 2, 1]);
    assert Grow(t, 1.0, 3, 0, [1], [0, 2, 1]) == ([1], [0, 2, 1]);
    assert Outer(t, 1.0, 3, 1, [[0, 2]], [0, 2]) == Outer(t, 1.0, 3, 2, [[0, 2], [1]], [0, 2, 1]);
    assert Outer(t, 1.0, 3, 2, [[0, 2], [1]], [0, 2, 1]) == [[0, 2], [1]];
  }

  /** The size of the largest cluster, 0 when there is none. */
  function LargestSize<T>(cs: seq<seq<T>>): (m: nat)
    ensures forall c :: 0 <= c < |cs| ==> |cs[c]| <= m
    ensures |cs| == 0 ==> m == 0
    ensures |cs| > 0 ==> exists c :: 0 <= c < |cs| && |cs[c]| == m
  {
    if |cs| == 0 then 0
    else
      var m0 := LargestSize(cs[..|cs| - 1]);
      assert forall c :: 0 <= c < |cs| - 1 ==> cs[..|cs| - 1][c] == cs[c];
      if |cs[|cs| - 1]| > m0 then |cs[|cs| - 1]| else m0
  }

  /** largest_cluster_size (lines 164-170). */
  method LargestClusterSize<T>(clusters: seq<seq<T>>) returns (largest: nat)
    ensures largest == LargestSize(clusters)
  {
    largest := 0;
    var i := 0;
    while i < |clusters|
      invariant 0 <= i <= |clusters|
      invariant largest == LargestSize(clusters[..i])
    {
      assert clusters[..i + 1][..i] == clusters[..i];
      if |clusters[i]| > largest {
        largest := |clusters[i]|;
      }
      i := i + 1;
    }
    assert clusters[..i] == clusters;
  }

  /**
   * get_cluster_containing_index (lines 216-225): the first cluster holding index.  The source
   * asserts index < n and has no return value when no cluster holds it; that case is None here.
   */
  method ClusterContaining(clusters: seq<seq<nat>>, n: nat, index: nat) returns (r: Option<nat>)
    requires index < n
    ensures r.Some? ==> r.value < |clusters| && index in clusters[r.value]
    ensures r.Some? ==> forall c :: 0 <= c < r.value ==> index !in clusters[c]
    ensures r.None? <==> forall c :: 0 <= c < |clusters| ==> index !in clusters[c]
  {
    var c := 0;
    while c < |clusters|
      invariant 0 <= c <= |clusters|
      invariant forall d :: 0 <= d < c ==> index !in clusters[d]
    {
      var s := 0;
      while s < |clusters[c]|
        invariant 0 <= s <= |clusters[c]|
        invariant index !in clusters[c][..s]
      {
        if clusters[c][s] == index {
          return Some(c);
        }
        assert clusters[c][..s + 1] == clusters[c][..s] + [clusters[c][s]];
        s := s + 1;
      }
      assert clusters[c][..s] == clusters[c];
      c := c + 1;
    }
    return None;
  }

  /** On the clusters of cluster_nuclei the lookup of an index below n always succeeds. */
  lemma ClusterContainingFound(strength: Strength, threshold: real, n: nat, index: nat)
    requires index < n
    ensures exists c :: 0 <= c < |Clusters(strength, threshold, n)| && index in Clusters(strength, threshold, n)[c]
  {
    ClusterOfIndex(strength, threshold, n, index);
  }

  /** get_index_in_cluster (lines 227-234): the first position of index in cluster. */
  method IndexInCluster(index: nat, cluster: seq<nat>) returns (s: nat)
    requires index in cluster
    ensures s < |cluster| && cluster[s] == index && index !in cluster[..s]
  {
    s := 0;
    while cluster[s] != index
      invariant s < |cluster| && index in cluster[s..] && index !in cluster[..s]
      decreases |cluster| - s
    {
      assert cluster[s..] == [cluster[s]] + cluster[s + 1..];
      assert cluster[..s + 1] == cluster[..s] + [cluster[s]];
      s := s + 1;
    }
  }
}
