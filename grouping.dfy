/**
 * group_clusters of nv-math.cpp:130-161: clusters whose nuclei have similar larmor
 * frequencies are merged, so that no two groups hold a larmor pair.  is_larmor_pair compares two
 * integer keys of each nucleus (the rounded parallel and perpendicular distances to the NV
 * centre, lines 76-82); the keys are an abstract function of the nucleus index here.
 */
module Grouping {
  import opened Clustering

  /** The pair of integers is_larmor_pair compares for a nucleus. */
  type LarmorKey = nat -> (int, int)

  /** The range of a 32-bit unsigned integer, the type of the loop counter c. */
  const U32: nat := 0x1_0000_0000

  /** `c--` on a uint. */
  function Decrement(c: nat): nat
    requires c < U32
  {
    (c + U32 - 1) % U32
  }

  /** `c++` on a uint. */
  function Increment(c: nat): nat
    requires c < U32
  {
    (c + 1) % U32
  }

  /** Decrementing 0 wraps to the largest uint, and the loop's increment wraps it back. */
  lemma WrapRoundTrip(c: nat)
    requires c < U32
    ensures Decrement(c) < U32 && Increment(Decrement(c)) == c
    ensures c == 0 ==> Decrement(c) == U32 - 1
  {
  }

  lemma FlattenCons(x: seq<nat>, rest: seq<seq<nat>>)
    ensures Flatten([x] + rest) == x + Flatten(rest)
  {
    FlattenConcat([x], rest);
    assert Flatten([x]) == Flatten([]) + x;
  }

  lemma SplitAround<T>(s: seq<T>, c: nat)
    requires c < |s|
    ensures s == s[..c] + ([s[c]] + s[c + 1..])
  {
    assert s[c..] == [s[c]] + s[c + 1..];
    assert s == s[..c] + s[c..];
  }

  /** Taking cluster c out of a list removes exactly its members from the flattened list. */
  lemma FlattenRemove(cs: seq<seq<nat>>, c: nat)
    requires c < |cs|
    ensures multiset(Flatten(cs[..c] + cs[c + 1..])) + multiset(cs[c]) == multiset(Flatten(cs))
  {
    var left, right := cs[..c], cs[c + 1..];
    SplitAround(cs, c);
    FlattenConcat(left, [cs[c]] + right);
    FlattenCons(cs[c], right);
    FlattenConcat(left, right);
    var fl, fr := Flatten(left), Flatten(right);
    assert Flatten(cs) == fl + (cs[c] + fr);
    assert multiset(Flatten(cs)) == multiset(fl) + multiset(cs[c]) + multiset(fr);
    assert multiset(Flatten(left + right)) == multiset(fl) + multiset(fr);
  }

  /**
   * The state of the c-loop for the group member x: the group nc extends nc0 by clusters taken
   * out of pending0, pending holds the remaining ones, and none of the first `upto` of them holds
   * a larmor pair of x.
   */
  ghost predicate MergeInv(key: LarmorKey, x: nat, nc0: seq<nat>, pending0: seq<seq<nat>>,
                           nc: seq<nat>, pending: seq<seq<nat>>, upto: nat)
  {
    upto <= |pending| && |nc| >= |nc0| && nc[..|nc0|] == nc0 &&
    multiset(nc[|nc0|..]) + multiset(Flatten(pending)) == multiset(Flatten(pending0)) &&
    (forall cl :: cl in pending ==> cl in pending0) &&
    (forall d, y :: 0 <= d < upto && y in pending[d] ==> key(x) != key(y))
  }

  lemma MergeCounts(nc0: seq<nat>, pending0: seq<seq<nat>>, nc: seq<nat>, pending: seq<seq<nat>>, c: nat)
    requires |nc| >= |nc0| && nc[..|nc0|] == nc0 && c < |pending|
    requires multiset(nc[|nc0|..]) + multiset(Flatten(pending)) == multiset(Flatten(pending0))
    ensures (nc + pending[c])[..|nc0|] == nc0
    ensures multiset((nc + pending[c])[|nc0|..]) + multiset(Flatten(pending[..c] + pending[c + 1..]))
            == multiset(Flatten(pending0))
  {
    var tail, rest := nc[|nc0|..], pending[..c] + pending[c + 1..];
    FlattenRemove(pending, c);
    AppendSplit(nc, pending[c], |nc0|);
    MultisetMove(multiset(tail), multiset(Flatten(pending)), multiset(Flatten(rest)),
                 multiset(pending[c]), multiset(Flatten(pending0)));
  }

  /** Appending b to a leaves the first k elements of a and adds b to its tail. */
  lemma AppendSplit(a: seq<nat>, b: seq<nat>, k: nat)
    requires k <= |a|
    ensures (a + b)[..k] == a[..k] && (a + b)[k..] == a[k..] + b
    ensures multiset((a + b)[k..]) == multiset(a[k..]) + multiset(b)
  {
    assert (a + b)[k..] == a[k..] + b;
  }

  lemma MultisetMove(a: multiset<nat>, p: multiset<nat>, r: multiset<nat>, x: multiset<nat>, all: multiset<nat>)
    requires a + p == all && r + x == p
    ensures (a + x) + r == all
  {
  }

  /** Appending cluster c to the group and erasing it keeps the state of the c-loop. */
  lemma MergeStep(key: LarmorKey, x: nat, nc0: seq<nat>, pending0: seq<seq<nat>>,
                  nc: seq<nat>, pending: seq<seq<nat>>, c: nat)
    requires MergeInv(key, x, nc0, pending0, nc, pending, c) && c < |pending|
    ensures MergeInv(key, x, nc0, pending0, nc + pending[c], pending[..c] + pending[c + 1..], c)
  {
    var rest := pending[..c] + pending[c + 1..];
    MergeCounts(nc0, pending0, nc, pending, c);
    forall d, y | 0 <= d < c && y in rest[d]
      ensures key(x) != key(y)
    {
      assert rest[d] == pending[d];
    }
    forall cl | cl in rest
      ensures cl in pending0
    {
      assert cl in pending;
    }
  }

  /**
   * The c-loop of group_clusters (lines 142-153) for member i of the growing group: every
   * remaining cluster holding a larmor pair of that member is appended to the group and erased,
   * and the counter is stepped back (with the uint wrap-around at 0) so that the cluster that
   * moves into its place is examined next.
   */
  method MergePairs(key: LarmorKey, i: nat, nc0: seq<nat>, pending0: seq<seq<nat>>, grouped0: bool)
    returns (nc: seq<nat>, pending: seq<seq<nat>>, grouped: bool)
    requires i < |nc0| && |pending0| < U32
    ensures |nc| >= |nc0| && nc[..|nc0|] == nc0
    ensures multiset(nc[|nc0|..]) + multiset(Flatten(pending)) == multiset(Flatten(pending0))
    ensures |pending| <= |pending0| && (|pending| == |pending0| ==> nc == nc0 && pending == pending0)
    ensures grouped == (grouped0 || |pending| < |pending0|)
    ensures forall cl :: cl in pending ==> cl in pending0
    ensures forall d, y :: 0 <= d < |pending| && y in pending[d] ==> key(nc0[i]) != key(y)
  {
    nc, pending, grouped := nc0, pending0, grouped0;
    var c: nat := 0;
    while c < |pending|
      invariant MergeInv(key, nc0[i], nc0, pending0, nc, pending, c)
      invariant |pending| <= |pending0| && (|pending| == |pending0| ==> nc == nc0 && pending == pending0)
      invariant grouped == (grouped0 || |pending| < |pending0|)
      decreases |pending| - c
    {
      nc, pending, c, grouped := MergeAt(key, i, nc0, pending0, nc, pending, c, grouped);
      c := Increment(c);
    }
  }

  /**
   * The body of the c-loop (lines 143-152): cluster c is appended and erased at the first of its
   * members that makes a larmor pair with member i, and the counter then steps back, so that
   * after the loop's `c++` the cluster moved into place c is examined; otherwise the next
   * cluster is.
   */
  method MergeAt(key: LarmorKey, i: nat, nc0: seq<nat>, pending0: seq<seq<nat>>,
                 nc1: seq<nat>, pending1: seq<seq<nat>>, c1: nat, grouped1: bool)
    returns (nc: seq<nat>, pending: seq<seq<nat>>, c: nat, grouped: bool)
    requires i < |nc0| && c1 < |pending1| < U32
    requires MergeInv(key, nc0[i], nc0, pending0, nc1, pending1, c1)
    ensures c < U32 && MergeInv(key, nc0[i], nc0, pending0, nc, pending, Increment(c))
    ensures |pending| <= |pending1|
    ensures |pending| == |pending1| ==> nc == nc1 && pending == pending1 && Increment(c) == c1 + 1
    ensures |pending| < |pending1| ==> Increment(c) == c1
    ensures grouped == (grouped1 || |pending| < |pending1|)
  {
    nc, pending, c, grouped := nc1, pending1, c1, grouped1;
    assert nc[i] == nc[..|nc0|][i];
    var candidate := pending[c];
    var j := 0;
    while j < |candidate|
      invariant j <= |candidate|
      invariant forall j' :: 0 <= j' < j ==> key(nc0[i]) != key(candidate[j'])
    {
      if key(nc[i]) == key(candidate[j]) {
        MergeStep(key, nc0[i], nc0, pending0, nc, pending, c);
        nc := nc + candidate;
        pending := pending[..c] + pending[c + 1..];
        WrapRoundTrip(c);
        c := Decrement(c);
        grouped := true;
        return;
      }
      j := j + 1;
    }
    assert forall y :: y in pending[c] ==> key(nc0[i]) != key(y);
  }

  /**
   * The state of the i-loop: the group nc extends nc0 by clusters taken out of pending0, and no
   * remaining cluster holds a larmor pair of the first i members.
   */
  ghost predicate GroupInv(key: LarmorKey, nc0: seq<nat>, pending0: seq<seq<nat>>,
                           nc: seq<nat>, pending: seq<seq<nat>>, i: nat)
  {
    i <= |nc| && |nc| >= |nc0| && nc[..|nc0|] == nc0 &&
    multiset(nc[|nc0|..]) + multiset(Flatten(pending)) == multiset(Flatten(pending0)) &&
    (forall cl :: cl in pending ==> cl in pending0) &&
    (forall i', d, y :: 0 <= i' < i && 0 <= d < |pending| && y in pending[d] ==> key(nc[i']) != key(y))
  }

  lemma GrowCounts(nc0: seq<nat>, pending0: seq<seq<nat>>, nc: seq<nat>, pending: seq<seq<nat>>,
                   nc': seq<nat>, pending': seq<seq<nat>>)
    requires |nc| >= |nc0| && nc[..|nc0|] == nc0
    requires multiset(nc[|nc0|..]) + multiset(Flatten(pending)) == multiset(Flatten(pending0))
    requires |nc'| >= |nc| && nc'[..|nc|] == nc
    requires multiset(nc'[|nc|..]) + multiset(Flatten(pending')) == multiset(Flatten(pending))
    ensures nc'[..|nc0|] == nc0
    ensures multiset(nc'[|nc0|..]) + multiset(Flatten(pending')) == multiset(Flatten(pending0))
  {
    PrefixSplit(nc0, nc, nc');
    MultisetChain(multiset(nc[|nc0|..]), multiset(nc'[|nc|..]), multiset(Flatten(pending)),
                  multiset(Flatten(pending')), multiset(Flatten(pending0)));
  }

  /** Extending an extension: the prefix stays, and the new tail is the old tail and the rest. */
  lemma PrefixSplit(a: seq<nat>, b: seq<nat>, c: seq<nat>)
    requires |a| <= |b| <= |c| && b[..|a|] == a && c[..|b|] == b
    ensures c[..|a|] == a
    ensures multiset(c[|a|..]) == multiset(b[|a|..]) + multiset(c[|b|..])
  {
    assert c[..|a|] == c[..|b|][..|a|];
    assert c[|a|..] == b[|a|..] + c[|b|..];
  }

  lemma MultisetChain(a: multiset<nat>, b: multiset<nat>, p: multiset<nat>, p': multiset<nat>,
                      all: multiset<nat>)
    requires a + p == all && b + p' == p
    ensures (a + b) + p' == all
  {
  }

  /** One pass of the c-loop for member i keeps the state of the i-loop. */
  lemma GrowStep(key: LarmorKey, nc0: seq<nat>, pending0: seq<seq<nat>>, nc: seq<nat>,
                 pending: seq<seq<nat>>, i: nat, nc': seq<nat>, pending': seq<seq<nat>>)
    requires GroupInv(key, nc0, pending0, nc, pending, i) && i < |nc|
    requires |nc'| >= |nc| && nc'[..|nc|] == nc
    requires multiset(nc'[|nc|..]) + multiset(Flatten(pending')) == multiset(Flatten(pending))
    requires forall cl :: cl in pending' ==> cl in pending
    requires forall d, y :: 0 <= d < |pending'| && y in pending'[d] ==> key(nc[i]) != key(y)
    ensures GroupInv(key, nc0, pending0, nc', pending', i + 1)
  {
    GrowCounts(nc0, pending0, nc, pending, nc', pending');
    GrowApart(key, nc, pending, i, nc', pending');
  }

  lemma GrowApart(key: LarmorKey, nc: seq<nat>, pending: seq<seq<nat>>, i: nat,
                  nc': seq<nat>, pending': seq<seq<nat>>)
    requires i < |nc| <= |nc'| && nc'[..|nc|] == nc
    requires forall i', d, y :: 0 <= i' < i && 0 <= d < |pending| && y in pending[d] ==> key(nc[i']) != key(y)
    requires forall cl :: cl in pending' ==> cl in pending
    requires forall d, y :: 0 <= d < |pending'| && y in pending'[d] ==> key(nc[i]) != key(y)
    ensures forall i', d, y :: 0 <= i' < i + 1 && 0 <= d < |pending'| && y in pending'[d] ==> key(nc'[i']) != key(y)
  {
    forall i', d, y | 0 <= i' < i + 1 && 0 <= d < |pending'| && y in pending'[d]
      ensures key(nc'[i']) != key(y)
    {
      assert nc'[i'] == nc'[..|nc|][i'];
      if i' < i {
        assert pending'[d] in pending;
        var e :| 0 <= e < |pending| && pending[e] == pending'[d];
        assert y in pending[e];
      }
    }
  }

  /**
   * The i-loop of group_clusters (lines 141-154): members appended to the group are examined
   * too, so when the loop ends no remaining cluster holds a larmor pair of any member.
   */
  method GrowGroup(key: LarmorKey, nc0: seq<nat>, pending0: seq<seq<nat>>)
    returns (nc: seq<nat>, pending: seq<seq<nat>>, grouped: bool)
    requires |pending0| < U32
    ensures |nc| >= |nc0| && nc[..|nc0|] == nc0
    ensures multiset(nc[|nc0|..]) + multiset(Flatten(pending)) == multiset(Flatten(pending0))
    ensures |pending| <= |pending0| && (|pending| == |pending0| ==> nc == nc0 && pending == pending0)
    ensures grouped == (|pending| < |pending0|)
    ensures forall cl :: cl in pending ==> cl in pending0
    ensures forall x, d, y :: x in nc && 0 <= d < |pending| && y in pending[d] ==> key(x) != key(y)
  {
    nc, pending, grouped := nc0, pending0, false;
    var i := 0;
    while i < |nc|
      invariant GroupInv(key, nc0, pending0, nc, pending, i)
      invariant |pending| <= |pending0| && (|pending| == |pending0| ==> nc == nc0 && pending == pending0)
      invariant grouped == (|pending| < |pending0|)
      decreases |pending|, |nc| - i
    {
      var nc', pending', grouped' := MergePairs(key, i, nc, pending, grouped);
      GrowStep(key, nc0, pending0, nc, pending, i, nc', pending');
      nc, pending, grouped := nc', pending', grouped';
      i := i + 1;
    }
    forall x, d, y | x in nc && 0 <= d < |pending| && y in pending[d]
      ensures key(x) != key(y)
    {
      var i' :| 0 <= i' < |nc| && nc[i'] == x;
    }
  }

  /** No larmor pair has its two nuclei in two different groups. */
  ghost predicate Apart(key: LarmorKey, groups: seq<seq<nat>>)
  {
    forall g, h, a, b ::
      (0 <= g < |groups| && 0 <= h < |groups| && g != h && a in groups[g] && b in groups[h])
      ==> key(a) != key(b)
  }

  /** No member of a group has a larmor pair in a pending cluster. */
  ghost predicate PendingApart(key: LarmorKey, groups: seq<seq<nat>>, pending: seq<seq<nat>>)
  {
    forall g, a, d, y :: 0 <= g < |groups| && a in groups[g] && 0 <= d < |pending| && y in pending[d]
      ==> key(a) != key(y)
  }

  /** No larmor pair joins a group to a later one. */
  ghost predicate LaterApart(key: LarmorKey, groups: seq<seq<nat>>)
  {
    forall g, h, a, b :: 0 <= g < h < |groups| && a in groups[g] && b in groups[h] ==> key(a) != key(b)
  }

  /** Every group begins with one of the clusters. */
  ghost predicate Prefixed(clusters: seq<seq<nat>>, groups: seq<seq<nat>>)
  {
    forall g :: 0 <= g < |groups| ==> exists c :: 0 <= c < |clusters| && clusters[c] <= groups[g]
  }

  /** The state of the outer loop of group_clusters (lines 134-158). */
  ghost predicate GroupsInv(key: LarmorKey, clusters: seq<seq<nat>>, groups: seq<seq<nat>>,
                            pending: seq<seq<nat>>)
  {
    multiset(Flatten(groups)) + multiset(Flatten(pending)) == multiset(Flatten(clusters)) &&
    |groups| + |pending| <= |clusters| &&
    (forall cl :: cl in pending ==> cl in clusters) &&
    Prefixed(clusters, groups) && PendingApart(key, groups, pending) && LaterApart(key, groups)
  }

  /** A sequence holds the elements of its first k and of the rest. */
  lemma SplitCount(s: seq<nat>, k: nat)
    requires k <= |s|
    ensures multiset(s) == multiset(s[..k]) + multiset(s[k..])
  {
    assert s == s[..k] + s[k..];
  }

  /** A group grown from the first pending cluster, and the clusters still pending after it. */
  ghost predicate Grown(pending: seq<seq<nat>>, nc: seq<nat>, pending': seq<seq<nat>>)
  {
    |pending| > 0 && |nc| >= |pending[0]| && nc[..|pending[0]|] == pending[0] &&
    multiset(nc[|pending[0]|..]) + multiset(Flatten(pending')) == multiset(Flatten(pending[1..])) &&
    |pending'| <= |pending| - 1 && (forall cl :: cl in pending' ==> cl in pending[1..])
  }

  /** Every member of the new group comes from a pending cluster. */
  lemma CloseMembers(pending: seq<seq<nat>>, nc: seq<nat>, pending': seq<seq<nat>>, b: nat)
    requires Grown(pending, nc, pending') && b in nc
    ensures exists d :: 0 <= d < |pending| && b in pending[d]
  {
    var p0 := pending[0];
    var k :| 0 <= k < |nc| && nc[k] == b;
    if k < |p0| {
      assert p0[k] == b;
    } else {
      assert nc[|p0|..][k - |p0|] == b;
      assert b in multiset(nc[|p0|..]);
      assert b in multiset(Flatten(pending[1..]));
      FlattenMember(pending[1..], b);
      var d :| 0 <= d < |pending[1..]| && b in pending[1..][d];
      assert pending[1..][d] == pending[d + 1];
    }
  }

  lemma Regroup(groups: multiset<nat>, pending: multiset<nat>, all: multiset<nat>, first: multiset<nat>,
                rest: multiset<nat>, tail: multiset<nat>, left: multiset<nat>)
    requires groups + pending == all && pending == first + rest && rest == tail + left
    ensures groups + (first + tail) + left == all
  {
  }

  lemma FlattenSnocCount(cs: seq<seq<nat>>, c: seq<nat>)
    ensures multiset(Flatten(cs + [c])) == multiset(Flatten(cs)) + multiset(c)
  {
    FlattenAppend(cs, c);
  }

  lemma FlattenHeadCount(cs: seq<seq<nat>>)
    requires |cs| > 0
    ensures multiset(Flatten(cs)) == multiset(cs[0]) + multiset(Flatten(cs[1..]))
  {
    assert cs == [cs[0]] + cs[1..];
    FlattenCons(cs[0], cs[1..]);
  }

  lemma CloseCounts(clusters: seq<seq<nat>>, groups: seq<seq<nat>>, pending: seq<seq<nat>>,
                    nc: seq<nat>, pending': seq<seq<nat>>)
    requires multiset(Flatten(groups)) + multiset(Flatten(pending)) == multiset(Flatten(clusters))
    requires Grown(pending, nc, pending')
    ensures multiset(Flatten(groups + [nc])) + multiset(Flatten(pending')) == multiset(Flatten(clusters))
  {
    var p0, tail := pending[0], nc[|pending[0]|..];
    SplitCount(nc, |p0|);
    FlattenSnocCount(groups, nc);
    FlattenHeadCount(pending);
    Regroup(multiset(Flatten(groups)), multiset(Flatten(pending)), multiset(Flatten(clusters)),
            multiset(p0), multiset(Flatten(pending[1..])), multiset(tail), multiset(Flatten(pending')));
  }

  lemma ClosePrefixed(clusters: seq<seq<nat>>, groups: seq<seq<nat>>, pending: seq<seq<nat>>,
                      nc: seq<nat>, pending': seq<seq<nat>>)
    requires Prefixed(clusters, groups) && (forall cl :: cl in pending ==> cl in clusters)
    requires Grown(pending, nc, pending')
    ensures Prefixed(clusters, groups + [nc])
    ensures forall cl :: cl in pending' ==> cl in clusters
  {
    var gs := groups + [nc];
    assert pending[0] in clusters;
    forall cl | cl in pending'
      ensures cl in clusters
    {
      assert cl in pending[1..];
      assert cl in pending;
    }
    forall g | 0 <= g < |gs|
      ensures exists c :: 0 <= c < |clusters| && clusters[c] <= gs[g]
    {
      if g == |groups| {
        var c :| 0 <= c < |clusters| && clusters[c] == pending[0];
        assert clusters[c] <= gs[g];
      } else {
        assert gs[g] == groups[g];
      }
    }
  }

  lemma ClosePendingApart(key: LarmorKey, groups: seq<seq<nat>>, pending: seq<seq<nat>>,
                          nc: seq<nat>, pending': seq<seq<nat>>)
    requires PendingApart(key, groups, pending) && Grown(pending, nc, pending')
    requires forall x, d, y :: x in nc && 0 <= d < |pending'| && y in pending'[d] ==> key(x) != key(y)
    ensures PendingApart(key, groups + [nc], pending')
  {
    var gs := groups + [nc];
    forall g, a, d, y | 0 <= g < |gs| && a in gs[g] && 0 <= d < |pending'| && y in pending'[d]
      ensures key(a) != key(y)
    {
      if g < |groups| {
        assert gs[g] == groups[g];
        assert pending'[d] in pending[1..];
        var e :| 0 <= e < |pending[1..]| && pending[1..][e] == pending'[d];
        assert pending[e + 1] == pending'[d];
      }
    }
  }

  lemma CloseLaterApart(key: LarmorKey, groups: seq<seq<nat>>, pending: seq<seq<nat>>,
                        nc: seq<nat>, pending': seq<seq<nat>>)
    requires PendingApart(key, groups, pending) && LaterApart(key, groups) && Grown(pending, nc, pending')
    ensures LaterApart(key, groups + [nc])
  {
    var gs := groups + [nc];
    forall g, h, a, b | 0 <= g < h < |gs| && a in gs[g] && b in gs[h]
      ensures key(a) != key(b)
    {
      assert gs[g] == groups[g];
      if h == |groups| {
        CloseMembers(pending, nc, pending', b);
      } else {
        assert gs[h] == groups[h];
      }
    }
  }

  /** Closing a group grown from the first pending cluster keeps the state of the outer loop. */
  lemma CloseGroup(key: LarmorKey, clusters: seq<seq<nat>>, groups: seq<seq<nat>>,
                   pending: seq<seq<nat>>, nc: seq<nat>, pending': seq<seq<nat>>)
    requires GroupsInv(key, clusters, groups, pending) && Grown(pending, nc, pending')
    requires forall x, d, y :: x in nc && 0 <= d < |pending'| && y in pending'[d] ==> key(x) != key(y)
    ensures GroupsInv(key, clusters, groups + [nc], pending')
  {
    CloseCounts(clusters, groups, pending, nc, pending');
    ClosePrefixed(clusters, groups, pending, nc, pending');
    ClosePendingApart(key, groups, pending, nc, pending');
    CloseLaterApart(key, groups, pending, nc, pending');
  }

  /**
   * group_clusters (lines 130-161): repeatedly take the first remaining cluster as a new group
   * and merge into it every remaining cluster that holds a larmor pair of one of its members.
   * The groups hold the same indices as the clusters, as often; there are no more groups than
   * clusters; every group begins with one of the clusters; and no larmor pair is split between
   * two groups.  The source's loop counter is a uint, so at most 2^32 clusters are handled.
   */
  method GroupClusters(key: LarmorKey, clusters: seq<seq<nat>>) returns (groups: seq<seq<nat>>)
    requires |clusters| <= U32
    ensures multiset(Flatten(groups)) == multiset(Flatten(clusters))
    ensures |groups| <= |clusters|
    ensures forall g :: 0 <= g < |groups| ==> exists c :: 0 <= c < |clusters| && clusters[c] <= groups[g]
    ensures Apart(key, groups)
  {
    var pending := clusters;
    groups := [];
    while |pending| > 0
      invariant GroupsInv(key, clusters, groups, pending)
      decreases |pending|
    {
      groups, pending := GroupNext(key, clusters, groups, pending);
    }
    assert Flatten(pending) == [];
    LaterApartIsApart(key, groups);
  }

  /**
   * One pass of the outer loop of group_clusters (lines 135-157): the first pending cluster
   * becomes a new group, grown by the i-loop, and the clusters merged into it leave the list.
   */
  method GroupNext(key: LarmorKey, ghost clusters: seq<seq<nat>>, groups0: seq<seq<nat>>,
                   pending0: seq<seq<nat>>)
    returns (groups: seq<seq<nat>>, pending: seq<seq<nat>>)
    requires GroupsInv(key, clusters, groups0, pending0) && |pending0| > 0 && |clusters| <= U32
    ensures GroupsInv(key, clusters, groups, pending) && |pending| < |pending0|
  {
    groups := groups0 + [pending0[0]];
    pending := pending0[1..];
    var grouped := false;
    var nc := groups[|groups| - 1];
    ghost var (first, rest) := (nc, pending);
    nc, pending, grouped := GrowGroup(key, nc, pending);
    CloseGrown(key, clusters, groups0, pending0, first, rest, nc, pending);
    if grouped {
      groups := groups[|groups| - 1 := nc];
    }
    assert groups == groups0 + [nc];
  }

  /** The outcome of the i-loop for the first pending cluster closes a group. */
  lemma CloseGrown(key: LarmorKey, clusters: seq<seq<nat>>, groups: seq<seq<nat>>,
                   pending: seq<seq<nat>>, first: seq<nat>, rest: seq<seq<nat>>,
                   nc: seq<nat>, pending': seq<seq<nat>>)
    requires GroupsInv(key, clusters, groups, pending) && |pending| > 0
    requires first == pending[0] && rest == pending[1..]
    requires |nc| >= |first| && nc[..|first|] == first
    requires multiset(nc[|first|..]) + multiset(Flatten(pending')) == multiset(Flatten(rest))
    requires |pending'| <= |rest|
    requires forall cl :: cl in pending' ==> cl in rest
    requires forall x, d, y :: x in nc && 0 <= d < |pending'| && y in pending'[d] ==> key(x) != key(y)
    ensures GroupsInv(key, clusters, groups + [nc], pending')
  {
    assert Grown(pending, nc, pending');
    CloseGroup(key, clusters, groups, pending, nc, pending');
  }

  /** Pairs are kept apart in both directions once they are kept from every later group. */
  lemma LaterApartIsApart(key: LarmorKey, groups: seq<seq<nat>>)
    requires LaterApart(key, groups)
    ensures Apart(key, groups)
  {
    forall g, h, a, b | 0 <= g < |groups| && 0 <= h < |groups| && g != h && a in groups[g] && b in groups[h]
      ensures key(a) != key(b)
    {
      if h < g {
        assert key(b) != key(a);
      }
    }
  }
}
