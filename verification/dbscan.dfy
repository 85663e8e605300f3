/** `clusteringDBSCAN` (src/lib/clusteringDBSCAN.ts; src/lib/clusteringB.ts
    holds an identical private copy): groups series whose Euclidean distance
    is within `eps`, growing each cluster from the lowest unclustered series
    and using `eps` also as the minimum neighbour count for expanding a
    member. Points are indices into the input; the source pushes
    `values[index]`, which the callers obtain by mapping the indices. */
module Density {
  import opened Basics
  import opened TimeSeries

  /** The sum of squared differences over the first `m` keys of `a`, or
      `None` for NaN: an undefined operand anywhere makes the sum NaN. */
  function SumSquares(a: Series, b: Series, m: nat): (d: Option<real>)
    requires m <= |a.keys|
    ensures d.Some? ==> d.value >= 0.0
    ensures d.Some? <==> forall i :: 0 <= i < m ==>
      Lookup(a, a.keys[i]).Some? && Lookup(b, a.keys[i]).Some?
  {
    if m == 0 then Some(0.0)
    else
      var t := a.keys[m - 1];
      var p := SumSquares(a, b, m - 1);
      if p.Some? && Lookup(a, t).Some? && Lookup(b, t).Some? then
        var x, y := Lookup(a, t).value, Lookup(b, t).value;
        Some(p.value + (x - y) * (x - y))
      else None
  }

  /** The square of `calculateDistance(a, b)`: the loop runs over the keys of
      `a` and reads the same key in `b`. */
  function SquaredDistance(a: Series, b: Series): Option<real> {
    SumSquares(a, b, |a.keys|)
  }

  /** The distance is symmetric when both series carry the same keys. */
  lemma {:induction false} SumSquaresSymmetric(a: Series, b: Series, m: nat)
    requires a.keys == b.keys && m <= |a.keys|
    ensures SumSquares(a, b, m) == SumSquares(b, a, m)
  {
    if m > 0 {
      SumSquaresSymmetric(a, b, m - 1);
      var t := a.keys[m - 1];
      var pa := SumSquares(a, b, m - 1);
      if pa.Some? && Lookup(a, t).Some? && Lookup(b, t).Some? {
        var x, y := Lookup(a, t).value, Lookup(b, t).value;
        assert SumSquares(a, b, m).value == pa.value + (x - y) * (x - y);
        assert SumSquares(b, a, m).value == pa.value + (y - x) * (y - x);
      }
    }
  }

  /** `Math.sqrt(d) <= eps` for a squared distance `d`; NaN compares false. */
  predicate Within(d: Option<real>, eps: real) {
    d.Some? && 0.0 <= eps && d.value <= eps * eps
  }

  /** `Within` is the square-root comparison: for the non-negative root `r`
      of `d`, `r <= eps` exactly when `Within(Some(d), eps)`. */
  lemma WithinIsRootComparison(d: real, r: real, eps: real)
    requires r >= 0.0 && r * r == d
    ensures r <= eps <==> Within(Some(d), eps)
  {
    if r <= eps {
      MulLeftMono(r, r, eps);
      MulLeftMono(eps, r, eps);
      assert r * eps == eps * r;
      assert d <= eps * eps;
    }
    if 0.0 <= eps && r > eps {
      MulLeftStrict(r, eps, r);
      MulLeftMono(eps, eps, r);
      calc {
        d;
      ==
        r * r;
      >
        r * eps;
      ==
        eps * r;
      >=
        eps * eps;
      }
    }
  }

  lemma MulLeftMono(c: real, x: real, y: real)
    requires c >= 0.0 && x <= y
    ensures c * x <= c * y
  {
  }

  lemma MulLeftStrict(c: real, x: real, y: real)
    requires c > 0.0 && x < y
    ensures c * x < c * y
  {
  }

  /** `i !== pointIndex && calculateDistance(values[pointIndex], values[i]) <= eps` */
  predicate IsNeighbor(pts: seq<Series>, eps: real, p: nat, q: nat)
    requires p < |pts| && q < |pts|
  {
    p != q && Within(SquaredDistance(pts[p], pts[q]), eps)
  }

  /** The neighbours of `p` among the first `m` points, in index order. */
  function NeighborsBelow(pts: seq<Series>, eps: real, p: nat, m: nat): (r: seq<nat>)
    requires p < |pts| && m <= |pts|
    ensures StrictlyIncreasing(r)
    ensures forall q: nat :: q in r <==> q < m && IsNeighbor(pts, eps, p, q)
  {
    if m == 0 then []
    else
      var r := NeighborsBelow(pts, eps, p, m - 1);
      forall i | 0 <= i < |r| ensures r[i] < m - 1 {
        assert r[i] in r;
      }
      if IsNeighbor(pts, eps, p, m - 1) then r + [m - 1] else r
  }

  /** `getNeighbors(p)` */
  function Neighbors(pts: seq<Series>, eps: real, p: nat): (r: seq<nat>)
    requires p < |pts|
    ensures StrictlyIncreasing(r)
    ensures forall q: nat :: q in r <==> q < |pts| && IsNeighbor(pts, eps, p, q)
  {
    NeighborsBelow(pts, eps, p, |pts|)
  }

  /** Every member is a point of the input. */
  predicate Members(pts: seq<Series>, cluster: seq<nat>) {
    forall i :: 0 <= i < |cluster| ==> cluster[i] < |pts|
  }

  /** Whether the member at position `s` had its neighbours queued: the seed
      always does, every later member when it has at least `eps` of them. */
  predicate Expands(pts: seq<Series>, eps: real, cluster: seq<nat>, s: nat)
    requires Members(pts, cluster) && s < |cluster|
  {
    s == 0 || |Neighbors(pts, eps, cluster[s])| as real >= eps
  }

  /** Every member after the seed is a neighbour of an earlier member that
      expands. */
  ghost predicate Reachable(pts: seq<Series>, eps: real, cluster: seq<nat>)
    requires Members(pts, cluster)
  {
    forall t :: 0 < t < |cluster| ==> ReachedBefore(pts, eps, cluster, t)
  }

  /** Member `t` is a neighbour of an expanding member placed before it. */
  ghost predicate ReachedBefore(pts: seq<Series>, eps: real, cluster: seq<nat>, t: nat)
    requires Members(pts, cluster) && t < |cluster|
  {
    exists s: nat :: s < t && Expands(pts, eps, cluster, s) && IsNeighbor(pts, eps, cluster[s], cluster[t])
  }

  /** The number of `false` entries. */
  function CountFalse(s: seq<bool>): (r: nat)
    ensures r <= |s|
  {
    if s == [] then 0 else CountFalse(s[..|s| - 1]) + (if s[|s| - 1] then 0 else 1)
  }

  /** No `false` flag counts zero; all `false` flags count the length. */
  lemma {:induction false} CountFalseExtremes(s: seq<bool>)
    ensures (forall i :: 0 <= i < |s| ==> s[i]) ==> CountFalse(s) == 0
    ensures (forall i :: 0 <= i < |s| ==> !s[i]) ==> CountFalse(s) == |s|
  {
    if s != [] {
      var n := |s| - 1;
      assert forall i :: 0 <= i < n ==> s[..n][i] == s[i];
      CountFalseExtremes(s[..n]);
    }
  }

  lemma {:induction false} CountFalseFlip(s: seq<bool>, k: nat)
    requires k < |s| && !s[k]
    ensures CountFalse(s[k := true]) == CountFalse(s) - 1
  {
    var n := |s| - 1;
    var t := s[k := true];
    assert CountFalse(t) == CountFalse(t[..n]) + (if t[n] then 0 else 1);
    assert CountFalse(s) == CountFalse(s[..n]) + (if s[n] then 0 else 1);
    if k == n {
      assert t[..n] == s[..n];
    } else {
      assert t[..n] == s[..n][k := true];
      CountFalseFlip(s[..n], k);
    }
  }


  /** Flag and membership bookkeeping of `expandCluster`: `out` is the
      `clustered` array, `clustered` its value on entry. */
  ghost predicate Bookkeeping(pts: seq<Series>, seed: nat, clustered: seq<bool>, queue: seq<nat>,
                              cluster: seq<nat>, out: seq<bool>)
  {
    && seed < |pts| && |clustered| == |pts| && |out| == |pts|
    && (forall i :: 0 <= i < |queue| ==> queue[i] < |pts|)
    && |cluster| > 0 && cluster[0] == seed && Distinct(cluster) && Members(pts, cluster)
    && (forall i :: 0 <= i < |cluster| ==> !clustered[cluster[i]])
    && (forall k :: 0 <= k < |pts| ==> (out[k] <==> clustered[k] || k in cluster))
    && CountFalse(out) + |cluster| == CountFalse(clustered)
  }

  /** Why each member and each queued index is there: `via[t]` is the
      expanding member that reached member `t`, `src[i]` the one whose
      neighbours put `queue[i]` in the queue. */
  ghost predicate Witnessed(pts: seq<Series>, eps: real, queue: seq<nat>, cluster: seq<nat>,
                            via: seq<nat>, src: seq<nat>)
  {
    && Members(pts, cluster) && (forall i :: 0 <= i < |queue| ==> queue[i] < |pts|)
    && |via| == |cluster| && |src| == |queue|
    && (forall t :: 0 < t < |cluster| ==>
          via[t] < t && Expands(pts, eps, cluster, via[t]) && IsNeighbor(pts, eps, cluster[via[t]], cluster[t]))
    && (forall i :: 0 <= i < |queue| ==>
          src[i] < |cluster| && Expands(pts, eps, cluster, src[i]) && IsNeighbor(pts, eps, cluster[src[i]], queue[i]))
  }

  /** Every neighbour of an expanding member has been queued. */
  ghost predicate Queued(pts: seq<Series>, eps: real, queue: seq<nat>, cluster: seq<nat>) {
    Members(pts, cluster) &&
    forall s, q :: 0 <= s < |cluster| && Expands(pts, eps, cluster, s) && q in Neighbors(pts, eps, cluster[s]) ==>
      q in queue
  }

  /** The first `j` queue entries are clustered. */
  ghost predicate Processed(queue: seq<nat>, j: nat, out: seq<bool>) {
    j <= |queue| && forall i :: 0 <= i < j ==> queue[i] < |out| && out[queue[i]]
  }

  /** What the queue and cluster become when `queue[j]` is met unclustered. */
  function GrownQueue(pts: seq<Series>, eps: real, queue: seq<nat>, q: nat): seq<nat>
    requires q < |pts|
  {
    var n := Neighbors(pts, eps, q);
    if |n| as real >= eps then queue + n else queue
  }

  function GrownSrc(pts: seq<Series>, eps: real, src: seq<nat>, q: nat, pos: nat): seq<nat>
    requires q < |pts|
  {
    var n := Neighbors(pts, eps, q);
    if |n| as real >= eps then src + Repeat(pos, |n|) else src
  }

  lemma AddMemberBookkeeping(pts: seq<Series>, eps: real, seed: nat, clustered: seq<bool>, queue: seq<nat>,
                             j: nat, cluster: seq<nat>, out: seq<bool>)
    requires Bookkeeping(pts, seed, clustered, queue, cluster, out)
    requires j < |queue| && !out[queue[j]]
    ensures var q := queue[j];
      && Bookkeeping(pts, seed, clustered, GrownQueue(pts, eps, queue, q), cluster + [q], out[q := true])
      && CountFalse(out[q := true]) < CountFalse(out)
  {
    var q := queue[j];
    var c := cluster + [q];
    var o := out[q := true];
    CountFalseFlip(out, q);
    assert forall i :: 0 <= i < |cluster| ==> out[cluster[i]] by {
      forall i | 0 <= i < |cluster| ensures out[cluster[i]] {
        assert cluster[i] in cluster;
      }
    }
    assert Distinct(c);
    forall k | 0 <= k < |pts| ensures o[k] <==> clustered[k] || k in c {
      assert k in c <==> k in cluster || k == q;
    }
    var g := GrownQueue(pts, eps, queue, q);
    assert forall i :: 0 <= i < |g| ==> g[i] < |pts| by {
      var n := Neighbors(pts, eps, q);
      forall i | 0 <= i < |g| ensures g[i] < |pts| {
        if i >= |queue| {
          assert g[i] == n[i - |queue|] && n[i - |queue|] in n;
        }
      }
    }
  }

  lemma AddMemberWitnessed(pts: seq<Series>, eps: real, queue: seq<nat>, j: nat, cluster: seq<nat>,
                           via: seq<nat>, src: seq<nat>)
    requires Witnessed(pts, eps, queue, cluster, via, src)
    requires j < |queue|
    ensures var q := queue[j];
      Witnessed(pts, eps, GrownQueue(pts, eps, queue, q), cluster + [q], via + [src[j]],
                GrownSrc(pts, eps, src, q, |cluster|))
  {
    var q := queue[j];
    var c := cluster + [q];
    var t := |cluster|;
    var n := Neighbors(pts, eps, q);
    var g := GrownQueue(pts, eps, queue, q);
    var sr := GrownSrc(pts, eps, src, q, t);
    assert Members(pts, c);
    forall s | 0 <= s < t ensures Expands(pts, eps, c, s) == Expands(pts, eps, cluster, s) {
      assert c[s] == cluster[s];
    }
    var v := via + [src[j]];
    forall u | 0 < u < |c| ensures v[u] < u && Expands(pts, eps, c, v[u]) && IsNeighbor(pts, eps, c[v[u]], c[u]) {
      if u < t {
        assert v[u] == via[u] && c[u] == cluster[u];
      }
    }
    if |n| as real >= eps {
      assert Expands(pts, eps, c, t);
    }
    forall i | 0 <= i < |g| ensures g[i] < |pts| &&
      sr[i] < |c| && Expands(pts, eps, c, sr[i]) && IsNeighbor(pts, eps, c[sr[i]], g[i])
    {
      if i >= |queue| {
        assert g[i] == n[i - |queue|] && n[i - |queue|] in n && sr[i] == t;
      } else {
        assert g[i] == queue[i] && sr[i] == src[i] && c[src[i]] == cluster[src[i]];
      }
    }
  }

  lemma AddMemberQueued(pts: seq<Series>, eps: real, queue: seq<nat>, j: nat, cluster: seq<nat>)
    requires Queued(pts, eps, queue, cluster)
    requires |cluster| > 0 && j < |queue| && queue[j] < |pts|
    ensures var q := queue[j];
      Queued(pts, eps, GrownQueue(pts, eps, queue, q), cluster + [q])
  {
    var q := queue[j];
    var c := cluster + [q];
    var t := |cluster|;
    var g := GrownQueue(pts, eps, queue, q);
    assert Members(pts, c);
    forall s, x | 0 <= s < |c| && Expands(pts, eps, c, s) && x in Neighbors(pts, eps, c[s])
      ensures x in g
    {
      if s < t {
        assert c[s] == cluster[s];
        assert Expands(pts, eps, cluster, s);
        assert x in queue;
      } else {
        assert c[s] == q;
        assert g == queue + Neighbors(pts, eps, q);
      }
    }
  }

  lemma AddMemberProcessed(pts: seq<Series>, eps: real, queue: seq<nat>, j: nat, out: seq<bool>)
    requires Processed(queue, j, out)
    requires j < |queue| && queue[j] < |pts| && queue[j] < |out|
    ensures var q := queue[j];
      Processed(GrownQueue(pts, eps, queue, q), j + 1, out[q := true])
  {
    var q := queue[j];
    var g := GrownQueue(pts, eps, queue, q);
    forall i | 0 <= i < j + 1 ensures g[i] < |out| && out[q := true][g[i]] {
      assert g[i] == queue[i];
    }
  }

  lemma ProcessedSkip(queue: seq<nat>, j: nat, out: seq<bool>)
    requires Processed(queue, j, out)
    requires j < |queue| && queue[j] < |out| && out[queue[j]]
    ensures Processed(queue, j + 1, out)
  {
  }

  lemma ExpandReachable(pts: seq<Series>, eps: real, queue: seq<nat>, cluster: seq<nat>,
                        via: seq<nat>, src: seq<nat>)
    requires Witnessed(pts, eps, queue, cluster, via, src)
    ensures Reachable(pts, eps, cluster)
  {
    forall t | 0 < t < |cluster| ensures ReachedBefore(pts, eps, cluster, t) {
      var s := via[t];
      assert 0 <= s < t && Expands(pts, eps, cluster, s) && IsNeighbor(pts, eps, cluster[s], cluster[t]);
    }
  }

  /** Once the loop has run through the queue, everything queued is clustered. */
  lemma ProcessedAll(queue: seq<nat>, out: seq<bool>)
    requires Processed(queue, |queue|, out)
    ensures forall q :: q in queue ==> q < |out| && out[q]
  {
    forall q | q in queue ensures q < |out| && out[q] {
      var i :| 0 <= i < |queue| && queue[i] == q;
    }
  }

  /** `expandCluster(cluster, seed, neighbors)` on an empty cluster, with
      `visited[seed]` already set. Returns the cluster and both flag arrays. */
  method ExpandCluster(pts: seq<Series>, eps: real, seed: nat, neighbors: seq<nat>,
                       visited: seq<bool>, clustered: seq<bool>)
    returns (cluster: seq<nat>, visitedOut: seq<bool>, clusteredOut: seq<bool>)
    requires seed < |pts| && |clustered| == |pts|
    requires !clustered[seed] && visited == clustered[seed := true]
    requires neighbors == Neighbors(pts, eps, seed)
    ensures visitedOut == clusteredOut && |clusteredOut| == |pts|
    ensures |cluster| > 0 && cluster[0] == seed && Distinct(cluster)
    ensures Members(pts, cluster)
    ensures forall x :: x in cluster ==> x < |pts| && !clustered[x]
    ensures forall k :: 0 <= k < |pts| ==> (clusteredOut[k] <==> clustered[k] || k in cluster)
    ensures CountFalse(clusteredOut) + |cluster| == CountFalse(clustered)
    ensures Reachable(pts, eps, cluster)
    ensures forall s, q :: 0 <= s < |cluster| && Expands(pts, eps, cluster, s) && q in Neighbors(pts, eps, cluster[s]) ==>
      clusteredOut[q]
  {
    var queue: seq<nat> := neighbors;
    cluster := [seed];
    visitedOut := visited;
    clusteredOut := clustered[seed := true];
    CountFalseFlip(clustered, seed);
    ghost var via: seq<nat> := [0];
    ghost var src: seq<nat> := Repeat<nat>(0, |queue|);
    assert Expands(pts, eps, cluster, 0);
    forall i | 0 <= i < |queue| ensures queue[i] < |pts| && IsNeighbor(pts, eps, seed, queue[i]) {
      assert queue[i] in neighbors;
    }
    var j := 0;
    while j < |queue|
      invariant visitedOut == clusteredOut
      invariant Bookkeeping(pts, seed, clustered, queue, cluster, clusteredOut)
      invariant Witnessed(pts, eps, queue, cluster, via, src)
      invariant Queued(pts, eps, queue, cluster)
      invariant Processed(queue, j, clusteredOut)
      decreases CountFalse(clusteredOut), |queue| - j
    {
      var q := queue[j];
      ghost var from: nat := src[j];
      ghost var pos := |cluster|;
      ghost var before := queue;
      if !visitedOut[q] {
        AddMemberBookkeeping(pts, eps, seed, clustered, queue, j, cluster, clusteredOut);
        AddMemberWitnessed(pts, eps, queue, j, cluster, via, src);
        AddMemberQueued(pts, eps, queue, j, cluster);
        AddMemberProcessed(pts, eps, queue, j, clusteredOut);
        visitedOut := visitedOut[q := true];
        var newNeighbors := Neighbors(pts, eps, q);
        if |newNeighbors| as real >= eps {
          queue := queue + newNeighbors;
        }
        src := GrownSrc(pts, eps, src, q, pos);
        assert queue == GrownQueue(pts, eps, before, q);
      } else {
        ProcessedSkip(queue, j, clusteredOut);
      }
      if !clusteredOut[q] {
        cluster := cluster + [q];
        clusteredOut := clusteredOut[q := true];
        via := via + [from];
      }
      j := j + 1;
    }
    ExpandReachable(pts, eps, queue, cluster, via, src);
    ProcessedAll(queue, clusteredOut);
    forall x | x in cluster ensures x < |pts| && !clustered[x] {
      var t :| 0 <= t < |cluster| && cluster[t] == x;
    }
  }

  /** Ownership bookkeeping of the main loop: `owner[k]` is the cluster
      holding point `k`, or -1 while `k` is unclustered. */
  ghost predicate Owned(pts: seq<Series>, clusters: seq<seq<nat>>, clustered: seq<bool>, owner: seq<int>) {
    && |clustered| == |pts| && |owner| == |pts|
    && (forall k :: 0 <= k < |pts| ==> (clustered[k] <==> owner[k] >= 0) && owner[k] < |clusters|)
    && (forall k :: 0 <= k < |pts| && owner[k] >= 0 ==> k in clusters[owner[k]])
    && (forall c, x {:trigger x in clusters[c]} :: 0 <= c < |clusters| && x in clusters[c] ==> x < |pts| && owner[x] == c)
    && TotalLength(clusters) + CountFalse(clustered) == |pts|
  }

  /** Every cluster is a non-empty, duplicate-free, reachable chain. */
  ghost predicate Grown(pts: seq<Series>, eps: real, clusters: seq<seq<nat>>) {
    forall c :: 0 <= c < |clusters| ==>
      |clusters[c]| > 0 && Distinct(clusters[c]) && Members(pts, clusters[c]) && Reachable(pts, eps, clusters[c])
  }

  /** The seeds are the points the outer loop met unclustered, in order. */
  ghost predicate Seeded(pts: seq<Series>, clusters: seq<seq<nat>>, clustered: seq<bool>, owner: seq<int>, i: nat) {
    && i <= |pts| && |clustered| == |pts| && |owner| == |pts|
    && (forall k :: 0 <= k < i ==> clustered[k])
    && (forall c :: 0 <= c < |clusters| ==> |clusters[c]| > 0 && clusters[c][0] < i)
    && (forall c1, c2 :: 0 <= c1 < c2 < |clusters| ==> clusters[c1][0] < clusters[c2][0])
    && (forall c, k :: 0 <= c < |clusters| && 0 <= k < clusters[c][0] ==> 0 <= owner[k] < c)
  }

  /** Every neighbour of an expanding member lies in that cluster or an
      earlier one. */
  ghost predicate Closed(pts: seq<Series>, eps: real, clusters: seq<seq<nat>>, owner: seq<int>) {
    && |owner| == |pts|
    && (forall c :: 0 <= c < |clusters| ==> Members(pts, clusters[c]))
    && forall c, s, q ::
         (0 <= c < |clusters| && 0 <= s < |clusters[c]| &&
          Expands(pts, eps, clusters[c], s) && q in Neighbors(pts, eps, clusters[c][s])) ==> 0 <= owner[q] <= c
  }

  /** `owner` once the points of `cluster` are given to cluster `c`. */
  function Assign(owner: seq<int>, cluster: seq<nat>, c: int): (r: seq<int>)
    ensures |r| == |owner|
    ensures forall k :: 0 <= k < |owner| ==> r[k] == if k in cluster then c else owner[k]
  {
    seq(|owner|, k requires 0 <= k < |owner| => if k in cluster then c else owner[k])
  }

  /** What `ExpandCluster` promises about a new cluster seeded at `i`. */
  ghost predicate Expanded(pts: seq<Series>, eps: real, i: nat, clustered: seq<bool>,
                           cluster: seq<nat>, clusteredOut: seq<bool>)
  {
    && i < |pts| && |clustered| == |pts| && |clusteredOut| == |pts|
    && |cluster| > 0 && cluster[0] == i && Distinct(cluster) && Members(pts, cluster)
    && (forall x :: x in cluster ==> x < |pts| && !clustered[x])
    && (forall k :: 0 <= k < |pts| ==> (clusteredOut[k] <==> clustered[k] || k in cluster))
    && CountFalse(clusteredOut) + |cluster| == CountFalse(clustered)
    && Reachable(pts, eps, cluster)
    && (forall s, q :: 0 <= s < |cluster| && Expands(pts, eps, cluster, s) && q in Neighbors(pts, eps, cluster[s]) ==>
          clusteredOut[q])
  }

  lemma AddClusterOwned(pts: seq<Series>, eps: real, clusters: seq<seq<nat>>, clustered: seq<bool>, owner: seq<int>,
                        i: nat, cluster: seq<nat>, clusteredOut: seq<bool>)
    requires Owned(pts, clusters, clustered, owner)
    requires Expanded(pts, eps, i, clustered, cluster, clusteredOut)
    ensures Owned(pts, clusters + [cluster], clusteredOut, Assign(owner, cluster, |clusters|))
  {
    var cs, o := clusters + [cluster], Assign(owner, cluster, |clusters|);
    AddClusterFlags(pts, clusters, clustered, owner, cluster, clusteredOut, cs, o);
    AddClusterHolds(pts, clusters, clustered, owner, cluster, cs, o);
    AddClusterMembers(pts, clusters, clustered, owner, cluster, cs, o);
    AddClusterLength(pts, clusters, clustered, owner, cluster, clusteredOut, cs);
  }

  lemma AddClusterFlags(pts: seq<Series>, clusters: seq<seq<nat>>, clustered: seq<bool>, owner: seq<int>,
                        cluster: seq<nat>, clusteredOut: seq<bool>, cs: seq<seq<nat>>, o: seq<int>)
    requires Owned(pts, clusters, clustered, owner) && |clusteredOut| == |pts|
    requires forall k :: 0 <= k < |pts| ==> (clusteredOut[k] <==> clustered[k] || k in cluster)
    requires cs == clusters + [cluster] && o == Assign(owner, cluster, |clusters|)
    ensures |o| == |pts|
    ensures forall k :: 0 <= k < |pts| ==> (clusteredOut[k] <==> o[k] >= 0) && o[k] < |cs|
  {
  }

  lemma AddClusterHolds(pts: seq<Series>, clusters: seq<seq<nat>>, clustered: seq<bool>, owner: seq<int>,
                        cluster: seq<nat>, cs: seq<seq<nat>>, o: seq<int>)
    requires Owned(pts, clusters, clustered, owner)
    requires cs == clusters + [cluster] && o == Assign(owner, cluster, |clusters|)
    ensures forall k :: 0 <= k < |pts| && o[k] >= 0 ==> k in cs[o[k]]
  {
    forall k | 0 <= k < |pts| && o[k] >= 0 ensures k in cs[o[k]] {
      if k in cluster {
        assert cs[o[k]] == cluster;
      } else {
        assert cs[owner[k]] == clusters[owner[k]];
      }
    }
  }

  lemma AddClusterMembers(pts: seq<Series>, clusters: seq<seq<nat>>, clustered: seq<bool>, owner: seq<int>,
                          cluster: seq<nat>, cs: seq<seq<nat>>, o: seq<int>)
    requires Owned(pts, clusters, clustered, owner)
    requires forall x :: x in cluster ==> x < |pts| && !clustered[x]
    requires cs == clusters + [cluster] && o == Assign(owner, cluster, |clusters|)
    ensures forall c, x {:trigger x in cs[c]} :: 0 <= c < |cs| && x in cs[c] ==> x < |pts| && o[x] == c
  {
    forall c, x | 0 <= c < |cs| && x in cs[c] ensures x < |pts| && o[x] == c {
      if c < |clusters| {
        assert cs[c] == clusters[c];
        OwnedMember(pts, clusters, clustered, owner, c, x);
      } else {
        assert cs[c] == cluster;
      }
    }
  }

  lemma OwnedMember(pts: seq<Series>, clusters: seq<seq<nat>>, clustered: seq<bool>, owner: seq<int>, c: nat, x: nat)
    requires Owned(pts, clusters, clustered, owner)
    requires c < |clusters| && x in clusters[c]
    ensures x < |pts| && owner[x] == c && clustered[x]
  {
  }

  lemma AddClusterLength(pts: seq<Series>, clusters: seq<seq<nat>>, clustered: seq<bool>, owner: seq<int>,
                         cluster: seq<nat>, clusteredOut: seq<bool>, cs: seq<seq<nat>>)
    requires Owned(pts, clusters, clustered, owner)
    requires CountFalse(clusteredOut) + |cluster| == CountFalse(clustered)
    requires cs == clusters + [cluster]
    ensures TotalLength(cs) + CountFalse(clusteredOut) == |pts|
  {
    assert cs[..|clusters|] == clusters;
  }

  lemma AddClusterSeeded(pts: seq<Series>, eps: real, clusters: seq<seq<nat>>, clustered: seq<bool>, owner: seq<int>,
                         i: nat, cluster: seq<nat>, clusteredOut: seq<bool>)
    requires Owned(pts, clusters, clustered, owner)
    requires Seeded(pts, clusters, clustered, owner, i)
    requires Expanded(pts, eps, i, clustered, cluster, clusteredOut)
    ensures Seeded(pts, clusters + [cluster], clusteredOut, Assign(owner, cluster, |clusters|), i + 1)
  {
    var cs := clusters + [cluster];
    var o := Assign(owner, cluster, |clusters|);
    assert cluster[0] in cluster;
    forall c, k | 0 <= c < |cs| && 0 <= k < cs[c][0] ensures 0 <= o[k] < c {
      if c < |clusters| {
        assert cs[c] == clusters[c];
        assert 0 <= owner[k] < c;
        assert clustered[k];
      } else {
        assert clustered[k];
      }
    }
  }

  /** A point already clustered is passed over. */
  lemma SkipSeeded(pts: seq<Series>, eps: real, clusters: seq<seq<nat>>, clustered: seq<bool>, owner: seq<int>, i: nat)
    requires Progress(pts, eps, clusters, clustered, owner, i)
    requires i < |pts| && clustered[i]
    ensures Progress(pts, eps, clusters, clustered, owner, i + 1)
  {
  }

  lemma AddClusterGrown(pts: seq<Series>, eps: real, clusters: seq<seq<nat>>, i: nat, clustered: seq<bool>,
                        cluster: seq<nat>, clusteredOut: seq<bool>)
    requires Grown(pts, eps, clusters)
    requires Expanded(pts, eps, i, clustered, cluster, clusteredOut)
    ensures Grown(pts, eps, clusters + [cluster])
  {
    var cs := clusters + [cluster];
    forall c | 0 <= c < |cs|
      ensures |cs[c]| > 0 && Distinct(cs[c]) && Members(pts, cs[c]) && Reachable(pts, eps, cs[c])
    {
      if c < |clusters| {
        assert cs[c] == clusters[c];
      }
    }
  }

  lemma AddClusterClosed(pts: seq<Series>, eps: real, clusters: seq<seq<nat>>, clustered: seq<bool>, owner: seq<int>,
                         i: nat, cluster: seq<nat>, clusteredOut: seq<bool>)
    requires Owned(pts, clusters, clustered, owner)
    requires Closed(pts, eps, clusters, owner)
    requires Expanded(pts, eps, i, clustered, cluster, clusteredOut)
    ensures Closed(pts, eps, clusters + [cluster], Assign(owner, cluster, |clusters|))
  {
    var cs := clusters + [cluster];
    var o := Assign(owner, cluster, |clusters|);
    forall c, s, q | 0 <= c < |cs| && 0 <= s < |cs[c]| && Expands(pts, eps, cs[c], s) && q in Neighbors(pts, eps, cs[c][s])
      ensures 0 <= o[q] <= c
    {
      if c < |clusters| {
        assert cs[c] == clusters[c];
        assert 0 <= owner[q] <= c;
      } else {
        assert cs[c] == cluster;
        assert clusteredOut[q];
      }
    }
  }

  /** The invariant of the main loop after the first `i` points. */
  ghost predicate Progress(pts: seq<Series>, eps: real, clusters: seq<seq<nat>>, clustered: seq<bool>,
                           owner: seq<int>, i: nat)
  {
    && Owned(pts, clusters, clustered, owner)
    && Seeded(pts, clusters, clustered, owner, i)
    && Grown(pts, eps, clusters)
    && Closed(pts, eps, clusters, owner)
  }

  /** Appending the cluster grown from the unclustered point `i` keeps the
      invariant. */
  lemma AddCluster(pts: seq<Series>, eps: real, clusters: seq<seq<nat>>, clustered: seq<bool>, owner: seq<int>,
                   i: nat, cluster: seq<nat>, clusteredOut: seq<bool>)
    requires Progress(pts, eps, clusters, clustered, owner, i)
    requires Expanded(pts, eps, i, clustered, cluster, clusteredOut)
    ensures Progress(pts, eps, clusters + [cluster], clusteredOut, Assign(owner, cluster, |clusters|), i + 1)
  {
    AddClusterOwned(pts, eps, clusters, clustered, owner, i, cluster, clusteredOut);
    AddClusterSeeded(pts, eps, clusters, clustered, owner, i, cluster, clusteredOut);
    AddClusterGrown(pts, eps, clusters, i, clustered, cluster, clusteredOut);
    AddClusterClosed(pts, eps, clusters, clustered, owner, i, cluster, clusteredOut);
  }

  /** Before the first turn nothing is clustered and nothing is owned. */
  lemma ClusterStart(pts: seq<Series>, eps: real)
    ensures Progress(pts, eps, [], Repeat(false, |pts|), Repeat(-1, |pts|), 0)
  {
    var clustered, owner := Repeat(false, |pts|), Repeat(-1, |pts|);
    CountFalseExtremes(clustered);
    assert CountFalse(clustered) == |pts| && TotalLength<nat>([]) == 0;
    assert Owned(pts, [], clustered, owner);
  }

  lemma ClusterDone(pts: seq<Series>, eps: real, clusters: seq<seq<nat>>, clustered: seq<bool>, owner: seq<int>)
    requires Progress(pts, eps, clusters, clustered, owner, |pts|)
    ensures forall k :: 0 <= k < |pts| ==> HeldBefore(clusters, k, |clusters|)
    ensures forall c1, c2, x :: 0 <= c1 < |clusters| && 0 <= c2 < |clusters| && x in clusters[c1] && x in clusters[c2] ==>
      c1 == c2
    ensures TotalLength(clusters) == |pts|
    ensures forall c, k :: 0 <= c < |clusters| && 0 <= k < clusters[c][0] ==>
      HeldBefore(clusters, k, c)
    ensures forall c, s, q ::
      (0 <= c < |clusters| && 0 <= s < |clusters[c]| &&
       Expands(pts, eps, clusters[c], s) && q in Neighbors(pts, eps, clusters[c][s])) ==>
      HeldBefore(clusters, q, c + 1)
  {
    OwnedDisjoint(pts, clusters, clustered, owner);
    CountFalseExtremes(clustered);
    forall k | 0 <= k < |pts| ensures HeldBefore(clusters, k, |clusters|) {
      assert k in clusters[owner[k]];
    }
    forall c, k | 0 <= c < |clusters| && 0 <= k < clusters[c][0] ensures HeldBefore(clusters, k, c) {
      assert k in clusters[owner[k]];
    }
    forall c, s, q | 0 <= c < |clusters| && 0 <= s < |clusters[c]| &&
      Expands(pts, eps, clusters[c], s) && q in Neighbors(pts, eps, clusters[c][s])
      ensures HeldBefore(clusters, q, c + 1)
    {
      assert q < |pts|;
      assert q in clusters[owner[q]];
    }
  }

  /** Ownership makes the clusters pairwise disjoint. */
  lemma OwnedDisjoint(pts: seq<Series>, clusters: seq<seq<nat>>, clustered: seq<bool>, owner: seq<int>)
    requires Owned(pts, clusters, clustered, owner)
    ensures forall c1, c2, x :: 0 <= c1 < |clusters| && 0 <= c2 < |clusters| && x in clusters[c1] && x in clusters[c2] ==>
      c1 == c2
  {
    forall c1, c2, x | 0 <= c1 < |clusters| && 0 <= c2 < |clusters| && x in clusters[c1] && x in clusters[c2]
      ensures c1 == c2
    {
      assert owner[x] == c1;
      assert owner[x] == c2;
    }
  }

  /** Some cluster with an index below `n` holds point `k`. */
  ghost predicate HeldBefore(clusters: seq<seq<nat>>, k: nat, n: int) {
    exists c :: 0 <= c < n && c < |clusters| && k in clusters[c]
  }

  /** `clusteringDBSCAN(values, eps)` as clusters of indices. Every point lands
      in exactly one cluster; a cluster's seed is the lowest point no earlier
      cluster holds; every other member is a neighbour of an earlier member
      that expands; and no neighbour of an expanding member is left to a
      later cluster. */
  method Cluster(pts: seq<Series>, eps: real) returns (clusters: seq<seq<nat>>)
    ensures forall c :: 0 <= c < |clusters| ==>
      |clusters[c]| > 0 && Distinct(clusters[c]) && Members(pts, clusters[c])
    ensures forall k :: 0 <= k < |pts| ==> HeldBefore(clusters, k, |clusters|)
    ensures forall c1, c2, x :: 0 <= c1 < |clusters| && 0 <= c2 < |clusters| && x in clusters[c1] && x in clusters[c2] ==>
      c1 == c2
    ensures TotalLength(clusters) == |pts|
    ensures forall c1, c2 :: 0 <= c1 < c2 < |clusters| ==> clusters[c1][0] < clusters[c2][0]
    ensures forall c, k :: 0 <= c < |clusters| && 0 <= k < clusters[c][0] ==>
      HeldBefore(clusters, k, c)
    ensures forall c :: 0 <= c < |clusters| ==> Reachable(pts, eps, clusters[c])
    ensures forall c, s, q ::
      (0 <= c < |clusters| && 0 <= s < |clusters[c]| &&
       Expands(pts, eps, clusters[c], s) && q in Neighbors(pts, eps, clusters[c][s])) ==>
      HeldBefore(clusters, q, c + 1)
  {
    clusters := [];
    var visited := Repeat(false, |pts|);
    var clustered := Repeat(false, |pts|);
    ghost var owner: seq<int> := Repeat(-1, |pts|);
    ClusterStart(pts, eps);
    var i := 0;
    while i < |pts|
      invariant visited == clustered
      invariant Progress(pts, eps, clusters, clustered, owner, i)
    {
      if !(visited[i] || clustered[i]) {
        clusters, visited, clustered, owner := StartCluster(pts, eps, clusters, visited, clustered, owner, i);
      } else {
        SkipSeeded(pts, eps, clusters, clustered, owner, i);
      }
      i := i + 1;
    }
    ClusterDone(pts, eps, clusters, clustered, owner);
  }

  /** Everything `Cluster` promises about the clusters it returns for `pts`
      and `eps`, as one fact that callers can pass on. */
  ghost predicate DbscanResult(pts: seq<Series>, eps: real, clusters: seq<seq<nat>>) {
    && (forall c :: 0 <= c < |clusters| ==>
          |clusters[c]| > 0 && Distinct(clusters[c]) && Members(pts, clusters[c]))
    && (forall k :: 0 <= k < |pts| ==> HeldBefore(clusters, k, |clusters|))
    && (forall c1, c2, x :: 0 <= c1 < |clusters| && 0 <= c2 < |clusters| && x in clusters[c1] && x in clusters[c2] ==>
          c1 == c2)
    && TotalLength(clusters) == |pts|
    && (forall c1, c2 :: 0 <= c1 < c2 < |clusters| ==> clusters[c1][0] < clusters[c2][0])
    && (forall c, k :: 0 <= c < |clusters| && 0 <= k < clusters[c][0] ==> HeldBefore(clusters, k, c))
    && (forall c :: 0 <= c < |clusters| ==> Reachable(pts, eps, clusters[c]))
    && (forall c, s, q ::
          (0 <= c < |clusters| && 0 <= s < |clusters[c]| &&
           Expands(pts, eps, clusters[c], s) && q in Neighbors(pts, eps, clusters[c][s])) ==>
          HeldBefore(clusters, q, c + 1))
  }

  /** One turn of the main loop that meets the unclustered point `i`: its
      neighbours are fetched and a new cluster is grown from it. */
  method StartCluster(pts: seq<Series>, eps: real, clusters: seq<seq<nat>>, visited: seq<bool>, clustered: seq<bool>,
                      ghost owner: seq<int>, i: nat)
    returns (clusters': seq<seq<nat>>, visited': seq<bool>, clustered': seq<bool>, ghost owner': seq<int>)
    requires Progress(pts, eps, clusters, clustered, owner, i)
    requires visited == clustered && i < |pts| && !clustered[i]
    ensures visited' == clustered'
    ensures Progress(pts, eps, clusters', clustered', owner', i + 1)
  {
    var neighbors := Neighbors(pts, eps, i);
    var cluster, visitedOut, clusteredOut := ExpandCluster(pts, eps, i, neighbors, visited[i := true], clustered);
    AddCluster(pts, eps, clusters, clustered, owner, i, cluster, clusteredOut);
    visited', clustered' := visitedOut, clusteredOut;
    owner' := Assign(owner, cluster, |clusters|);
    clusters' := clusters + [cluster];
  }
}
