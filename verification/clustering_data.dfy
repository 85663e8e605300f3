/** Grouping a window of rows by dimension (src/lib/clusteringData.ts; the
    same steps are repeated inline in `aggregatorB`, src/lib/clusteringB.ts):
    rows become one series per dimension, the series are clustered by
    density, and every cluster is turned back into rows. */
module ClusteringData {
  import opened Basics
  import opened Records
  import opened TimeSeries
  import opened Density

  /** `Object.keys(timeSeries)` of every series built from `rows`: the
      distinct timestamps in ECMAScript key order. */
  function KeyOrder(rows: seq<Row>): seq<int> {
    OwnKeys(Dedup(Timestamps(rows)))
  }

  /** For a window whose timestamps are non-negative and strictly increasing
      (what the producers append), the key order is the window order. */
  lemma KeyOrderOfIncreasing(rows: seq<Row>)
    requires StrictlyIncreasing(Timestamps(rows))
    requires forall k :: 0 <= k < |rows| ==> rows[k].timestamp >= 0
    ensures KeyOrder(rows) == Timestamps(rows)
  {
    var ts := Timestamps(rows);
    assert Distinct(ts);
    OwnKeysOfIncreasing(ts);
  }

  /** The series a cluster of indices stands for (`values[index]`). */
  function Pick(pts: seq<Series>, cluster: seq<nat>): (r: seq<Series>)
    requires Members(pts, cluster)
    ensures |r| == |cluster|
    ensures forall i :: 0 <= i < |cluster| ==> r[i] == pts[cluster[i]]
  {
    seq(|cluster|, i requires 0 <= i < |cluster| => pts[cluster[i]])
  }

  function Names(cluster: seq<Series>): (r: seq<string>)
    ensures |r| == |cluster|
    ensures forall i :: 0 <= i < |cluster| ==> r[i] == cluster[i].name
  {
    seq(|cluster|, i requires 0 <= i < |cluster| => cluster[i].name)
  }

  /** The column names a series can carry into a row. */
  predicate Nameable(cluster: seq<Series>) {
    Distinct(Names(cluster)) && TimestampKey !in Names(cluster)
  }

  /** `{ timestamp }` followed by `entry[colName] = values[timestamp]` for the
      members in cluster order. */
  function EntryAt(cluster: seq<Series>, t: int): (r: Row)
    requires Nameable(cluster)
    ensures WellFormed(r) && r.timestamp == t && r.cols == Names(cluster)
    ensures forall i :: 0 <= i < |cluster| ==> Get(r, cluster[i].name) == Lookup(cluster[i], t)
  {
    var names := Names(cluster);
    var values := seq(|cluster|, i requires 0 <= i < |cluster| => Lookup(cluster[i], t));
    BuildRow(t, names, values)
  }

  /** The rows of one cluster: one per key of the first member's series, in
      that order, each holding every member's value at that timestamp. */
  function Reassemble(cluster: seq<Series>): (rows: seq<Row>)
    requires |cluster| > 0 && Nameable(cluster)
    ensures |rows| == |cluster[0].keys|
    ensures forall k :: 0 <= k < |rows| ==>
      WellFormed(rows[k]) && rows[k].timestamp == cluster[0].keys[k] && rows[k].cols == Names(cluster)
    ensures forall k, i :: 0 <= k < |rows| && 0 <= i < |cluster| ==>
      Get(rows[k], cluster[i].name) == Lookup(cluster[i], cluster[0].keys[k])
  {
    var ts := cluster[0].keys;
    seq(|ts|, k requires 0 <= k < |ts| => EntryAt(cluster, ts[k]))
  }

  /** `parts` splits the duplicate-free `whole` into non-empty, disjoint,
      duplicate-free pieces that together hold every element. */
  ghost predicate Partition(parts: seq<seq<string>>, whole: seq<string>) {
    && (forall g :: 0 <= g < |parts| ==> |parts[g]| > 0 && Distinct(parts[g]))
    && (forall g, x :: 0 <= g < |parts| && x in parts[g] ==> x in whole)
    && (forall x :: x in whole ==> InSomePart(parts, x))
    && (forall g1, g2, x :: 0 <= g1 < |parts| && 0 <= g2 < |parts| && x in parts[g1] && x in parts[g2] ==> g1 == g2)
    && TotalLength(parts) == |whole|
  }

  ghost predicate InSomePart(parts: seq<seq<string>>, x: string) {
    exists g :: 0 <= g < |parts| && x in parts[g]
  }

  /** The member names of every cluster of indices. */
  function ClusterNames(pts: seq<Series>, clusters: seq<seq<nat>>): (r: seq<seq<string>>)
    requires forall c :: 0 <= c < |clusters| ==> Members(pts, clusters[c])
    ensures |r| == |clusters|
    ensures forall c :: 0 <= c < |clusters| ==> r[c] == Names(Pick(pts, clusters[c]))
  {
    seq(|clusters|, c requires 0 <= c < |clusters| => Names(Pick(pts, clusters[c])))
  }

  /** The density clusters of the series of `dims` name every dimension
      exactly once. */
  lemma ClusterNamesPartition(rows: seq<Row>, dims: seq<string>, clusters: seq<seq<nat>>)
    requires Distinct(dims)
    requires var pts := AllSeries(rows, dims);
      && (forall c :: 0 <= c < |clusters| ==>
            |clusters[c]| > 0 && Distinct(clusters[c]) && Members(pts, clusters[c]))
      && (forall k :: 0 <= k < |pts| ==> HeldBefore(clusters, k, |clusters|))
      && (forall c1, c2, x :: 0 <= c1 < |clusters| && 0 <= c2 < |clusters| && x in clusters[c1] && x in clusters[c2] ==>
            c1 == c2)
      && TotalLength(clusters) == |pts|
    ensures Partition(ClusterNames(AllSeries(rows, dims), clusters), dims)
  {
    var pts := AllSeries(rows, dims);
    var names := ClusterNames(pts, clusters);
    assert forall c :: 0 <= c < |clusters| ==> |names[c]| == |clusters[c]|;
    assert forall c, j :: 0 <= c < |clusters| && 0 <= j < |clusters[c]| ==>
      clusters[c][j] < |dims| && names[c][j] == dims[clusters[c][j]];
    NamesDistinct(dims, clusters, names);
    NamesInDims(dims, clusters, names);
    DimsNamed(dims, clusters, names);
    NamesDisjoint(dims, clusters, names);
    TotalLengthSameShape(names, clusters);
  }

  /** `names[c][j]` is the dimension at index `clusters[c][j]`. */
  predicate NamedBy(dims: seq<string>, clusters: seq<seq<nat>>, names: seq<seq<string>>) {
    && |names| == |clusters|
    && (forall c :: 0 <= c < |clusters| ==> |names[c]| == |clusters[c]|)
    && (forall c, j :: 0 <= c < |clusters| && 0 <= j < |clusters[c]| ==>
          clusters[c][j] < |dims| && names[c][j] == dims[clusters[c][j]])
  }

  lemma NamesDistinct(dims: seq<string>, clusters: seq<seq<nat>>, names: seq<seq<string>>)
    requires NamedBy(dims, clusters, names) && Distinct(dims)
    requires forall c :: 0 <= c < |clusters| ==> |clusters[c]| > 0 && Distinct(clusters[c])
    ensures forall g :: 0 <= g < |names| ==> |names[g]| > 0 && Distinct(names[g])
  {
    forall g | 0 <= g < |names| ensures |names[g]| > 0 && Distinct(names[g]) {
      forall a, b | 0 <= a < b < |names[g]| ensures names[g][a] != names[g][b] {
        assert clusters[g][a] != clusters[g][b];
      }
    }
  }

  lemma NamesInDims(dims: seq<string>, clusters: seq<seq<nat>>, names: seq<seq<string>>)
    requires NamedBy(dims, clusters, names)
    ensures forall g, x :: 0 <= g < |names| && x in names[g] ==> x in dims
  {
    forall g, x | 0 <= g < |names| && x in names[g] ensures x in dims {
      var j :| 0 <= j < |names[g]| && names[g][j] == x;
      assert clusters[g][j] < |dims|;
    }
  }

  lemma DimsNamed(dims: seq<string>, clusters: seq<seq<nat>>, names: seq<seq<string>>)
    requires NamedBy(dims, clusters, names)
    requires forall k :: 0 <= k < |dims| ==> HeldBefore(clusters, k, |clusters|)
    ensures forall x :: x in dims ==> InSomePart(names, x)
  {
    forall x | x in dims ensures InSomePart(names, x) {
      var k :| 0 <= k < |dims| && dims[k] == x;
      assert HeldBefore(clusters, k, |clusters|);
      var c :| 0 <= c < |clusters| && k in clusters[c];
      var j :| 0 <= j < |clusters[c]| && clusters[c][j] == k;
      assert names[c][j] == x;
    }
  }

  lemma NamesDisjoint(dims: seq<string>, clusters: seq<seq<nat>>, names: seq<seq<string>>)
    requires NamedBy(dims, clusters, names) && Distinct(dims)
    requires forall c1, c2, x :: 0 <= c1 < |clusters| && 0 <= c2 < |clusters| && x in clusters[c1] && x in clusters[c2] ==>
      c1 == c2
    ensures forall g1, g2, x :: 0 <= g1 < |names| && 0 <= g2 < |names| && x in names[g1] && x in names[g2] ==> g1 == g2
  {
    forall g1, g2, x | 0 <= g1 < |names| && 0 <= g2 < |names| && x in names[g1] && x in names[g2]
      ensures g1 == g2
    {
      var j1 :| 0 <= j1 < |names[g1]| && names[g1][j1] == x;
      var j2 :| 0 <= j2 < |names[g2]| && names[g2][j2] == x;
      var k1, k2 := clusters[g1][j1], clusters[g2][j2];
      assert dims[k1] == dims[k2];
      assert k1 == k2;
      assert k1 in clusters[g1] && k1 in clusters[g2];
    }
  }

  /** The reassembled rows of every cluster. */
  function ClusterRows(pts: seq<Series>, clusters: seq<seq<nat>>): (r: seq<seq<Row>>)
    requires forall c :: 0 <= c < |clusters| ==>
      |clusters[c]| > 0 && Members(pts, clusters[c]) && Nameable(Pick(pts, clusters[c]))
    ensures |r| == |clusters|
    ensures forall c :: 0 <= c < |clusters| ==> r[c] == Reassemble(Pick(pts, clusters[c]))
  {
    seq(|clusters|, c requires 0 <= c < |clusters| => Reassemble(Pick(pts, clusters[c])))
  }

  /** The density path (src/lib/clusteringData.ts:14-63): `names[g]` lists
      the dimensions of group `g` in cluster order, and `alert` is whether
      the "missing timelines" alert fires. */
  method DensityGroups(rows: seq<Row>, dims: seq<string>, eps: real)
    returns (groups: seq<seq<Row>>, names: seq<seq<string>>, alert: bool, ghost clusters: seq<seq<nat>>)
    requires Distinct(dims) && TimestampKey !in dims
    ensures !alert
    ensures DensityOutcome(rows, dims, eps, clusters, groups, names)
  {
    var pts := AllSeries(rows, dims);
    var found := Cluster(pts, eps);
    clusters := found;
    var count := TotalLength(found);
    alert := count != |dims|;
    groups, names := ClusterGroups(rows, dims, pts, found);
  }

  /** The density path's result for `eps`: `clusters` is what DBSCAN finds
      among the series of `dims`, `names[g]` names the series of cluster `g`
      in cluster order, and the groups are the reassembled rows of those
      names. */
  ghost predicate DensityOutcome(rows: seq<Row>, dims: seq<string>, eps: real, clusters: seq<seq<nat>>,
                                 groups: seq<seq<Row>>, names: seq<seq<string>>) {
    var pts := AllSeries(rows, dims);
    && DbscanResult(pts, eps, clusters)
    && names == ClusterNames(pts, clusters)
    && DensityResult(rows, dims, groups, names)
  }

  /** What the density path returns: `names` splits `dims`; group `g` has
      one well-formed row per key of the window, in key order, whose columns
      are `names[g]` and whose values are the last ones `rows` records (so,
      for a non-empty window, the first rows carry `names`). */
  ghost predicate DensityResult(rows: seq<Row>, dims: seq<string>, groups: seq<seq<Row>>, names: seq<seq<string>>) {
    && |groups| == |names| && Partition(names, dims)
    && Aligned(groups)
    && (forall g :: 0 <= g < |groups| ==> |groups[g]| == |KeyOrder(rows)|)
    && (forall g, k :: 0 <= g < |groups| && 0 <= k < |groups[g]| ==>
          && WellFormed(groups[g][k])
          && groups[g][k].timestamp == KeyOrder(rows)[k]
          && groups[g][k].cols == names[g])
    && (forall g, k, d :: 0 <= g < |groups| && 0 <= k < |groups[g]| && d in names[g] ==>
          LastWins(rows, d, groups[g][k].timestamp, Get(groups[g][k], d)))
    && (rows != [] ==> FirstRows(groups) == names)
    && DensityShaped(rows, dims, groups)
  }

  /** Over a non-empty window every density group has rows: its first row
      carries its cluster's names, and no cluster is empty. */
  lemma DensityNonEmpty(rows: seq<Row>, dims: seq<string>, groups: seq<seq<Row>>, names: seq<seq<string>>)
    requires DensityResult(rows, dims, groups, names) && rows != []
    ensures forall g :: 0 <= g < |groups| ==> |groups[g]| > 0
  {
    forall g | 0 <= g < |groups| ensures |groups[g]| > 0 {
      assert FirstRows(groups)[g] == names[g];
    }
  }

  /** The groups and names built from clusters that split the series of
      `dims` (the part of the density path after `clusteringDBSCAN`). */
  method ClusterGroups(rows: seq<Row>, dims: seq<string>, pts: seq<Series>, clusters: seq<seq<nat>>)
    returns (groups: seq<seq<Row>>, names: seq<seq<string>>)
    requires Distinct(dims) && TimestampKey !in dims && pts == AllSeries(rows, dims)
    requires forall c :: 0 <= c < |clusters| ==>
      |clusters[c]| > 0 && Distinct(clusters[c]) && Members(pts, clusters[c])
    requires forall k :: 0 <= k < |pts| ==> HeldBefore(clusters, k, |clusters|)
    requires forall c1, c2, x :: 0 <= c1 < |clusters| && 0 <= c2 < |clusters| && x in clusters[c1] && x in clusters[c2] ==>
      c1 == c2
    requires TotalLength(clusters) == |pts|
    ensures names == ClusterNames(pts, clusters)
    ensures DensityResult(rows, dims, groups, names)
  {
    names := ClusterNames(pts, clusters);
    ClusterNamesPartition(rows, dims, clusters);
    ClustersNameable(dims, pts, clusters, names);
    groups := ClusterRows(pts, clusters);
    DensityGroupsKeys(rows, dims, pts, clusters, names, groups);
    DensityGroupsValues(rows, dims, pts, clusters, names, groups);
    AlignedOnKeys(groups, KeyOrder(rows));
    DensityGroupsShaped(rows, dims, groups, names);
  }

  /** Every cluster's series have distinct names other than `timestamp`,
      because the names split `dims`. */
  lemma ClustersNameable(dims: seq<string>, pts: seq<Series>, clusters: seq<seq<nat>>, names: seq<seq<string>>)
    requires TimestampKey !in dims
    requires forall c :: 0 <= c < |clusters| ==> Members(pts, clusters[c])
    requires names == ClusterNames(pts, clusters) && Partition(names, dims)
    ensures forall c :: 0 <= c < |clusters| ==> Nameable(Pick(pts, clusters[c]))
  {
    forall c | 0 <= c < |clusters| ensures Nameable(Pick(pts, clusters[c])) {
      assert Names(Pick(pts, clusters[c])) == names[c];
      assert forall x :: x in names[c] ==> x in dims;
    }
  }

  /** Groups whose rows all follow one key list are aligned. */
  lemma AlignedOnKeys(groups: seq<seq<Row>>, keys: seq<int>)
    requires forall g :: 0 <= g < |groups| ==> |groups[g]| == |keys|
    requires forall g, k :: 0 <= g < |groups| && 0 <= k < |groups[g]| ==> groups[g][k].timestamp == keys[k]
    ensures Aligned(groups)
  {
    forall g, k | 0 <= g < |groups| && 0 <= k < |groups[g]|
      ensures groups[g][k].timestamp == groups[0][k].timestamp
    {
      assert groups[g][k].timestamp == keys[k] && groups[0][k].timestamp == keys[k];
    }
  }

  /** The shared preconditions of the per-row lemmas below. */
  ghost predicate Reassembled(rows: seq<Row>, dims: seq<string>, pts: seq<Series>, clusters: seq<seq<nat>>,
                              names: seq<seq<string>>, groups: seq<seq<Row>>) {
    && pts == AllSeries(rows, dims)
    && (forall c :: 0 <= c < |clusters| ==>
          |clusters[c]| > 0 && Members(pts, clusters[c]) && Nameable(Pick(pts, clusters[c])))
    && names == ClusterNames(pts, clusters)
    && groups == ClusterRows(pts, clusters)
  }

  /** Every group has one row per key of the window, in key order, with its
      cluster's names as columns. */
  lemma DensityGroupsKeys(rows: seq<Row>, dims: seq<string>, pts: seq<Series>, clusters: seq<seq<nat>>,
                          names: seq<seq<string>>, groups: seq<seq<Row>>)
    requires Reassembled(rows, dims, pts, clusters, names, groups)
    ensures forall g :: 0 <= g < |groups| ==> |groups[g]| == |KeyOrder(rows)|
    ensures forall g, k :: 0 <= g < |groups| && 0 <= k < |groups[g]| ==>
      && WellFormed(groups[g][k])
      && groups[g][k].timestamp == KeyOrder(rows)[k]
      && groups[g][k].cols == names[g]
  {
    forall g | 0 <= g < |groups|
      ensures |groups[g]| == |KeyOrder(rows)|
      ensures forall k :: 0 <= k < |groups[g]| ==> groups[g][k].timestamp == KeyOrder(rows)[k]
    {
      assert Pick(pts, clusters[g])[0] == ToSeries(rows, dims[clusters[g][0]]);
    }
  }

  /** Every value of a group is the last value the window gives its
      dimension at that timestamp. */
  lemma DensityGroupsValues(rows: seq<Row>, dims: seq<string>, pts: seq<Series>, clusters: seq<seq<nat>>,
                            names: seq<seq<string>>, groups: seq<seq<Row>>)
    requires Reassembled(rows, dims, pts, clusters, names, groups)
    ensures forall g, k, d :: 0 <= g < |groups| && 0 <= k < |groups[g]| && d in names[g] ==>
      LastWins(rows, d, groups[g][k].timestamp, Get(groups[g][k], d))
  {
    forall g, k, d | 0 <= g < |groups| && 0 <= k < |groups[g]| && d in names[g]
      ensures LastWins(rows, d, groups[g][k].timestamp, Get(groups[g][k], d))
    {
      var cl := Pick(pts, clusters[g]);
      assert forall j :: 0 <= j < |cl| ==> cl[j] == ToSeries(rows, cl[j].name);
      var i :| 0 <= i < |names[g]| && names[g][i] == d;
      ReassembledValue(rows, cl, k, i);
    }
  }

  /** One cell of a reassembled cluster whose members are series of `rows`. */
  lemma ReassembledValue(rows: seq<Row>, cl: seq<Series>, k: nat, i: nat)
    requires |cl| > 0 && Nameable(cl)
    requires forall j :: 0 <= j < |cl| ==> cl[j] == ToSeries(rows, cl[j].name)
    requires k < |cl[0].keys| && i < |cl|
    ensures LastWins(rows, cl[i].name, Reassemble(cl)[k].timestamp, Get(Reassemble(cl)[k], cl[i].name))
  {
    var t := cl[0].keys[k];
    assert t in Timestamps(rows);
    assert t in cl[i].at;
  }

  /** `clusteringData(dataToBeClustered, dimensions, settings)`. The
      count strategy `clusteringByCount` is not part of this model and is
      passed in as `byCount`. With a truthy `eps`, `clusters` and `names`
      are the DBSCAN clusters and group names behind the groups. */
  method Group(rows: seq<Row>, dims: seq<string>, settings: Settings,
               byCount: (seq<Row>, int) -> seq<seq<Row>>)
    returns (groups: seq<seq<Row>>, ghost clusters: seq<seq<nat>>, ghost names: seq<seq<string>>)
    requires Distinct(dims) && TimestampKey !in dims
    ensures TruthyReal(settings.eps) ==> DensityOutcome(rows, dims, settings.eps.value, clusters, groups, names)
    ensures !TruthyReal(settings.eps) && TruthyInt(settings.clusterCount) ==>
      groups == byCount(rows, settings.clusterCount.value)
    ensures !TruthyReal(settings.eps) && !TruthyInt(settings.clusterCount) ==> groups == [rows]
  {
    clusters, names := [], [];
    if TruthyReal(settings.eps) {
      var found, alert;
      groups, found, alert, clusters := DensityGroups(rows, dims, settings.eps.value);
      names := found;
    } else if TruthyInt(settings.clusterCount) {
      groups := byCount(rows, settings.clusterCount.value);
    } else {
      groups := [rows];
    }
  }

  /** What the density path guarantees about its groups: aligned rows, one
      per distinct timestamp, and (for a non-empty window) first rows whose
      columns split the dimensions. */
  ghost predicate DensityShaped(rows: seq<Row>, dims: seq<string>, groups: seq<seq<Row>>) {
    && Aligned(groups)
    && (forall g :: 0 <= g < |groups| ==> |groups[g]| == |KeyOrder(rows)|)
    && (forall g, k :: 0 <= g < |groups| && 0 <= k < |groups[g]| ==> WellFormed(groups[g][k]))
    && (rows != [] ==> Partition(FirstRows(groups), dims))
  }

  lemma DensityGroupsShaped(rows: seq<Row>, dims: seq<string>, groups: seq<seq<Row>>, names: seq<seq<string>>)
    requires |groups| == |names| && Partition(names, dims)
    requires Aligned(groups)
    requires forall g :: 0 <= g < |groups| ==> |groups[g]| == |KeyOrder(rows)|
    requires forall g, k :: 0 <= g < |groups| && 0 <= k < |groups[g]| ==>
      WellFormed(groups[g][k]) && groups[g][k].cols == names[g]
    ensures rows != [] ==> FirstRows(groups) == names
    ensures DensityShaped(rows, dims, groups)
  {
    if rows != [] {
      assert Timestamps(rows)[0] in KeyOrder(rows);
      assert FirstRows(groups) == names;
    }
  }

  /** The columns of every group's first row (no group is empty here). */
  function FirstRows(groups: seq<seq<Row>>): (r: seq<seq<string>>)
    ensures |r| == |groups|
    ensures forall g :: 0 <= g < |groups| ==> r[g] == FirstRowColumns(groups[g])
  {
    seq(|groups|, g requires 0 <= g < |groups| => FirstRowColumns(groups[g]))
  }
}
