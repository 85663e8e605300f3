/** `clusteringOverTime` (src/lib/clusteringOverTime.ts): for every row
    after the first context window, the rows just before it are grouped and
    the group of every dimension is recorded. */
module OverTime {
  import opened Basics
  import opened Records
  import opened TimeSeries
  import opened Density
  import opened ClusteringData
  import opened Aggregator

  /** `{ timestamp, clusters }`; the timestamp is kept as the number it is
      converted from. */
  datatype ClusterView = ClusterView(timestamp: int, clusters: seq<(string, int)>)

  /** `!!settings.dataTicks ? settings.dataTicks : 20` */
  function ContextWindow(settings: Settings): (w: int)
    ensures TruthyInt(settings.dataTicks) ==> w == settings.dataTicks.value
    ensures !TruthyInt(settings.dataTicks) ==> w == 20
  {
    if TruthyInt(settings.dataTicks) then settings.dataTicks.value else 20
  }

  /** The index of the first row that gets a view: every index below the
      context window is skipped. */
  function FirstView(len: nat, w: int): (f: nat)
    ensures f <= len
    ensures f < len ==> f == Max(w, 0)
    ensures f == len ==> Max(w, 0) >= len
  {
    if w <= 0 then 0 else Min(w, len)
  }

  /** `rawData.slice(i - w, i)`: the `w` rows before row `i` (none for a
      negative window, whose slice starts after it ends). */
  function ViewWindow(raw: seq<Row>, w: int, i: nat): (rows: seq<Row>)
    requires i <= |raw|
    ensures 0 < w <= i ==> rows == raw[i - w..i]
    ensures w < 0 ==> rows == []
  {
    Slice(raw, i - w, i)
  }

  /** `v` is the view the source records for row `i`: that row's timestamp
      and one `[dimension, group]` pair per dimension, computed from the
      grouping of the `w` rows before row `i`. With a truthy `eps`,
      `clusters` are the DBSCAN clusters of that grouping. */
  ghost predicate ViewFor(raw: seq<Row>, dims: seq<string>, settings: Settings,
                          byCount: (seq<Row>, int) -> seq<seq<Row>>, i: nat, v: ClusterView,
                          clusters: seq<seq<nat>>)
    requires i < |raw|
  {
    var rows := ViewWindow(raw, ContextWindow(settings), i);
    && v.timestamp == raw[i].timestamp
    && |v.clusters| == |dims|
    && (forall k :: 0 <= k < |dims| ==> v.clusters[k].0 == dims[k])
    && (TruthyReal(settings.eps) ==> DensityView(rows, dims, settings.eps.value, clusters, v.clusters))
    && (!TruthyReal(settings.eps) && TruthyInt(settings.clusterCount) ==>
          v.clusters == ColsAccordingToAggregation(byCount(rows, settings.clusterCount.value), dims))
    && (!TruthyReal(settings.eps) && !TruthyInt(settings.clusterCount) ==>
          v.clusters == ColsAccordingToAggregation([rows], dims))
  }

  /** The pairs of a density view: `clusters` is what DBSCAN finds among the
      series of `dims` over `rows` for `eps`, and every dimension is paired
      with the cluster whose series bears its name, or with -1 when there
      are no rows. */
  ghost predicate DensityView(rows: seq<Row>, dims: seq<string>, eps: real, clusters: seq<seq<nat>>,
                              pairs: seq<(string, int)>) {
    var pts := AllSeries(rows, dims);
    && DbscanResult(pts, eps, clusters)
    && |pairs| == |dims|
    && (rows != [] ==> forall k :: 0 <= k < |dims| ==>
          0 <= pairs[k].1 < |clusters| && dims[k] in ClusterNames(pts, clusters)[pairs[k].1])
    && (rows == [] ==> forall k :: 0 <= k < |dims| ==> pairs[k].1 == -1)
  }

  /** `clusteringOverTime(rawData, dimensions, settings).clustersInTime`,
      with `clusteringByCount` passed in as `byCount`: one view per row from
      the context window on, in row order. */
  method ClusteringOverTime(raw: seq<Row>, dims: seq<string>, settings: Settings,
                            byCount: (seq<Row>, int) -> seq<seq<Row>>)
    returns (views: seq<ClusterView>, ghost clusterings: seq<seq<seq<nat>>>)
    requires Distinct(dims) && TimestampKey !in dims
    ensures var f := FirstView(|raw|, ContextWindow(settings));
      |views| == |raw| - f && ViewsFrom(raw, dims, settings, byCount, f, views, clusterings)
  {
    var w := ContextWindow(settings);
    ghost var f := FirstView(|raw|, w);
    views, clusterings := [], [];
    var i := 0;
    while i < |raw|
      invariant 0 <= i <= |raw|
      invariant |views| == if i < f then 0 else i - f
      invariant ViewsFrom(raw, dims, settings, byCount, f, views, clusterings)
    {
      if i < w {
        i := i + 1;
        continue;
      }
      NextView(|raw|, w, i, |views|);
      var view, groups, clusters := ViewAt(raw, dims, settings, byCount, i);
      ViewsAppend(raw, dims, settings, byCount, f, views, clusterings, i, view, clusters);
      views, clusterings := views + [view], clusterings + [clusters];
      i := i + 1;
    }
  }

  /** `views[j]` is the view for row `f + j`, with `clusterings[j]` the
      DBSCAN clusters behind it. */
  ghost predicate ViewsFrom(raw: seq<Row>, dims: seq<string>, settings: Settings,
                            byCount: (seq<Row>, int) -> seq<seq<Row>>, f: nat, views: seq<ClusterView>,
                            clusterings: seq<seq<seq<nat>>>) {
    && f + |views| <= |raw| && |clusterings| == |views|
    && forall j :: 0 <= j < |views| ==> ViewFor(raw, dims, settings, byCount, f + j, views[j], clusterings[j])
  }

  /** A row the context window has reached is the next one to get a view. */
  lemma NextView(len: nat, w: int, i: nat, n: nat)
    requires w <= i < len
    requires n == if i < FirstView(len, w) then 0 else i - FirstView(len, w)
    ensures i == FirstView(len, w) + n
  {
  }

  /** A view for the next row extends a list of views for the rows from `f`. */
  lemma ViewsAppend(raw: seq<Row>, dims: seq<string>, settings: Settings,
                    byCount: (seq<Row>, int) -> seq<seq<Row>>, f: nat, views: seq<ClusterView>,
                    clusterings: seq<seq<seq<nat>>>, i: nat, view: ClusterView, clusters: seq<seq<nat>>)
    requires i == f + |views| && i < |raw|
    requires ViewsFrom(raw, dims, settings, byCount, f, views, clusterings)
    requires ViewFor(raw, dims, settings, byCount, i, view, clusters)
    ensures ViewsFrom(raw, dims, settings, byCount, f, views + [view], clusterings + [clusters])
  {
    forall j | 0 <= j < |views| + 1
      ensures ViewFor(raw, dims, settings, byCount, f + j, (views + [view])[j], (clusterings + [clusters])[j])
    {
      if j < |views| {
        assert (views + [view])[j] == views[j] && (clusterings + [clusters])[j] == clusterings[j];
      } else {
        assert (views + [view])[j] == view && (clusterings + [clusters])[j] == clusters;
      }
    }
  }

  /** The loop body for a row `i` the context window has reached. `groups`
      is what `clusteringData` returns for the rows before row `i`; when
      those rows are empty and the strategy is density or none, the
      source's owner search throws on them. */
  method ViewAt(raw: seq<Row>, dims: seq<string>, settings: Settings,
                byCount: (seq<Row>, int) -> seq<seq<Row>>, i: nat)
    returns (view: ClusterView, ghost groups: seq<seq<Row>>, ghost clusters: seq<seq<nat>>)
    requires Distinct(dims) && TimestampKey !in dims
    requires i < |raw|
    ensures ViewFor(raw, dims, settings, byCount, i, view, clusters)
    ensures view.clusters == ColsAccordingToAggregation(groups, dims)
    ensures ((TruthyReal(settings.eps) || !TruthyInt(settings.clusterCount)) &&
             ViewWindow(raw, ContextWindow(settings), i) == [] && |dims| > 0) ==>
      ColsAsWritten(groups, dims).TypeError?
    ensures ((TruthyReal(settings.eps) || !TruthyInt(settings.clusterCount)) &&
             ViewWindow(raw, ContextWindow(settings), i) != []) ==>
      ColsAsWritten(groups, dims) == Ok(view.clusters)
  {
    var w := ContextWindow(settings);
    var rows := ViewWindow(raw, w, i);
    var timestamp := raw[i].timestamp;
    var aggregated;
    ghost var names;
    aggregated, clusters, names := Group(rows, dims, settings, byCount);
    groups := aggregated;
    var pairs := ColsAccordingToAggregation(aggregated, dims);
    view := ClusterView(timestamp, pairs);
    if TruthyReal(settings.eps) {
      DensityGivesView(rows, dims, settings.eps.value, clusters, aggregated, names);
    }
    GroupsGiveView(raw, dims, settings, byCount, i, aggregated, clusters);
    if rows == [] && |dims| > 0 && (TruthyReal(settings.eps) || !TruthyInt(settings.clusterCount)) {
      if TruthyReal(settings.eps) {
        DensityEmpty(dims, settings.eps.value, clusters, aggregated, names);
      }
      EmptyGroupsThrow(aggregated, dims);
    }
    if rows != [] && (TruthyReal(settings.eps) || !TruthyInt(settings.clusterCount)) {
      if TruthyReal(settings.eps) {
        DensityNonEmpty(rows, dims, aggregated, names);
      }
      ColsAsWrittenAgrees(aggregated, dims);
    }
  }

  /** The density groups of a window give the pairs `DensityView` describes. */
  lemma DensityGivesView(rows: seq<Row>, dims: seq<string>, eps: real, clusters: seq<seq<nat>>,
                         groups: seq<seq<Row>>, names: seq<seq<string>>)
    requires DensityOutcome(rows, dims, eps, clusters, groups, names)
    ensures DensityView(rows, dims, eps, clusters, ColsAccordingToAggregation(groups, dims))
  {
    if rows != [] {
      OwnersOfPartition(groups, dims);
    } else {
      if |dims| > 0 {
        DensityEmpty(dims, eps, clusters, groups, names);
        EmptyGroupsThrow(groups, dims);
      }
    }
  }

  /** With no rows and some dimension, the density path returns at least one
      group, and every group is empty. */
  lemma DensityEmpty(dims: seq<string>, eps: real, clusters: seq<seq<nat>>,
                     groups: seq<seq<Row>>, names: seq<seq<string>>)
    requires DensityOutcome([], dims, eps, clusters, groups, names) && |dims| > 0
    ensures |groups| > 0 && forall g :: 0 <= g < |groups| ==> groups[g] == []
  {
    assert |KeyOrder([])| == 0;
    assert |AllSeries([], dims)| == |dims|;
    PositiveTotalLength(clusters);
  }

  /** The groups of the window before row `i`, as `clusteringData` returns
      them, give the view `ViewFor` describes. */
  lemma GroupsGiveView(raw: seq<Row>, dims: seq<string>, settings: Settings,
                       byCount: (seq<Row>, int) -> seq<seq<Row>>, i: nat, groups: seq<seq<Row>>,
                       clusters: seq<seq<nat>>)
    requires i < |raw|
    requires var rows := ViewWindow(raw, ContextWindow(settings), i);
      && (TruthyReal(settings.eps) ==>
            DensityView(rows, dims, settings.eps.value, clusters, ColsAccordingToAggregation(groups, dims)))
      && (!TruthyReal(settings.eps) && TruthyInt(settings.clusterCount) ==>
            groups == byCount(rows, settings.clusterCount.value))
      && (!TruthyReal(settings.eps) && !TruthyInt(settings.clusterCount) ==> groups == [rows])
    ensures ViewFor(raw, dims, settings, byCount, i,
                    ClusterView(raw[i].timestamp, ColsAccordingToAggregation(groups, dims)), clusters)
  {
  }
}
