/** `aggregatorB` (src/lib/clusteringB.ts): the window of the buffer is
    grouped by one of three strategies, boring stretches common to all groups
    are compressed, and the dimension-to-group table and the y-axis domain
    are derived. */
module Aggregator {
  import opened Basics
  import opened Records
  import opened WindowSelection
  import opened CountClustering
  import opened ClusteringData
  import opened CommonElements
  import opened Compression

  // ---------------------------------------------------------------------
  // Which group holds a dimension
  // ---------------------------------------------------------------------

  /** `aggregated.findIndex((entries) => Object.keys(entries[0] || {}).includes(d))`
      from group `from` on: the first group whose first row has column `d`,
      or -1. */
  function OwnerFrom(groups: seq<seq<Row>>, d: string, from: nat): (r: int)
    requires from <= |groups|
    decreases |groups| - from
    ensures r == -1 || from <= r < |groups|
    ensures r >= 0 ==> d in FirstRowColumns(groups[r])
    ensures r >= 0 ==> forall g :: from <= g < r ==> d !in FirstRowColumns(groups[g])
    ensures r == -1 <==> forall g :: from <= g < |groups| ==> d !in FirstRowColumns(groups[g])
  {
    if from == |groups| then -1
    else if d in FirstRowColumns(groups[from]) then from
    else OwnerFrom(groups, d, from + 1)
  }

  /** The index of the first group whose first row has column `d`, or -1;
      an empty group has no columns. */
  function ColumnOwner(groups: seq<seq<Row>>, d: string): (r: int)
    ensures r == -1 || 0 <= r < |groups|
    ensures r >= 0 ==> d in FirstRowColumns(groups[r])
    ensures r >= 0 ==> forall g :: 0 <= g < r ==> d !in FirstRowColumns(groups[g])
    ensures r == -1 <==> forall g :: 0 <= g < |groups| ==> d !in FirstRowColumns(groups[g])
  {
    OwnerFrom(groups, d, 0)
  }

  /** `colsAccordingToAggregation`: one `[dimension, group]` pair per
      dimension, in `dims` order. */
  function ColsAccordingToAggregation(groups: seq<seq<Row>>, dims: seq<string>): (r: seq<(string, int)>)
    ensures |r| == |dims|
    ensures forall i :: 0 <= i < |dims| ==> r[i].0 == dims[i] && r[i].1 == ColumnOwner(groups, dims[i])
  {
    seq(|dims|, i requires 0 <= i < |dims| => (dims[i], ColumnOwner(groups, dims[i])))
  }

  /** When the first rows' columns split the dimensions, every dimension has
      an owner, and that owner is the only group whose first row has it. */
  lemma OwnersOfPartition(groups: seq<seq<Row>>, dims: seq<string>)
    requires Partition(FirstRows(groups), dims)
    ensures forall i :: 0 <= i < |dims| ==>
      var g := ColsAccordingToAggregation(groups, dims)[i].1;
      && 0 <= g < |groups| && dims[i] in FirstRowColumns(groups[g])
      && forall h :: 0 <= h < |groups| && dims[i] in FirstRowColumns(groups[h]) ==> h == g
  {
    var parts := FirstRows(groups);
    forall i | 0 <= i < |dims|
      ensures ColumnOwner(groups, dims[i]) >= 0
    {
      assert dims[i] in dims;
      assert InSomePart(parts, dims[i]);
      var g :| 0 <= g < |parts| && dims[i] in parts[g];
      assert dims[i] in FirstRowColumns(groups[g]);
    }
    forall i, h | 0 <= i < |dims| && 0 <= h < |groups| && dims[i] in FirstRowColumns(groups[h])
      ensures h == ColumnOwner(groups, dims[i])
    {
      var g := ColumnOwner(groups, dims[i]);
      assert dims[i] in parts[g] && dims[i] in parts[h];
    }
  }

  /** The same search as the source writes it, `Object.keys(entries[0])`
      without a fallback: reading the keys of the missing first row of an
      empty group throws. */
  function OwnerFromAsWritten(groups: seq<seq<Row>>, d: string, from: nat): (r: Outcome<int>)
    requires from <= |groups|
    decreases |groups| - from
    ensures r.Ok? ==> r.value == OwnerFrom(groups, d, from)
    ensures r.TypeError? ==> exists g :: from <= g < |groups| && groups[g] == []
  {
    if from == |groups| then Ok(-1)
    else if groups[from] == [] then TypeError
    else if d in groups[from][0].cols then Ok(from)
    else
      OwnerFromAsWritten(groups, d, from + 1)
  }

  /** The search as written throws iff it meets an empty group before any
      group that holds `d`, and otherwise agrees with the corrected one. */
  lemma {:induction false} OwnerFromAsWrittenThrows(groups: seq<seq<Row>>, d: string, from: nat)
    requires from <= |groups|
    decreases |groups| - from
    ensures var r := OwnerFromAsWritten(groups, d, from);
      && (r.TypeError? <==>
            exists g :: from <= g < |groups| && groups[g] == [] && forall h :: from <= h < g ==> d !in FirstRowColumns(groups[h]))
      && (r.Ok? ==> r.value == OwnerFrom(groups, d, from))
  {
    if from < |groups| && groups[from] != [] && d !in groups[from][0].cols {
      OwnerFromAsWrittenThrows(groups, d, from + 1);
      assert d !in FirstRowColumns(groups[from]);
      if OwnerFromAsWritten(groups, d, from).TypeError? {
        var g :| from + 1 <= g < |groups| && groups[g] == [] && forall h :: from + 1 <= h < g ==> d !in FirstRowColumns(groups[h]);
        assert forall h :: from <= h < g ==> d !in FirstRowColumns(groups[h]);
      }
    } else if from < |groups| && groups[from] != [] {
      assert d in FirstRowColumns(groups[from]);
    }
  }

  /** Without empty groups the search as written agrees with the corrected
      one. */
  lemma OwnerFromAsWrittenAgrees(groups: seq<seq<Row>>, d: string)
    requires forall g :: 0 <= g < |groups| ==> groups[g] != []
    ensures OwnerFromAsWritten(groups, d, 0) == Ok(ColumnOwner(groups, d))
  {
    OwnerFromAsWrittenThrows(groups, d, 0);
  }

  /** `colsAccordingToAggregation` as written: it throws as soon as one
      dimension's search meets an empty group. */
  function ColsAsWritten(groups: seq<seq<Row>>, dims: seq<string>): (r: Outcome<seq<(string, int)>>)
    ensures r.Ok? ==> r.value == ColsAccordingToAggregation(groups, dims)
  {
    if dims == [] then Ok([])
    else
      var n := |dims| - 1;
      ColsSnoc(groups, dims);
      match (ColsAsWritten(groups, dims[..n]), OwnerFromAsWritten(groups, dims[n], 0))
      case (Ok(ps), Ok(g)) => Ok(ps + [(dims[n], g)])
      case _ => TypeError
  }

  /** The source's expression throws iff the search for some dimension meets
      an empty group. */
  lemma {:induction false} ColsAsWrittenThrows(groups: seq<seq<Row>>, dims: seq<string>)
    ensures ColsAsWritten(groups, dims).TypeError? <==>
      exists i :: 0 <= i < |dims| && OwnerFromAsWritten(groups, dims[i], 0).TypeError?
  {
    if dims != [] {
      var n := |dims| - 1;
      var p, last := ColsAsWritten(groups, dims[..n]), OwnerFromAsWritten(groups, dims[n], 0);
      ColsAsWrittenThrows(groups, dims[..n]);
      if p.TypeError? {
        var i :| 0 <= i < n && OwnerFromAsWritten(groups, dims[..n][i], 0).TypeError?;
        assert dims[..n][i] == dims[i];
      } else if last.TypeError? {
      } else {
        forall i | 0 <= i < |dims| ensures OwnerFromAsWritten(groups, dims[i], 0).Ok? {
          if i < n {
            assert dims[..n][i] == dims[i];
          }
        }
      }
    }
  }

  /** Without empty groups the source's expression and the corrected one
      agree. */
  lemma {:induction false} ColsAsWrittenAgrees(groups: seq<seq<Row>>, dims: seq<string>)
    requires forall g :: 0 <= g < |groups| ==> groups[g] != []
    ensures ColsAsWritten(groups, dims) == Ok(ColsAccordingToAggregation(groups, dims))
  {
    if dims != [] {
      var n := |dims| - 1;
      ColsAsWrittenAgrees(groups, dims[..n]);
      ColsSnoc(groups, dims);
      OwnerFromAsWrittenAgrees(groups, dims[n]);
    }
  }

  /** The table for one more dimension. */
  lemma ColsSnoc(groups: seq<seq<Row>>, dims: seq<string>)
    requires dims != []
    ensures var n := |dims| - 1;
      ColsAccordingToAggregation(groups, dims)
        == ColsAccordingToAggregation(groups, dims[..n]) + [(dims[n], ColumnOwner(groups, dims[n]))]
  {
    var n := |dims| - 1;
    var a := ColsAccordingToAggregation(groups, dims);
    var b := ColsAccordingToAggregation(groups, dims[..n]) + [(dims[n], ColumnOwner(groups, dims[n]))];
    assert |a| == |b|;
    forall i | 0 <= i < |a| ensures a[i] == b[i] {
      if i < n {
        assert dims[..n][i] == dims[i];
      }
    }
  }

  /** An empty window in front of any strategy leaves only empty groups, and
      then the source throws for the first dimension while the corrected
      table maps every dimension to -1. */
  lemma EmptyGroupsThrow(groups: seq<seq<Row>>, dims: seq<string>)
    requires |groups| > 0 && forall g :: 0 <= g < |groups| ==> groups[g] == []
    requires |dims| > 0
    ensures ColsAsWritten(groups, dims).TypeError?
    ensures forall i :: 0 <= i < |dims| ==> ColsAccordingToAggregation(groups, dims)[i].1 == -1
  {
    ColsAsWrittenThrows(groups, dims);
    OwnerFromAsWrittenThrows(groups, dims[0], 0);
    assert OwnerFromAsWritten(groups, dims[0], 0).TypeError?;
  }

  /** The smallest such input: no grouping strategy and an empty window give
      the single group `[[]]`. */
  lemma SingleEmptyGroupThrows()
    ensures ColsAsWritten([[]], ["a"]) == TypeError
    ensures ColsAccordingToAggregation([[]], ["a"]) == [("a", -1)]
  {
    EmptyGroupsThrow([[]], ["a"]);
  }

  // ---------------------------------------------------------------------
  // The y-axis domain
  // ---------------------------------------------------------------------

  /** `[Math.min(...values), Math.max(...values)]`: `EmptyDomain` is
      `[Infinity, -Infinity]` for no values, `NaNDomain` is `[NaN, NaN]`
      once some value is `undefined`. */
  datatype Domain = Span(lo: real, hi: real) | EmptyDomain | NaNDomain

  function DomainOf(values: seq<Value>): (d: Domain)
    ensures d == EmptyDomain <==> values == []
  {
    if values == [] then EmptyDomain
    else
      var n := |values| - 1;
      match values[n]
      case None => NaNDomain
      case Some(x) =>
        match DomainOf(values[..n])
        case EmptyDomain => Span(x, x)
        case NaNDomain => NaNDomain
        case Span(lo, hi) => Span(if x < lo then x else lo, if x > hi then x else hi)
  }

  /** The domain is NaN iff some value is undefined; otherwise both bounds
      are values and bound every value. */
  lemma DomainOfBounds(values: seq<Value>)
    ensures var d := DomainOf(values);
      && (d == NaNDomain <==> exists i :: 0 <= i < |values| && values[i].None?)
      && (d.Span? ==> Some(d.lo) in values && Some(d.hi) in values)
      && (d.Span? ==> forall i :: 0 <= i < |values| ==> d.lo <= values[i].value <= d.hi)
  {
    DomainOfNaN(values);
    DomainOfSpan(values);
  }

  lemma {:induction false} DomainOfNaN(values: seq<Value>)
    ensures DomainOf(values) == NaNDomain <==> exists i :: 0 <= i < |values| && values[i].None?
  {
    if values != [] {
      var n := |values| - 1;
      DomainOfNaN(values[..n]);
      if values[n].Some? {
        if DomainOf(values) == NaNDomain {
          var i :| 0 <= i < n && values[..n][i].None?;
          assert values[i].None?;
        } else {
          forall i | 0 <= i < |values| ensures values[i].Some? {
            if i < n {
              assert values[..n][i] == values[i];
            }
          }
        }
      }
    }
  }

  lemma {:induction false} DomainOfSpan(values: seq<Value>)
    ensures var d := DomainOf(values);
      && (d.Span? ==> Some(d.lo) in values && Some(d.hi) in values)
      && (d.Span? ==> forall i :: 0 <= i < |values| ==> values[i].Some? && d.lo <= values[i].value <= d.hi)
  {
    if values != [] && values[|values| - 1].Some? {
      var n := |values| - 1;
      var p := DomainOf(values[..n]);
      DomainOfSpan(values[..n]);
      assert values == values[..n] + [values[n]];
      if p.Span? {
        assert Some(p.lo) in values && Some(p.hi) in values;
        forall i | 0 <= i < n ensures values[i].Some? && p.lo <= values[i].value <= p.hi {
          assert values[..n][i] == values[i];
        }
      }
    }
  }

  /** `Object.entries(row)` without `timestamp`: the row's values in key
      order. */
  function RowValues(r: Row): (vs: seq<Value>)
    ensures |vs| == |r.cols|
    ensures forall i :: 0 <= i < |r.cols| ==> vs[i] == Get(r, r.cols[i])
  {
    seq(|r.cols|, i requires 0 <= i < |r.cols| => Get(r, r.cols[i]))
  }

  /** `allValues`: every non-timestamp value of every row. */
  function AllValues(rows: seq<Row>): seq<Value> {
    Flatten(seq(|rows|, k requires 0 <= k < |rows| => RowValues(rows[k])))
  }

  /** A value is in `AllValues` iff some row has it under some column. */
  lemma AllValuesMember(rows: seq<Row>, v: Value)
    ensures v in AllValues(rows) <==>
      exists k, c :: 0 <= k < |rows| && c in rows[k].cols && v == Get(rows[k], c)
  {
    var parts := seq(|rows|, k requires 0 <= k < |rows| => RowValues(rows[k]));
    FlattenMember(parts, v);
    if v in AllValues(rows) {
      var k :| 0 <= k < |parts| && v in parts[k];
      var i :| 0 <= i < |parts[k]| && parts[k][i] == v;
      assert rows[k].cols[i] in rows[k].cols;
    }
    if exists k, c :: 0 <= k < |rows| && c in rows[k].cols && v == Get(rows[k], c) {
      var k, c :| 0 <= k < |rows| && c in rows[k].cols && v == Get(rows[k], c);
      var i :| 0 <= i < |rows[k].cols| && rows[k].cols[i] == c;
      assert parts[k][i] == v;
    }
  }

  /** For the buffer the producers keep (numbers only), the y-domain of a
      window with at least one column is a real interval that bounds every
      cell and is attained. */
  lemma UniformDomain(rows: seq<Row>)
    requires Uniform(rows) && |rows| > 0 && |rows[0].cols| > 0
    ensures DomainOf(AllValues(rows)).Span?
    ensures var d := DomainOf(AllValues(rows));
      && d.lo <= d.hi
      && forall k, c :: 0 <= k < |rows| && c in rows[k].cols ==> d.lo <= Get(rows[k], c).value <= d.hi
  {
    var vs := AllValues(rows);
    DomainOfBounds(vs);
    AllValuesMember(rows, Get(rows[0], rows[0].cols[0]));
    forall i | 0 <= i < |vs| ensures vs[i].Some? {
      AllValuesMember(rows, vs[i]);
    }
    forall k, c | 0 <= k < |rows| && c in rows[k].cols
      ensures Get(rows[k], c) in vs
    {
      AllValuesMember(rows, Get(rows[k], c));
    }
  }

  // ---------------------------------------------------------------------
  // The pipeline
  // ---------------------------------------------------------------------

  /** Every row of the buffer is a well-formed object, and the count
      comparator only meets numbers. */
  lemma UniformRows(rows: seq<Row>)
    requires Uniform(rows)
    ensures forall k :: 0 <= k < |rows| ==> WellFormed(rows[k])
    ensures Rankable(rows)
  {
    if |rows| > 0 {
      forall col | col in rows[0].cols ensures Get(rows[|rows| - 1], col).Some? {
        assert Has(rows[0], col);
      }
    }
  }

  /** The strategy dispatch of src/lib/clusteringB.ts:71-124: density
      clustering when `eps` is truthy, the ranked count split when
      `clusterCount` is, the whole window as one group otherwise. */
  method GroupWindow(window: seq<Row>, dims: seq<string>, settings: Settings)
    returns (groups: seq<seq<Row>>, ghost clusters: seq<seq<nat>>, ghost names: seq<seq<string>>)
    requires Uniform(window) && Distinct(dims) && TimestampKey !in dims
    ensures Aligned(groups)
    ensures forall g, k :: 0 <= g < |groups| && 0 <= k < |groups[g]| ==> WellFormed(groups[g][k])
    ensures window == [] ==> forall g :: 0 <= g < |groups| ==> groups[g] == []
    ensures GroupedBy(window, dims, settings, groups, clusters, names)
    ensures TruthyReal(settings.eps) ==> DensityShaped(window, dims, groups)
  {
    UniformRows(window);
    groups, clusters, names := [window], [], [];
    if TruthyReal(settings.eps) {
      var found, alert;
      groups, found, alert, clusters := DensityGroups(window, dims, settings.eps.value);
      names := found;
      DensityWindow(window, dims, groups, names);
    } else if TruthyInt(settings.clusterCount) {
      groups := RankedClustering(window, settings.clusterCount.value);
    }
  }

  /** `groups` is the grouping the strategy dispatch picks for `window`:
      the density groups of the DBSCAN `clusters` (named by `names`) when
      `eps` is truthy, else the ranked count split when `clusterCount` is,
      else the window as its only group. */
  ghost predicate GroupedBy(window: seq<Row>, dims: seq<string>, settings: Settings, groups: seq<seq<Row>>,
                            clusters: seq<seq<nat>>, names: seq<seq<string>>)
    requires Uniform(window)
  {
    UniformRows(window);
    && (TruthyReal(settings.eps) ==> DensityOutcome(window, dims, settings.eps.value, clusters, groups, names))
    && (!TruthyReal(settings.eps) && TruthyInt(settings.clusterCount) ==>
          groups == RankedClustering(window, settings.clusterCount.value))
    && (!TruthyReal(settings.eps) && !TruthyInt(settings.clusterCount) ==> groups == [window])
  }

  /** The density groups of a window have well-formed, aligned rows, and
      none for an empty window. */
  lemma DensityWindow(window: seq<Row>, dims: seq<string>, groups: seq<seq<Row>>, names: seq<seq<string>>)
    requires DensityResult(window, dims, groups, names)
    ensures Aligned(groups) && DensityShaped(window, dims, groups)
    ensures forall g, k :: 0 <= g < |groups| && 0 <= k < |groups[g]| ==> WellFormed(groups[g][k])
    ensures window == [] ==> forall g :: 0 <= g < |groups| ==> groups[g] == []
  {
    if window == [] {
      assert |KeyOrder(window)| == 0;
    }
  }

  /** Boring-data compression applies when the mode is `standard` and both
      `meanRange` and `tickRange` are truthy. */
  predicate CompressionEnabled(settings: Settings) {
    settings.ignoreBoringDataMode == Standard && TruthyReal(settings.meanRange) && TruthyInt(settings.tickRange)
  }

  /** The boring timestamps of every group, as `findBoringTimestamps` (not
      part of this model, passed in as `boring`) reports them for the group
      and its first-row columns. */
  function BoringLists(groups: seq<seq<Row>>, boring: (seq<Row>, seq<string>) -> seq<int>): (r: seq<seq<int>>)
    ensures |r| == |groups|
    ensures forall c :: 0 <= c < |groups| ==> r[c] == boring(groups[c], FirstRowColumns(groups[c]))
  {
    seq(|groups|, c requires 0 <= c < |groups| => boring(groups[c], FirstRowColumns(groups[c])))
  }

  /** `out` is what boring-data compression makes of `groups`, with
      `common` the timestamps every group finds boring: nothing changes
      unless compression is enabled and `common` is non-empty, and then
      every group keeps the rows of the emitted indices of group 0's
      timestamps, with boring ones blanked in the group's dimensions. */
  ghost predicate CompressedFrom(groups: seq<seq<Row>>, settings: Settings, boring: (seq<Row>, seq<string>) -> seq<int>,
                                 out: seq<seq<Row>>, common: seq<int>) {
    && (!CompressionEnabled(settings) ==> out == groups)
    && (CompressionEnabled(settings) ==>
          forall x :: x in common <==> |groups| > 0 && InAll(BoringLists(groups, boring), x))
    && (CompressionEnabled(settings) && common == [] ==> out == groups)
    && (CompressionEnabled(settings) && common != [] ==>
          && Compressible(groups, FirstRows(groups)) && |out| == |groups|
          && forall c :: 0 <= c < |out| ==>
            out[c] == Emit(groups[c], FirstRows(groups)[c], Timestamps(groups[0]), common,
                           Kept(Timestamps(groups[0]), common, |groups[0]|)))
  }

  /** Lines 129-243 of src/lib/clusteringB.ts. `common` is the list of
      timestamps every group finds boring. */
  method BoringCompression(groups: seq<seq<Row>>, settings: Settings, boring: (seq<Row>, seq<string>) -> seq<int>)
    returns (out: seq<seq<Row>>, common: seq<int>)
    requires Aligned(groups)
    requires forall g, k :: 0 <= g < |groups| && 0 <= k < |groups[g]| ==> WellFormed(groups[g][k])
    ensures CompressedFrom(groups, settings, boring, out, common)
    ensures |out| == |groups| && Aligned(out)
    ensures FirstRows(out) == FirstRows(groups)
    ensures (forall g :: 0 <= g < |groups| ==> groups[g] == []) ==> forall g :: 0 <= g < |out| ==> out[g] == []
  {
    out, common := groups, [];
    if CompressionEnabled(settings) {
      var dims := FirstRows(groups);
      common := FindCommonElements(BoringLists(groups, boring));
      if common != [] {
        forall c | 0 <= c < |groups| ensures TimestampKey !in dims[c] {
          if groups[c] != [] {
            assert WellFormed(groups[c][0]);
          }
        }
        out := Compress(groups, dims, common);
        CompressKeepsFirstColumns(groups, dims, common, out);
        CompressAligned(groups, dims, common, out);
      }
    }
  }

  /** Over a non-empty window every group has rows, whichever strategy
      grouped it. */
  lemma GroupedNonEmpty(window: seq<Row>, dims: seq<string>, settings: Settings, groups: seq<seq<Row>>,
                        clusters: seq<seq<nat>>, names: seq<seq<string>>)
    requires Uniform(window) && window != []
    requires GroupedBy(window, dims, settings, groups, clusters, names)
    ensures forall g :: 0 <= g < |groups| ==> |groups[g]| > 0
  {
    if TruthyReal(settings.eps) {
      DensityNonEmpty(window, dims, groups, names);
    }
  }

  /** Compression keeps every group non-empty: each keeps at least the
      rows of index 0, which is never dropped. */
  lemma CompressedNonEmpty(groups: seq<seq<Row>>, settings: Settings, boring: (seq<Row>, seq<string>) -> seq<int>,
                           out: seq<seq<Row>>, common: seq<int>)
    requires CompressedFrom(groups, settings, boring, out, common) && |out| == |groups|
    requires forall g :: 0 <= g < |groups| ==> |groups[g]| > 0
    ensures forall g :: 0 <= g < |out| ==> |out[g]| > 0
  {
    if CompressionEnabled(settings) && common != [] {
      var ts := Timestamps(groups[0]);
      KeptKeepsSignificant(ts, common);
      assert 0 in Kept(ts, common, |groups[0]|);
    }
  }

  /** On a non-empty window no aggregated group is empty, so the owner
      search as written returns the corrected pairs. */
  lemma AggregatedAgrees(window: seq<Row>, dims: seq<string>, settings: Settings,
                         boring: (seq<Row>, seq<string>) -> seq<int>, grouped: seq<seq<Row>>,
                         clusters: seq<seq<nat>>, names: seq<seq<string>>, out: seq<seq<Row>>, common: seq<int>)
    requires Uniform(window) && window != []
    requires GroupedBy(window, dims, settings, grouped, clusters, names)
    requires CompressedFrom(grouped, settings, boring, out, common) && |out| == |grouped|
    ensures ColsAsWritten(out, dims) == Ok(ColsAccordingToAggregation(out, dims))
  {
    GroupedNonEmpty(window, dims, settings, grouped, clusters, names);
    CompressedNonEmpty(grouped, settings, boring, out, common);
    ColsAsWrittenAgrees(out, dims);
  }

  /** `aggregatorB(rawData, dimensions, settings)` with
      `findBoringTimestamps` passed in as `boring`. The ghost results name
      the intermediate steps: `grouped` is the window's grouping before
      compression, `clusters` and `names` the DBSCAN clusters behind it when
      `eps` is truthy, and `common` the timestamps every group finds boring. */
  method AggregatorB(raw: seq<Row>, dims: seq<string>, settings: Settings,
                     boring: (seq<Row>, seq<string>) -> seq<int>)
    returns (aggregated: seq<seq<Row>>, yDomain: Domain, cols: seq<(string, int)>,
             ghost grouped: seq<seq<Row>>, ghost clusters: seq<seq<nat>>, ghost names: seq<seq<string>>,
             ghost common: seq<int>)
    requires Uniform(raw) && Distinct(dims) && TimestampKey !in dims
    ensures GroupedBy(TakeWindow(raw, settings.dataTicks), dims, settings, grouped, clusters, names)
    ensures CompressedFrom(grouped, settings, boring, aggregated, common)
    ensures Aligned(aggregated) && FirstRows(aggregated) == FirstRows(grouped)
    ensures yDomain == DomainOf(AllValues(TakeWindow(raw, settings.dataTicks)))
    ensures cols == ColsAccordingToAggregation(aggregated, dims)
    ensures var window := TakeWindow(raw, settings.dataTicks);
      window == [] ==> forall g :: 0 <= g < |aggregated| ==> aggregated[g] == []
    ensures var window := TakeWindow(raw, settings.dataTicks);
      window == [] && |dims| > 0 && |aggregated| > 0 ==> ColsAsWritten(aggregated, dims).TypeError?
    ensures var window := TakeWindow(raw, settings.dataTicks);
      window != [] ==> ColsAsWritten(aggregated, dims) == Ok(cols)
    ensures var window := TakeWindow(raw, settings.dataTicks);
      TruthyReal(settings.eps) && window != [] ==>
        forall i :: 0 <= i < |dims| ==> 0 <= cols[i].1 < |names| && dims[i] in names[cols[i].1]
  {
    var window := TakeWindow(raw, settings.dataTicks);
    var g;
    g, clusters, names := GroupWindow(window, dims, settings);
    grouped := g;
    var found;
    aggregated, found := BoringCompression(g, settings, boring);
    common := found;
    cols := ColsAccordingToAggregation(aggregated, dims);
    yDomain := DomainOf(AllValues(window));
    if window == [] && |dims| > 0 && |aggregated| > 0 {
      EmptyGroupsThrow(aggregated, dims);
    }
    if window != [] {
      AggregatedAgrees(window, dims, settings, boring, g, clusters, names, aggregated, common);
    }
    if TruthyReal(settings.eps) && window != [] {
      OwnersOfPartition(aggregated, dims);
    }
  }
}
