/** A data row (`Record<string, number>` with a `timestamp` key) and the
    presentation settings that steer one clustering pass. */
module Records {
  import opened Basics

  /** A cell: a number, or `undefined` once compression blanked it. */
  type Value = Option<real>

  const TimestampKey: string := "timestamp"

  /** One row. `cols` lists the keys other than `timestamp` in the order
      `Object.keys` yields them; `vals` holds their values. */
  datatype Row = Row(timestamp: int, cols: seq<string>, vals: map<string, Value>)

  /** The shape every JavaScript object has: each key once, and the key list
      and the value map agree. */
  ghost predicate WellFormed(r: Row) {
    && Distinct(r.cols)
    && TimestampKey !in r.cols
    && (forall k :: k in r.vals <==> k in r.cols)
  }

  /** `k in row` */
  predicate Has(r: Row, k: string) {
    k in r.vals
  }

  /** `row[k]`: `undefined` for a missing key. */
  function Get(r: Row, k: string): Value {
    if k in r.vals then r.vals[k] else None
  }

  /** `row[k] = v`: an existing key keeps its position, a new key goes last. */
  function Assign(r: Row, k: string, v: Value): (r': Row)
    requires k != TimestampKey
    ensures r'.timestamp == r.timestamp
    ensures Has(r', k) && Get(r', k) == v
    ensures forall k' :: k' != k ==> Has(r', k') == Has(r, k') && Get(r', k') == Get(r, k')
    ensures WellFormed(r) ==> WellFormed(r')
    ensures WellFormed(r) && Has(r, k) ==> r'.cols == r.cols
    ensures WellFormed(r) && !Has(r, k) ==> r'.cols == r.cols + [k]
  {
    Row(r.timestamp, if k in r.vals then r.cols else r.cols + [k], r.vals[k := v])
  }

  /** A fresh row `{ timestamp: t }` followed by `row[names[i]] = values[i]`
      for every i in order. */
  function BuildRow(t: int, names: seq<string>, values: seq<Value>): (r: Row)
    requires |names| == |values|
    requires TimestampKey !in names
    requires Distinct(names)
    ensures WellFormed(r)
    ensures r.timestamp == t
    ensures r.cols == names
    ensures forall i :: 0 <= i < |names| ==> Get(r, names[i]) == values[i]
  {
    if names == [] then Row(t, [], map[])
    else
      var n := |names| - 1;
      var p := BuildRow(t, names[..n], values[..n]);
      BuildRowStep(p, names, values);
      Assign(p, names[n], values[n])
  }

  lemma BuildRowStep(p: Row, names: seq<string>, values: seq<Value>)
    requires |names| == |values| && names != []
    requires TimestampKey !in names
    requires Distinct(names)
    requires WellFormed(p)
    requires p.cols == names[..|names| - 1]
    requires forall i :: 0 <= i < |names| - 1 ==> Get(p, names[i]) == values[i]
    ensures var r := Assign(p, names[|names| - 1], values[|names| - 1]);
      && WellFormed(r)
      && r.cols == names
      && forall i :: 0 <= i < |names| ==> Get(r, names[i]) == values[i]
  {
    var n := |names| - 1;
    assert !Has(p, names[n]);
    assert p.cols + [names[n]] == names;
    forall i | 0 <= i < |names|
      ensures Get(Assign(p, names[n], values[n]), names[i]) == values[i]
    {
      if i < n {
        assert names[i] != names[n];
      }
    }
  }

  /** `{ ...row }` followed by `copy[d] = undefined` for every `d` in `dims`. */
  function Blank(r: Row, dims: seq<string>): (r': Row)
    requires TimestampKey !in dims
    ensures r'.timestamp == r.timestamp
    ensures forall k :: k in dims ==> Has(r', k) && Get(r', k) == None
    ensures forall k :: k !in dims ==> Has(r', k) == Has(r, k) && Get(r', k) == Get(r, k)
    ensures WellFormed(r) ==> WellFormed(r')
    ensures WellFormed(r) && (forall k :: k in dims ==> Has(r, k)) ==> r'.cols == r.cols
  {
    if dims == [] then r
    else
      var n := |dims| - 1;
      assert forall k :: k in dims <==> k in dims[..n] || k == dims[n];
      Assign(Blank(r, dims[..n]), dims[n], None)
  }

  /** `columns.filter((c) => c in r)`: the listed columns that `r` has, in
      the order of `columns`. */
  function Present(r: Row, columns: seq<string>): seq<string> {
    if columns == [] then []
    else
      var n := |columns| - 1;
      Present(r, columns[..n]) + (if Has(r, columns[n]) then [columns[n]] else [])
  }

  /** When the row has every listed column, all of them are present. */
  lemma {:induction false} PresentAll(r: Row, columns: seq<string>)
    requires forall k :: k in columns ==> Has(r, k)
    ensures Present(r, columns) == columns
  {
    if columns != [] {
      var n := |columns| - 1;
      assert forall k :: k in columns[..n] ==> k in columns;
      PresentAll(r, columns[..n]);
      assert columns[..n] + [columns[n]] == columns;
    }
  }

  /** The row restricted to the listed columns that it has, in the order of
      `columns`, with the timestamp kept and values copied. */
  function Project(r: Row, columns: seq<string>): (p: Row)
    requires TimestampKey !in columns
    requires Distinct(columns)
    ensures WellFormed(p)
    ensures p.timestamp == r.timestamp
    ensures p.cols == Present(r, columns)
    ensures forall k :: Has(p, k) <==> k in columns && Has(r, k)
    ensures forall k :: Has(p, k) ==> Get(p, k) == Get(r, k)
  {
    if columns == [] then Row(r.timestamp, [], map[])
    else
      var n := |columns| - 1;
      var q := Project(r, columns[..n]);
      assert forall k :: k in columns <==> k in columns[..n] || k == columns[n];
      if Has(r, columns[n]) then Assign(q, columns[n], Get(r, columns[n])) else q
  }

  /** The keys of a group's first row, or none for an empty group
      (`Object.keys(group[0] || {})` without `timestamp`). */
  function FirstRowColumns(group: seq<Row>): seq<string> {
    if group == [] then [] else group[0].cols
  }

  function Timestamps(rows: seq<Row>): (ts: seq<int>)
    ensures |ts| == |rows|
    ensures forall k :: 0 <= k < |rows| ==> ts[k] == rows[k].timestamp
  {
    seq(|rows|, k requires 0 <= k < |rows| => rows[k].timestamp)
  }

  /** Groups of rows that share their length and the timestamp at every index:
      what every strategy produces and what compression relies on. */
  predicate Aligned(groups: seq<seq<Row>>) {
    && (forall g :: 0 <= g < |groups| ==> |groups[g]| == |groups[0]|)
    && (forall g, k :: 0 <= g < |groups| && 0 <= k < |groups[g]| ==>
          groups[g][k].timestamp == groups[0][k].timestamp)
  }

  /** The buffer the producers maintain: typed `Record<string, number>` rows
      (every value a number) that all carry the same keys. */
  ghost predicate Uniform(rows: seq<Row>) {
    forall i :: 0 <= i < |rows| ==>
      && WellFormed(rows[i])
      && (forall k :: Has(rows[i], k) ==> Get(rows[i], k).Some?)
      && (forall k :: Has(rows[i], k) <==> Has(rows[0], k))
  }

  datatype BoringMode = Off | Standard

  /** The settings fields the clustering pipeline reads. Absent optional
      fields are `None`; JavaScript truthiness is `Truthy…` below. */
  datatype Settings = Settings(
    eps: Option<real>,
    clusterCount: Option<int>,
    dataTicks: Option<int>,
    meanRange: Option<real>,
    tickRange: Option<int>,
    ignoreBoringDataMode: BoringMode)

  /** `!!x` for a numeric field that may be absent (NaN is not modelled). */
  predicate TruthyReal(x: Option<real>) {
    x.Some? && x.value != 0.0
  }

  predicate TruthyInt(x: Option<int>) {
    x.Some? && x.value != 0
  }
}
