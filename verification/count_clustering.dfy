/** Grouping the columns by count: `clustering` in src/lib/clustering.ts
    (columns in key order) and `clustering` in src/lib/clusteringB.ts (columns
    ranked by their value in the last row first). */
module CountClustering {
  import opened Basics
  import opened Records

  /** The length of `Array.from({ length: groups })`: negative lengths clamp
      to zero (fractional counts are not modelled). */
  function GroupCount(groups: int): nat {
    if groups > 0 then groups else 0
  }

  /** The first `j` slices `cols.slice(i * c, (i + 1) * c)`. */
  function SlicesOf(cols: seq<string>, c: nat, j: nat): (r: seq<seq<string>>)
    ensures |r| == j
    ensures forall i, x :: 0 <= i < j && x in r[i] ==> x in cols
    ensures Distinct(cols) ==> forall i :: 0 <= i < j ==> Distinct(r[i])
    ensures cols == [] ==> forall i :: 0 <= i < j ==> r[i] == []
  {
    if j == 0 then [] else SlicesOf(cols, c, j - 1) + [Slice(cols, (j - 1) * c, j * c)]
  }

  /** `columnGroups`: `groups` slices of `Math.ceil(n / groups)` columns each,
      the last ones shorter or empty. */
  function ColumnSlices(cols: seq<string>, groups: int): (r: seq<seq<string>>)
    ensures |r| == GroupCount(groups)
    ensures forall i, x :: 0 <= i < |r| && x in r[i] ==> x in cols
    ensures Distinct(cols) ==> forall i :: 0 <= i < |r| ==> Distinct(r[i])
    ensures cols == [] ==> forall i :: 0 <= i < |r| ==> r[i] == []
  {
    if groups <= 0 then [] else SlicesOf(cols, CeilDiv(|cols|, groups), groups)
  }

  lemma {:induction false} SlicesOfConcat(cols: seq<string>, c: nat, j: nat)
    ensures Flatten(SlicesOf(cols, c, j)) == cols[..Min(j * c, |cols|)]
  {
    if j > 0 {
      SlicesOfConcat(cols, c, j - 1);
      SlicesOfStep(cols, c, j, (j - 1) * c, j * c);
    }
  }

  /** One step of `SlicesOfConcat`, with the slice bounds named so that no
      product is in sight. */
  lemma SlicesOfStep(cols: seq<string>, c: nat, j: nat, a: nat, b: nat)
    requires j > 0 && a == (j - 1) * c && b == j * c
    requires Flatten(SlicesOf(cols, c, j - 1)) == cols[..Min(a, |cols|)]
    ensures Flatten(SlicesOf(cols, c, j)) == cols[..Min(b, |cols|)]
  {
    assert SlicesOf(cols, c, j) == SlicesOf(cols, c, j - 1) + [Slice(cols, a, b)];
    FlattenAppend(SlicesOf(cols, c, j - 1), Slice(cols, a, b));
    assert a <= b;
    PrefixThenSlice(cols, a, b);
  }

  /** The columns before `a` followed by the slice from `a` to `b` are the
      columns before `b`. */
  lemma PrefixThenSlice(cols: seq<string>, a: nat, b: nat)
    requires a <= b
    ensures cols[..Min(a, |cols|)] + Slice(cols, a, b) == cols[..Min(b, |cols|)]
  {
    if a < |cols| {
      var e := Min(b, |cols|);
      assert cols[..a] + cols[a..e] == cols[..e];
    }
  }

  /** The slices, read in order, are exactly the columns: every column lands in
      one slice, none is lost and (for distinct columns) none is repeated. */
  lemma ColumnSlicesPartition(cols: seq<string>, groups: int)
    requires groups > 0
    ensures Flatten(ColumnSlices(cols, groups)) == cols
    ensures forall x :: x in cols ==> exists i :: 0 <= i < groups && x in ColumnSlices(cols, groups)[i]
    ensures Distinct(cols) ==> forall i, j, x ::
      0 <= i < groups && 0 <= j < groups && x in ColumnSlices(cols, groups)[i] && x in ColumnSlices(cols, groups)[j] ==> i == j
  {
    var c := CeilDiv(|cols|, groups);
    var s := ColumnSlices(cols, groups);
    SlicesOfConcat(cols, c, groups);
    assert Min(groups * c, |cols|) == |cols|;
    forall x | x in cols
      ensures exists i :: 0 <= i < groups && x in s[i]
    {
      FlattenMember(s, x);
    }
    if Distinct(cols) {
      forall i, j, x | 0 <= i < groups && 0 <= j < groups && x in s[i] && x in s[j]
        ensures i == j
      {
        FlattenDistinctParts(s, i, j, x);
      }
    }
  }

  /** Every record projected onto every slice, timestamp kept. */
  function ProjectGroups(values: seq<Row>, slices: seq<seq<string>>): (r: seq<seq<Row>>)
    requires forall g :: 0 <= g < |slices| ==> Distinct(slices[g]) && TimestampKey !in slices[g]
    ensures |r| == |slices|
    ensures forall g :: 0 <= g < |r| ==> |r[g]| == |values|
    ensures Aligned(r)
    ensures forall g, k :: 0 <= g < |r| && 0 <= k < |values| ==>
      r[g][k].timestamp == values[k].timestamp && WellFormed(r[g][k])
    ensures forall g, k :: 0 <= g < |r| && 0 <= k < |values| ==> r[g][k].cols == Present(values[k], slices[g])
    ensures forall g, k, col :: 0 <= g < |r| && 0 <= k < |values| ==>
      (Has(r[g][k], col) <==> col in slices[g] && Has(values[k], col))
    ensures forall g, k, col :: 0 <= g < |r| && 0 <= k < |values| && Has(r[g][k], col) ==>
      Get(r[g][k], col) == Get(values[k], col)
  {
    var r := seq(|slices|, g requires 0 <= g < |slices| =>
      seq(|values|, k requires 0 <= k < |values| => Project(values[k], slices[g])));
    ProjectGroupsFacts(values, slices, r);
    r
  }

  lemma ProjectGroupsFacts(values: seq<Row>, slices: seq<seq<string>>, r: seq<seq<Row>>)
    requires forall g :: 0 <= g < |slices| ==> Distinct(slices[g]) && TimestampKey !in slices[g]
    requires |r| == |slices|
    requires forall g :: 0 <= g < |r| ==> |r[g]| == |values|
    requires forall g, k :: 0 <= g < |r| && 0 <= k < |values| ==> r[g][k] == Project(values[k], slices[g])
    ensures Aligned(r)
    ensures forall g, k :: 0 <= g < |r| && 0 <= k < |values| ==>
      r[g][k].timestamp == values[k].timestamp && WellFormed(r[g][k])
    ensures forall g, k :: 0 <= g < |r| && 0 <= k < |values| ==> r[g][k].cols == Present(values[k], slices[g])
    ensures forall g, k, col :: 0 <= g < |r| && 0 <= k < |values| ==>
      (Has(r[g][k], col) <==> col in slices[g] && Has(values[k], col))
    ensures forall g, k, col :: 0 <= g < |r| && 0 <= k < |values| && Has(r[g][k], col) ==>
      Get(r[g][k], col) == Get(values[k], col)
  {
    forall g, k | 0 <= g < |r| && 0 <= k < |values|
      ensures r[g][k].timestamp == values[k].timestamp && WellFormed(r[g][k])
      ensures r[g][k].cols == Present(values[k], slices[g])
      ensures forall col :: Has(r[g][k], col) <==> col in slices[g] && Has(values[k], col)
      ensures forall col :: Has(r[g][k], col) ==> Get(r[g][k], col) == Get(values[k], col)
    {
      var p := Project(values[k], slices[g]);
      assert r[g][k] == p;
    }
    forall g, k | 0 <= g < |r| && 0 <= k < |r[g]|
      ensures |r[g]| == |r[0]| && r[g][k].timestamp == r[0][k].timestamp
    {
      assert r[g][k].timestamp == values[k].timestamp;
      assert r[0][k].timestamp == values[k].timestamp;
    }
  }

  /** `Object.keys(values[0] || {})` without `timestamp`. */
  function FirstColumns(values: seq<Row>): seq<string> {
    if values == [] then [] else values[0].cols
  }

  /** `clustering` of src/lib/clustering.ts. */
  function Clustering(values: seq<Row>, groups: int): (r: seq<seq<Row>>)
    requires forall k :: 0 <= k < |values| ==> WellFormed(values[k])
    ensures |r| == GroupCount(groups)
    ensures Aligned(r)
    ensures forall g :: 0 <= g < |r| ==> |r[g]| == |values|
    ensures forall g, k :: 0 <= g < |r| && 0 <= k < |values| ==>
      r[g][k].timestamp == values[k].timestamp && WellFormed(r[g][k])
    ensures forall g, k :: 0 <= g < |r| && 0 <= k < |values| ==>
      r[g][k].cols == Present(values[k], ColumnSlices(FirstColumns(values), groups)[g])
    ensures forall g, k, col :: 0 <= g < |r| && 0 <= k < |values| ==>
      (Has(r[g][k], col) <==> col in ColumnSlices(FirstColumns(values), groups)[g] && Has(values[k], col))
    ensures forall g, k, col :: 0 <= g < |r| && 0 <= k < |values| && Has(r[g][k], col) ==>
      Get(r[g][k], col) == Get(values[k], col)
  {
    if values != [] then
      assert WellFormed(values[0]);
      ProjectGroups(values, ColumnSlices(values[0].cols, groups))
    else
      ProjectGroups(values, ColumnSlices([], groups))
  }

  /** Order of the sort: by the value of each column in the last record,
      largest first (`(a, b) => lastRecord[b] - lastRecord[a]`). */
  predicate Descending(s: seq<string>, key: string -> real) {
    forall i, j :: 0 <= i < j < |s| ==> key(s[i]) >= key(s[j])
  }

  /** The elements whose key is `v`, in order. */
  function WithKey(s: seq<string>, key: string -> real, v: real): seq<string> {
    if s == [] then []
    else (if key(s[0]) == v then [s[0]] else []) + WithKey(s[1..], key, v)
  }

  /** Places `x` before the first element whose key is not larger. */
  function Insert(x: string, t: seq<string>, key: string -> real): seq<string> {
    if t == [] then [x]
    else if key(t[0]) <= key(x) then [x] + t
    else [t[0]] + Insert(x, t[1..], key)
  }

  /** Inserting adds `x` and loses nothing. */
  lemma {:induction false} InsertPermutes(x: string, t: seq<string>, key: string -> real)
    ensures multiset(Insert(x, t, key)) == multiset(t) + multiset{x}
    ensures forall y :: y in Insert(x, t, key) <==> y == x || y in t
  {
    if t != [] {
      assert t == [t[0]] + t[1..];
      if key(t[0]) > key(x) {
        InsertPermutes(x, t[1..], key);
      }
    }
  }

  lemma {:induction false} InsertDescending(x: string, t: seq<string>, key: string -> real)
    requires Descending(t, key)
    ensures Descending(Insert(x, t, key), key)
  {
    if t != [] && key(t[0]) > key(x) {
      var rest := Insert(x, t[1..], key);
      DescendingTail(t, key);
      InsertDescending(x, t[1..], key);
      InsertPermutes(x, t[1..], key);
      forall y | y in rest ensures key(t[0]) >= key(y) {
        if y != x {
          var j :| 0 <= j < |t[1..]| && t[1..][j] == y;
          assert t[j + 1] == y;
        }
      }
      DescendingCons(t[0], rest, key);
    } else if t != [] {
      forall y | y in t ensures key(x) >= key(y) {
        var j :| 0 <= j < |t| && t[j] == y;
        assert key(t[0]) >= key(t[j]);
      }
      DescendingCons(x, t, key);
    }
  }

  lemma DescendingTail(t: seq<string>, key: string -> real)
    requires t != [] && Descending(t, key)
    ensures Descending(t[1..], key)
  {
    forall i, j | 0 <= i < j < |t[1..]| ensures key(t[1..][i]) >= key(t[1..][j]) {
      assert t[1..][i] == t[i + 1] && t[1..][j] == t[j + 1];
    }
  }

  /** A head at least as large as every element keeps the order. */
  lemma DescendingCons(h: string, t: seq<string>, key: string -> real)
    requires Descending(t, key)
    requires forall y :: y in t ==> key(h) >= key(y)
    ensures Descending([h] + t, key)
  {
    var r := [h] + t;
    forall i, j | 0 <= i < j < |r| ensures key(r[i]) >= key(r[j]) {
      assert r[j] == t[j - 1];
      if i > 0 {
        assert r[i] == t[i - 1];
      } else {
        assert t[j - 1] in t;
      }
    }
  }

  lemma {:induction false} WithKeyInsert(x: string, t: seq<string>, key: string -> real, v: real)
    ensures WithKey(Insert(x, t, key), key, v) == (if key(x) == v then [x] else []) + WithKey(t, key, v)
  {
    if t == [] {
      WithKeyCons(x, [], key, v);
    } else if key(t[0]) > key(x) {
      var rest := Insert(x, t[1..], key);
      WithKeyInsert(x, t[1..], key, v);
      WithKeyCons(t[0], rest, key, v);
      WithKeyCons(t[0], t[1..], key, v);
      assert [t[0]] + t[1..] == t;
      SwapAroundEmpty(if key(t[0]) == v then [t[0]] else [], if key(x) == v then [x] else [],
        WithKey(t[1..], key, v));
    } else {
      WithKeyCons(x, t, key, v);
    }
  }

  lemma WithKeyCons(h: string, t: seq<string>, key: string -> real, v: real)
    ensures WithKey([h] + t, key, v) == (if key(h) == v then [h] else []) + WithKey(t, key, v)
  {
    assert ([h] + t)[1..] == t;
  }

  /** Two parts of which one is empty can be swapped. */
  lemma SwapAroundEmpty(a: seq<string>, b: seq<string>, w: seq<string>)
    requires a == [] || b == []
    ensures a + (b + w) == b + (a + w)
  {
    if a == [] {
      assert a + (b + w) == b + w == b + (a + w);
    } else {
      assert a + (b + w) == a + w == b + (a + w);
    }
  }

  /** A stable descending sort (insertion sort; ECMAScript's sort is stable). */
  function SortDesc(s: seq<string>, key: string -> real): (r: seq<string>)
    ensures multiset(r) == multiset(s)
    ensures Descending(r, key)
    ensures forall v :: WithKey(r, key, v) == WithKey(s, key, v)
  {
    if s == [] then []
    else
      var rest := SortDesc(s[1..], key);
      assert s == [s[0]] + s[1..];
      InsertDescending(s[0], rest, key);
      InsertPermutes(s[0], rest, key);
      forall v ensures WithKey(Insert(s[0], rest, key), key, v) == WithKey(s, key, v) {
        WithKeyInsert(s[0], rest, key, v);
      }
      Insert(s[0], rest, key)
  }

  /** The value of a column in a row as the comparator sees it. */
  function Rank(last: Row, col: string): real {
    match Get(last, col)
    case Some(v) => v
    case None => 0.0
  }

  /** The comparator only ever meets numbers: every column of the first record
      has a numeric value in the last record. */
  ghost predicate Rankable(values: seq<Row>) {
    |values| > 0 ==>
      forall col :: col in values[0].cols ==> Get(values[|values| - 1], col).Some?
  }

  /** `allColumns.sort((a, b) => lastRecord[b] - lastRecord[a])`; with no
      records there are no columns and the last record is never read. */
  function SortedColumns(values: seq<Row>): (cols: seq<string>)
    requires forall k :: 0 <= k < |values| ==> WellFormed(values[k])
    ensures multiset(cols) == multiset(FirstColumns(values))
    ensures Distinct(cols) && TimestampKey !in cols
  {
    if values == [] then []
    else
      var r := SortDesc(values[0].cols, (c: string) => Rank(values[|values| - 1], c));
      assert forall x :: x in r <==> x in values[0].cols by {
        forall x ensures x in r <==> x in values[0].cols {
          assert x in r <==> x in multiset(r);
        }
      }
      assert WellFormed(values[0]);
      assert TimestampKey !in r;
      PermutationDistinct(values[0].cols, r);
      r
  }

  /** `clustering` of src/lib/clusteringB.ts: like `Clustering`, but the
      slices are cut from the columns ranked by the last record. */
  function RankedClustering(values: seq<Row>, groups: int): (r: seq<seq<Row>>)
    requires forall k :: 0 <= k < |values| ==> WellFormed(values[k])
    requires Rankable(values)
    ensures |r| == GroupCount(groups)
    ensures Aligned(r)
    ensures forall g :: 0 <= g < |r| ==> |r[g]| == |values|
    ensures forall g, k :: 0 <= g < |r| && 0 <= k < |values| ==>
      r[g][k].timestamp == values[k].timestamp && WellFormed(r[g][k])
    ensures forall g, k :: 0 <= g < |r| && 0 <= k < |values| ==>
      r[g][k].cols == Present(values[k], ColumnSlices(SortedColumns(values), groups)[g])
    ensures forall g, k, col :: 0 <= g < |r| && 0 <= k < |values| ==>
      (Has(r[g][k], col) <==> col in ColumnSlices(SortedColumns(values), groups)[g] && Has(values[k], col))
    ensures forall g, k, col :: 0 <= g < |r| && 0 <= k < |values| && Has(r[g][k], col) ==>
      Get(r[g][k], col) == Get(values[k], col)
  {
    var slices := ColumnSlices(SortedColumns(values), groups);
    ProjectGroups(values, slices)
  }

  /** The ranked slices, read in order, are the first record's columns sorted
      by their last-row value, largest first, equal values in key order. */
  lemma RankedSlicesAreStablySorted(values: seq<Row>, groups: int)
    requires forall k :: 0 <= k < |values| ==> WellFormed(values[k])
    requires groups > 0 && |values| > 0
    ensures var sorted := Flatten(ColumnSlices(SortedColumns(values), groups));
      var key := (c: string) => Rank(values[|values| - 1], c);
      && multiset(sorted) == multiset(values[0].cols)
      && Descending(sorted, key)
      && forall v :: WithKey(sorted, key, v) == WithKey(values[0].cols, key, v)
  {
    ColumnSlicesPartition(SortedColumns(values), groups);
  }
}
