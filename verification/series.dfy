/** One column of the window seen as a time series: the
    `[dimension, Record<number, number>]` pairs the density clustering
    works on (src/lib/clusteringB.ts and src/lib/clusteringData.ts). */
module TimeSeries {
  import opened Basics
  import opened Records

  /** `[name, record]`: `keys` lists the record's keys in the order
      `Object.keys` and `for…in` yield them, `at` holds their values. */
  datatype Series = Series(name: string, keys: seq<int>, at: map<int, Value>)

  /** `series[t]`: `undefined` for a missing key. */
  function Lookup(s: Series, t: int): Value {
    if t in s.at then s.at[t] else None
  }

  /** The largest array index plus one (2^32 - 1). */
  const ArrayIndexLimit: int := 0x1_0000_0000 - 1

  /** An integer key whose string form is an array index. ECMAScript's
      OrdinaryOwnPropertyKeys lists such keys first, in ascending numeric
      order, and every other key afterwards in insertion order. */
  predicate IsArrayIndex(t: int) {
    0 <= t < ArrayIndexLimit
  }

  /** The array-index keys of `ts`, in order. */
  function Indices(ts: seq<int>): seq<int> {
    if ts == [] then []
    else
      var t := ts[|ts| - 1];
      Indices(ts[..|ts| - 1]) + (if IsArrayIndex(t) then [t] else [])
  }

  /** The other keys of `ts`, in order. */
  function NonIndices(ts: seq<int>): seq<int> {
    if ts == [] then []
    else
      var t := ts[|ts| - 1];
      NonIndices(ts[..|ts| - 1]) + (if IsArrayIndex(t) then [] else [t])
  }

  /** The two parts hold the keys of `ts` and nothing else, each with its
      multiplicity. */
  lemma {:induction false} SplitMultiset(ts: seq<int>)
    ensures multiset(Indices(ts)) + multiset(NonIndices(ts)) == multiset(ts)
  {
    if ts != [] {
      var p := ts[..|ts| - 1];
      SplitMultiset(p);
      assert ts == p + [ts[|ts| - 1]];
    }
  }

  predicate Ascending(s: seq<int>) {
    forall i, j :: 0 <= i < j < |s| ==> s[i] <= s[j]
  }

  /** Places `x` before the first element that is not smaller. */
  function InsertAsc(x: int, t: seq<int>): (r: seq<int>)
    ensures multiset(r) == multiset(t) + multiset{x}
    ensures forall y :: y in r <==> y == x || y in t
  {
    if t == [] then [x]
    else if x <= t[0] then [x] + t
    else
      assert t == [t[0]] + t[1..];
      [t[0]] + InsertAsc(x, t[1..])
  }

  lemma {:induction false} InsertAscending(x: int, t: seq<int>)
    requires Ascending(t)
    ensures Ascending(InsertAsc(x, t))
  {
    if t != [] && x > t[0] {
      var rest := InsertAsc(x, t[1..]);
      assert Ascending(t[1..]) by {
        forall i, j | 0 <= i < j < |t[1..]| ensures t[1..][i] <= t[1..][j] {
          assert t[1..][i] == t[i + 1] && t[1..][j] == t[j + 1];
        }
      }
      InsertAscending(x, t[1..]);
      forall y | y in rest ensures t[0] <= y {
        if y != x {
          var j :| 0 <= j < |t[1..]| && t[1..][j] == y;
          assert t[j + 1] == y;
        }
      }
      var r := [t[0]] + rest;
      forall i, j | 0 <= i < j < |r| ensures r[i] <= r[j] {
        if i > 0 {
          assert r[i] == rest[i - 1] && r[j] == rest[j - 1];
        } else {
          assert r[j] == rest[j - 1] && r[j] in rest;
        }
      }
    } else if t != [] {
      var r := [x] + t;
      forall i, j | 0 <= i < j < |r| ensures r[i] <= r[j] {
        if i > 0 {
          assert r[i] == t[i - 1] && r[j] == t[j - 1];
        } else {
          assert r[j] == t[j - 1];
        }
      }
    }
  }

  /** Ascending numeric order (an insertion sort). */
  function SortAsc(s: seq<int>): (r: seq<int>)
    ensures multiset(r) == multiset(s)
    ensures Ascending(r)
  {
    if s == [] then []
    else
      var rest := SortAsc(s[1..]);
      assert s == [s[0]] + s[1..];
      InsertAscending(s[0], rest);
      InsertAsc(s[0], rest)
  }

  /** Sorting what is already in order changes nothing. */
  lemma {:induction false} SortAscOfAscending(s: seq<int>)
    requires Ascending(s)
    ensures SortAsc(s) == s
  {
    if s != [] {
      assert Ascending(s[1..]) by {
        forall i, j | 0 <= i < j < |s[1..]| ensures s[1..][i] <= s[1..][j] {
          assert s[1..][i] == s[i + 1] && s[1..][j] == s[j + 1];
        }
      }
      SortAscOfAscending(s[1..]);
      assert s == [s[0]] + s[1..];
    }
  }

  /** The key order of an object whose keys were inserted in the order
      `inserted` (each key once). */
  function OwnKeys(inserted: seq<int>): (r: seq<int>)
    ensures multiset(r) == multiset(inserted)
    ensures forall t :: t in r <==> t in inserted
    ensures Distinct(inserted) ==> Distinct(r)
  {
    var r := SortAsc(Indices(inserted)) + NonIndices(inserted);
    SplitMultiset(inserted);
    assert forall t :: t in r <==> t in multiset(r);
    assert forall t :: t in inserted <==> t in multiset(inserted);
    PermutationDistinct(inserted, r);
    r
  }

  /** For non-negative timestamps inserted in increasing order (what every
      producer appends), the key order is the insertion order. */
  lemma OwnKeysOfIncreasing(ts: seq<int>)
    requires StrictlyIncreasing(ts)
    requires forall i :: 0 <= i < |ts| ==> ts[i] >= 0
    ensures OwnKeys(ts) == ts
  {
    IndicesFirst(ts);
    var k := |Indices(ts)|;
    assert Indices(ts) == ts[..k];
    assert Ascending(ts[..k]);
    SortAscOfAscending(ts[..k]);
  }

  lemma {:induction false} IndicesFirst(ts: seq<int>)
    requires StrictlyIncreasing(ts)
    requires forall i :: 0 <= i < |ts| ==> ts[i] >= 0
    ensures Indices(ts) + NonIndices(ts) == ts
  {
    if ts != [] {
      var n := |ts| - 1;
      var p := ts[..n];
      assert forall i :: 0 <= i < |p| ==> p[i] == ts[i];
      IndicesFirst(p);
      if IsArrayIndex(ts[n]) {
        IndicesBeforeIndex(ts);
      }
      IndicesFirstStep(ts, p, ts[n]);
    }
  }

  /** The step of `IndicesFirst`: appending the last key keeps the indices
      before the other keys, as long as no other key precedes a last index. */
  lemma IndicesFirstStep(ts: seq<int>, p: seq<int>, t: int)
    requires ts != [] && p == ts[..|ts| - 1] && t == ts[|ts| - 1]
    requires Indices(p) + NonIndices(p) == p
    requires IsArrayIndex(t) ==> NonIndices(p) == []
    ensures Indices(ts) + NonIndices(ts) == ts
  {
    assert ts == p + [t];
    if IsArrayIndex(t) {
      IndexAppended(ts, p, t);
    } else {
      NonIndexAppended(ts, p, t);
    }
  }

  lemma IndexAppended(ts: seq<int>, p: seq<int>, t: int)
    requires ts == p + [t] && p == ts[..|ts| - 1] && t == ts[|ts| - 1]
    requires Indices(p) + NonIndices(p) == p && NonIndices(p) == [] && IsArrayIndex(t)
    ensures Indices(ts) + NonIndices(ts) == ts
  {
    assert Indices(p) == p;
    assert Indices(ts) == p + [t];
  }

  lemma NonIndexAppended(ts: seq<int>, p: seq<int>, t: int)
    requires ts == p + [t] && p == ts[..|ts| - 1] && t == ts[|ts| - 1]
    requires Indices(p) + NonIndices(p) == p && !IsArrayIndex(t)
    ensures Indices(ts) + NonIndices(ts) == ts
  {
    assert Indices(ts) == Indices(p);
    assert NonIndices(ts) == NonIndices(p) + [t];
    assert Indices(p) + (NonIndices(p) + [t]) == (Indices(p) + NonIndices(p)) + [t];
  }

  /** Below an array index, every non-negative key is an array index. */
  lemma IndicesBeforeIndex(ts: seq<int>)
    requires ts != [] && StrictlyIncreasing(ts)
    requires forall i :: 0 <= i < |ts| ==> ts[i] >= 0
    requires IsArrayIndex(ts[|ts| - 1])
    ensures NonIndices(ts[..|ts| - 1]) == []
  {
    var n := |ts| - 1;
    var p := ts[..n];
    forall i | 0 <= i < n ensures IsArrayIndex(p[i]) {
      assert p[i] == ts[i] < ts[n];
    }
    AllIndices(p);
  }

  lemma {:induction false} AllIndices(ts: seq<int>)
    requires forall i :: 0 <= i < |ts| ==> IsArrayIndex(ts[i])
    ensures NonIndices(ts) == []
  {
    if ts != [] {
      AllIndices(ts[..|ts| - 1]);
    }
  }

  /** `timeSeries`: the value of `dim` in the last row carrying each
      timestamp (`timeSeries[curr.timestamp] = curr[dimension]` row by row). */
  function Column(rows: seq<Row>, dim: string): (at: map<int, Value>)
    ensures forall t :: t in at <==> t in Timestamps(rows)
    ensures forall t :: t in at ==> LastWins(rows, dim, t, at[t])
  {
    if rows == [] then map[]
    else
      var n := |rows| - 1;
      var p := Column(rows[..n], dim);
      ColumnStep(rows, dim, p);
      p[rows[n].timestamp := Get(rows[n], dim)]
  }

  lemma ColumnStep(rows: seq<Row>, dim: string, p: map<int, Value>)
    requires rows != []
    requires forall t :: t in p <==> t in Timestamps(rows[..|rows| - 1])
    requires forall t :: t in p ==> LastWins(rows[..|rows| - 1], dim, t, p[t])
    ensures var n := |rows| - 1;
      var at := p[rows[n].timestamp := Get(rows[n], dim)];
      && (forall t :: t in at <==> t in Timestamps(rows))
      && (forall t :: t in at ==> LastWins(rows, dim, t, at[t]))
  {
    var n := |rows| - 1;
    var last := rows[n].timestamp;
    var at := p[last := Get(rows[n], dim)];
    assert Timestamps(rows) == Timestamps(rows[..n]) + [last];
    forall t | t in at ensures LastWins(rows, dim, t, at[t]) {
      if t != last {
        var k :| 0 <= k < n && rows[..n][k].timestamp == t && p[t] == Get(rows[..n][k], dim)
          && forall k' :: k < k' < n ==> rows[..n][k'].timestamp != t;
        assert rows[k] == rows[..n][k];
        assert forall k' :: k < k' < |rows| ==> rows[k'].timestamp != t by {
          forall k' | k < k' < |rows| ensures rows[k'].timestamp != t {
            if k' < n {
              assert rows[k'] == rows[..n][k'];
            }
          }
        }
      } else {
        assert at[t] == Get(rows[n], dim);
      }
    }
  }

  /** `v` is what row `k` wrote for `t`, and no later row carries `t`. */
  ghost predicate LastWins(rows: seq<Row>, dim: string, t: int, v: Value) {
    exists k :: 0 <= k < |rows| && rows[k].timestamp == t && v == Get(rows[k], dim)
      && forall k' :: k < k' < |rows| ==> rows[k'].timestamp != t
  }

  /** `[dimension, timeSeries]` for one dimension of the window. */
  function ToSeries(rows: seq<Row>, dim: string): (s: Series)
    ensures s.name == dim
    ensures multiset(s.keys) == multiset(Dedup(Timestamps(rows)))
    ensures Distinct(s.keys)
    ensures forall t :: t in s.keys <==> t in Timestamps(rows)
    ensures forall t :: t in s.at <==> t in s.keys
    ensures forall t :: t in s.at ==> LastWins(rows, dim, t, s.at[t])
  {
    Series(dim, OwnKeys(Dedup(Timestamps(rows))), Column(rows, dim))
  }

  /** `dimensions.map(...)`: one series per dimension. */
  function AllSeries(rows: seq<Row>, dims: seq<string>): (r: seq<Series>)
    ensures |r| == |dims|
    ensures forall i :: 0 <= i < |dims| ==> r[i] == ToSeries(rows, dims[i])
  {
    seq(|dims|, i requires 0 <= i < |dims| => ToSeries(rows, dims[i]))
  }
}
