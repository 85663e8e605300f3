/** The boring-data compression of `aggregatorB` (src/lib/clusteringB.ts):
    after grouping, the timestamps that every group finds boring are
    compressed away in all groups at once. The first row of each boring run
    stays, with the group's dimensions blanked, to leave a visible gap; the
    rest of the run is dropped. */
module Compression {
  import opened Basics
  import opened Records

  /** The entry at index `e` is boring: its timestamp is a common boring one. */
  predicate IsBoring(ts: seq<int>, common: seq<int>, e: nat)
    requires e < |ts|
  {
    ts[e] in common
  }

  /** Index `e` produces an output row: it is not boring, or it starts a
      boring run. */
  predicate Emits(ts: seq<int>, common: seq<int>, e: nat)
    requires e < |ts|
  {
    !IsBoring(ts, common, e) || e == 0 || !IsBoring(ts, common, e - 1)
  }

  /** The indices below `n` that produce an output row, in increasing order. */
  function Kept(ts: seq<int>, common: seq<int>, n: nat): (r: seq<nat>)
    requires n <= |ts|
    ensures forall j :: 0 <= j < |r| ==> r[j] < n
  {
    if n == 0 then []
    else
      var p := Kept(ts, common, n - 1);
      if Emits(ts, common, n - 1) then p + [n - 1] else p
  }

  /** The kept indices are increasing, and they are exactly the indices that
      emit a row. */
  lemma {:induction false} KeptExact(ts: seq<int>, common: seq<int>, n: nat)
    requires n <= |ts|
    ensures StrictlyIncreasing(Kept(ts, common, n))
    ensures forall j :: 0 <= j < |Kept(ts, common, n)| ==> Emits(ts, common, Kept(ts, common, n)[j])
    ensures forall e: nat :: e < n && Emits(ts, common, e) ==> e in Kept(ts, common, n)
  {
    if n > 0 {
      KeptExact(ts, common, n - 1);
    }
  }

  /** The output row for input index `e` of one group. */
  function RowFor(group: seq<Row>, dims: seq<string>, ts: seq<int>, common: seq<int>, e: nat): Row
    requires e < |ts| && e < |group| && TimestampKey !in dims
  {
    if IsBoring(ts, common, e) then Blank(group[e], dims) else group[e]
  }

  /** The rows a group keeps for the emitted indices `kept`. */
  function Emit(group: seq<Row>, dims: seq<string>, ts: seq<int>, common: seq<int>, kept: seq<nat>): (r: seq<Row>)
    requires |group| == |ts| && TimestampKey !in dims
    requires forall j :: 0 <= j < |kept| ==> kept[j] < |ts|
    ensures |r| == |kept|
    ensures forall j :: 0 <= j < |kept| ==> r[j] == RowFor(group, dims, ts, common, kept[j])
  {
    seq(|kept|, j requires 0 <= j < |kept| => RowFor(group, dims, ts, common, kept[j]))
  }

  /** The groups the compression loop may read: aligned, as the loop's own
      comment demands, each with a column list free of `timestamp`. */
  ghost predicate Compressible(groups: seq<seq<Row>>, dims: seq<seq<string>>) {
    && |groups| > 0 && |dims| == |groups| && Aligned(groups)
    && (forall c :: 0 <= c < |groups| ==> TimestampKey !in dims[c])
  }

  /** Every group appended with its own row for index `e`. */
  function PushEach(acc: seq<seq<Row>>, groups: seq<seq<Row>>, dims: seq<seq<string>>, ts: seq<int>,
                    common: seq<int>, e: nat): (r: seq<seq<Row>>)
    requires Compressible(groups, dims) && ts == Timestamps(groups[0])
    requires |acc| == |groups| && e < |ts|
    ensures |r| == |acc|
    ensures forall c :: 0 <= c < |acc| ==> r[c] == acc[c] + [RowFor(groups[c], dims[c], ts, common, e)]
  {
    seq(|acc|, c requires 0 <= c < |acc| => acc[c] + [RowFor(groups[c], dims[c], ts, common, e)])
  }

  /** The compression loop of src/lib/clusteringB.ts:165-241 for a
      non-empty `common`: `dims[c]` are the dimensions of group `c`. */
  method Compress(groups: seq<seq<Row>>, dims: seq<seq<string>>, common: seq<int>)
    returns (out: seq<seq<Row>>)
    requires Compressible(groups, dims)
    ensures |out| == |groups|
    ensures forall c :: 0 <= c < |out| ==>
      out[c] == Emit(groups[c], dims[c], Timestamps(groups[0]), common,
                     Kept(Timestamps(groups[0]), common, |groups[0]|))
  {
    var ts := Timestamps(groups[0]);
    out := Repeat([], |groups|);
    var wasPrevBoring := false;
    var e := 0;
    while e < |ts|
      invariant 0 <= e <= |ts| && |out| == |groups|
      invariant wasPrevBoring <==> e > 0 && IsBoring(ts, common, e - 1)
      invariant forall c :: 0 <= c < |out| ==> out[c] == Emit(groups[c], dims[c], ts, common, Kept(ts, common, e))
    {
      if ts[e] in common {
        if wasPrevBoring {
        } else {
          out := PushEach(out, groups, dims, ts, common, e);
          wasPrevBoring := true;
        }
      } else {
        out := PushEach(out, groups, dims, ts, common, e);
        wasPrevBoring := false;
      }
      e := e + 1;
    }
  }

  /** The number of boring indices below `n` that start a run. */
  function RunStarts(ts: seq<int>, common: seq<int>, n: nat): nat
    requires n <= |ts|
  {
    if n == 0 then 0
    else RunStarts(ts, common, n - 1) + (if IsBoring(ts, common, n - 1) && Emits(ts, common, n - 1) then 1 else 0)
  }

  /** The number of non-boring indices below `n`. */
  function Significant(ts: seq<int>, common: seq<int>, n: nat): nat
    requires n <= |ts|
  {
    if n == 0 then 0
    else Significant(ts, common, n - 1) + (if IsBoring(ts, common, n - 1) then 0 else 1)
  }

  /** The output length is the number of non-boring rows plus the number of
      boring runs. */
  lemma {:induction false} KeptCount(ts: seq<int>, common: seq<int>, n: nat)
    requires n <= |ts|
    ensures |Kept(ts, common, n)| == Significant(ts, common, n) + RunStarts(ts, common, n)
  {
    if n > 0 {
      KeptCount(ts, common, n - 1);
    }
  }

  /** No timestamp is lost but the repeats inside a boring run: the first
      index always stays, and so does every non-boring one. */
  lemma KeptKeepsSignificant(ts: seq<int>, common: seq<int>)
    ensures |ts| > 0 ==> 0 in Kept(ts, common, |ts|)
    ensures forall e: nat :: e < |ts| && !IsBoring(ts, common, e) ==> e in Kept(ts, common, |ts|)
  {
    KeptExact(ts, common, |ts|);
  }

  /** A kept boring row is followed in the output by a non-boring one: runs
      collapse to a single blank row. */
  lemma {:induction false} BlankRowsNeverAdjacent(ts: seq<int>, common: seq<int>, n: nat, j: nat)
    requires n <= |ts|
    requires j + 1 < |Kept(ts, common, n)|
    requires IsBoring(ts, common, Kept(ts, common, n)[j])
    ensures !IsBoring(ts, common, Kept(ts, common, n)[j + 1])
  {
    var k := Kept(ts, common, n);
    var p := Kept(ts, common, n - 1);
    if j + 1 < |p| {
      assert k[j] == p[j] && k[j + 1] == p[j + 1];
      BlankRowsNeverAdjacent(ts, common, n - 1, j);
    } else {
      LastKeptNotBoring(ts, common, n, j);
    }
  }

  /** The step of `BlankRowsNeverAdjacent` where `n - 1` is the newly kept
      index: every index after the last kept one `a` and before `n - 1` was
      dropped, so it is boring, and `n - 1` follows a boring index. */
  lemma LastKeptNotBoring(ts: seq<int>, common: seq<int>, n: nat, j: nat)
    requires 0 < n <= |ts|
    requires j + 1 < |Kept(ts, common, n)| && j + 1 >= |Kept(ts, common, n - 1)|
    requires IsBoring(ts, common, Kept(ts, common, n)[j])
    ensures !IsBoring(ts, common, Kept(ts, common, n)[j + 1])
  {
    var k := Kept(ts, common, n);
    var p := Kept(ts, common, n - 1);
    assert k == p + [n - 1] && j + 1 == |p|;
    var a, b := p[j], n - 1;
    assert IsBoring(ts, common, b - 1) by {
      if b - 1 > a {
        DroppedAfterLast(ts, common, n - 1, b - 1);
      }
    }
  }

  /** An index after the last kept one was dropped, so it is boring. */
  lemma DroppedAfterLast(ts: seq<int>, common: seq<int>, n: nat, e: nat)
    requires n <= |ts| && e < n
    requires |Kept(ts, common, n)| > 0 ==> e > Kept(ts, common, n)[|Kept(ts, common, n)| - 1]
    ensures IsBoring(ts, common, e)
  {
    var p := Kept(ts, common, n);
    KeptExact(ts, common, n);
    assert forall i :: 0 <= i < |p| ==> p[i] <= p[|p| - 1];
    assert e !in p;
    assert !Emits(ts, common, e);
  }

  /** Compression keeps every group's first-row columns: index 0 is always
      emitted, and blanking sets only columns the row already has. */
  lemma CompressKeepsFirstColumns(groups: seq<seq<Row>>, dims: seq<seq<string>>, common: seq<int>, out: seq<seq<Row>>)
    requires Compressible(groups, dims)
    requires forall c, k :: 0 <= c < |groups| && 0 <= k < |groups[c]| ==> WellFormed(groups[c][k])
    requires forall c :: 0 <= c < |groups| ==> dims[c] == FirstRowColumns(groups[c])
    requires |out| == |groups|
    requires forall c :: 0 <= c < |out| ==>
      out[c] == Emit(groups[c], dims[c], Timestamps(groups[0]), common,
                     Kept(Timestamps(groups[0]), common, |groups[0]|))
    ensures forall c :: 0 <= c < |out| ==> FirstRowColumns(out[c]) == FirstRowColumns(groups[c])
  {
    var ts := Timestamps(groups[0]);
    var k := Kept(ts, common, |groups[0]|);
    KeptKeepsSignificant(ts, common);
    KeptExact(ts, common, |groups[0]|);
    forall c | 0 <= c < |out| ensures FirstRowColumns(out[c]) == FirstRowColumns(groups[c]) {
      if |groups[0]| > 0 {
        assert k[0] == 0 by {
          var i :| 0 <= i < |k| && k[i] == 0;
          assert k[0] <= k[i];
        }
        assert out[c][0] == RowFor(groups[c], dims[c], ts, common, 0);
      }
    }
  }

  /** The compressed groups stay aligned: every group emits the same
      indices, and blanking keeps the timestamp. */
  lemma CompressAligned(groups: seq<seq<Row>>, dims: seq<seq<string>>, common: seq<int>, out: seq<seq<Row>>)
    requires Compressible(groups, dims)
    requires |out| == |groups|
    requires forall c :: 0 <= c < |out| ==>
      out[c] == Emit(groups[c], dims[c], Timestamps(groups[0]), common,
                     Kept(Timestamps(groups[0]), common, |groups[0]|))
    ensures Aligned(out)
    ensures var k := Kept(Timestamps(groups[0]), common, |groups[0]|);
      forall c, j :: 0 <= c < |out| && 0 <= j < |k| ==>
        |out[c]| == |k| && out[c][j].timestamp == groups[0][k[j]].timestamp
  {
  }
}
