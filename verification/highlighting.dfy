/** `highlighter` (src/lib/highlighting.ts): for every dimension of every
    group, how often its group in the assignment history differs from its
    current group, and which earlier group it came from. */
module Highlighting {
  import opened Basics
  import opened Records

  /** A `[dimension, group]` table such as `colsAccordingToAggregation`. */
  type Assignment = seq<(string, int)>

  /** One entry of the assignment history. */
  datatype Snapshot = Snapshot(timestamp: int, entries: Assignment)

  /** `{ dimension, opacity, lastDimension }` */
  datatype Highlight = Highlight(dimension: string, opacity: real, lastDimension: Option<int>)

  /** `entries.find(([d]) => d === dim)?.[1]` */
  function Find(entries: Assignment, dim: string): Option<int> {
    if entries == [] then None
    else if entries[0].0 == dim then Some(entries[0].1)
    else Find(entries[1..], dim)
  }

  /** `Find` gives the group of the first entry for `dim`, and `undefined`
      exactly when there is none. */
  lemma {:induction false} FindFirst(entries: Assignment, dim: string)
    ensures Find(entries, dim).None? <==> forall i :: 0 <= i < |entries| ==> entries[i].0 != dim
    ensures Find(entries, dim).Some? ==>
      exists i :: 0 <= i < |entries| && entries[i] == (dim, Find(entries, dim).value) &&
        forall j :: 0 <= j < i ==> entries[j].0 != dim
  {
    if entries != [] && entries[0].0 != dim {
      FindFirst(entries[1..], dim);
      assert forall i :: 1 <= i < |entries| ==> entries[1..][i - 1] == entries[i];
      if Find(entries, dim).Some? {
        var i :| 0 <= i < |entries[1..]| && entries[1..][i] == (dim, Find(entries, dim).value) &&
          forall j :: 0 <= j < i ==> entries[1..][j].0 != dim;
        assert entries[i + 1] == (dim, Find(entries, dim).value);
      }
    }
  }

  /** `!!x` for a group index that may be `undefined`. */
  predicate Truthy(x: Option<int>) {
    x.Some? && x.value != 0
  }

  /** The past groups of `dim` that differ from `current`, oldest entry
      first (`undefined === undefined` counts as the same). */
  function Differing(history: seq<Snapshot>, dim: string, current: Option<int>): (ds: seq<Option<int>>)
    ensures |ds| <= |history|
  {
    if history == [] then []
    else
      var n := |history| - 1;
      var p := Differing(history[..n], dim, current);
      var past := Find(history[n].entries, dim);
      if past != current then p + [past] else p
  }

  /** None of the differing past groups is the current one. */
  lemma {:induction false} DifferingDiffer(history: seq<Snapshot>, dim: string, current: Option<int>)
    ensures var ds := Differing(history, dim, current);
      forall k :: 0 <= k < |ds| ==> ds[k] != current
  {
    if history != [] {
      var n := |history| - 1;
      DifferingDiffer(history[..n], dim, current);
      assert forall k :: 0 <= k < |Differing(history[..n], dim, current)| ==> Differing(history[..n], dim, current)[k] != current;
      var p, past := Differing(history[..n], dim, current), Find(history[n].entries, dim);
      var ds := Differing(history, dim, current);
      assert ds == if past != current then p + [past] else p;
      forall k | 0 <= k < |ds| ensures ds[k] != current {
        if k < |p| {
          assert ds[k] == p[k];
          assert p[k] != current;
        } else {
          assert ds[k] == past;
        }
      }
    }
  }

  /** No past group differs iff every entry agrees, and every one differs
      iff no entry agrees. */
  lemma {:induction false} DifferingCount(history: seq<Snapshot>, dim: string, current: Option<int>)
    ensures var ds := Differing(history, dim, current);
      && (|ds| == 0 <==> forall h :: 0 <= h < |history| ==> Find(history[h].entries, dim) == current)
      && (|ds| == |history| <==> forall h :: 0 <= h < |history| ==> Find(history[h].entries, dim) != current)
  {
    if history != [] {
      var n := |history| - 1;
      DifferingCount(history[..n], dim, current);
      assert forall h :: 0 <= h < n ==> history[..n][h] == history[h];
    }
  }

  /** `if (!lastDimension) lastDimension = pastCluster` over the differing
      past groups: the first truthy one sticks; before that each one
      overwrites the last. */
  function Latch(ds: seq<Option<int>>): Option<int> {
    if ds == [] then None
    else
      var p := Latch(ds[..|ds| - 1]);
      if Truthy(p) then p else ds[|ds| - 1]
  }

  /** The latch is the first truthy group; with none truthy, the last group,
      or `undefined` for no groups. */
  lemma {:induction false} LatchFirstTruthy(ds: seq<Option<int>>)
    ensures forall k :: 0 <= k < |ds| && Truthy(ds[k]) && (forall j :: 0 <= j < k ==> !Truthy(ds[j])) ==> Latch(ds) == ds[k]
    ensures (forall k :: 0 <= k < |ds| ==> !Truthy(ds[k])) ==> Latch(ds) == if ds == [] then None else ds[|ds| - 1]
  {
    if ds != [] {
      var n := |ds| - 1;
      LatchFirstTruthy(ds[..n]);
      assert forall k :: 0 <= k < n ==> ds[..n][k] == ds[k];
    }
  }

  /** The entry for one dimension: present when some past group differs,
      with the share of differing entries as opacity. */
  function HighlightOf(dim: string, assignment: Assignment, history: seq<Snapshot>): (h: Option<Highlight>)
    ensures h.Some? ==> h.value.dimension == dim
  {
    var ds := Differing(history, dim, Find(assignment, dim));
    if |ds| > 0 then
      Some(Highlight(dim, |ds| as real / |history| as real, Latch(ds)))
    else
      None
  }

  /** A dimension is highlighted iff some history entry differs from its
      current group; its opacity is then the share of differing entries, in
      (0, 1] and 1 exactly when every entry differs, and its
      `lastDimension` is the latch of the differing groups. */
  lemma HighlightOfMeaning(dim: string, assignment: Assignment, history: seq<Snapshot>)
    ensures var h := HighlightOf(dim, assignment, history);
      && (h.Some? <==> exists k :: 0 <= k < |history| && Find(history[k].entries, dim) != Find(assignment, dim))
      && (h.Some? ==>
            var ds := Differing(history, dim, Find(assignment, dim));
            && 0.0 < h.value.opacity <= 1.0
            && h.value.opacity == |ds| as real / |history| as real
            && (h.value.opacity == 1.0 <==> forall k :: 0 <= k < |history| ==> Find(history[k].entries, dim) != Find(assignment, dim))
            && h.value.lastDimension == Latch(ds))
  {
    var ds := Differing(history, dim, Find(assignment, dim));
    DifferingCount(history, dim, Find(assignment, dim));
    if |ds| > 0 {
      Share(|ds|, |history|);
    }
  }

  /** `a / b` for counts `0 < a <= b` lies in (0, 1] and is 1 exactly when
      `a == b`. */
  lemma Share(a: nat, b: nat)
    requires 0 < a <= b
    ensures 0.0 < a as real / b as real <= 1.0
    ensures a as real / b as real == 1.0 <==> a == b
  {
    var q := a as real / b as real;
    assert q * b as real == a as real;
    assert a as real <= b as real;
  }

  /** The entries `f` gives for `dims`, in order, skipping the missing ones. */
  function Select(dims: seq<string>, f: string -> Option<Highlight>): (hs: seq<Highlight>)
    ensures |hs| <= |dims|
  {
    if dims == [] then []
    else
      var n := |dims| - 1;
      var p := Select(dims[..n], f);
      match f(dims[n])
      case Some(h) => p + [h]
      case None => p
  }

  /** The dimensions a list of entries names, in order. */
  function Named(hs: seq<Highlight>): (ns: seq<string>)
    ensures |ns| == |hs|
    ensures forall k :: 0 <= k < |hs| ==> ns[k] == hs[k].dimension
  {
    seq(|hs|, k requires 0 <= k < |hs| => hs[k].dimension)
  }

  /** When `f` names the dimension it is asked about, the selection holds
      exactly the entries `f` gives for `dims`. */
  lemma {:induction false} SelectExact(dims: seq<string>, f: string -> Option<Highlight>)
    requires forall d :: f(d).Some? ==> f(d).value.dimension == d
    ensures var hs := Select(dims, f);
      && (forall k :: 0 <= k < |hs| ==> hs[k].dimension in dims && f(hs[k].dimension) == Some(hs[k]))
      && (forall d :: d in dims && f(d).Some? ==> d in Named(hs))
  {
    if dims != [] {
      var n := |dims| - 1;
      SelectExact(dims[..n], f);
      var p := Select(dims[..n], f);
      var hs := Select(dims, f);
      assert dims == dims[..n] + [dims[n]];
      assert hs == if f(dims[n]).Some? then p + [f(dims[n]).value] else p;
      assert Named(hs)[..|p|] == Named(p);
      forall k | 0 <= k < |hs| ensures hs[k].dimension in dims && f(hs[k].dimension) == Some(hs[k]) {
        if k < |p| {
          assert hs[k] == p[k];
        }
      }
      forall d | d in dims && f(d).Some? ensures d in Named(hs) {
        if d in dims[..n] {
          assert d in Named(p);
        } else {
          assert Named(hs)[|p|] == d;
        }
      }
    }
  }

  /** A function that gives no entries selects nothing. */
  lemma {:induction false} SelectNone(dims: seq<string>, f: string -> Option<Highlight>)
    requires forall d :: f(d).None?
    ensures Select(dims, f) == []
  {
    if dims != [] {
      SelectNone(dims[..|dims| - 1], f);
    }
  }

  /** The entries of one group: the highlighted dimensions among `dims`. */
  function Highlights(dims: seq<string>, assignment: Assignment, history: seq<Snapshot>): seq<Highlight> {
    Select(dims, d => HighlightOf(d, assignment, history))
  }

  /** A group's list holds exactly its highlighted dimensions, each with its
      own entry, and an empty history highlights nothing. */
  lemma HighlightsExact(dims: seq<string>, assignment: Assignment, history: seq<Snapshot>)
    ensures var hs := Highlights(dims, assignment, history);
      && |hs| <= |dims|
      && (forall k :: 0 <= k < |hs| ==>
            hs[k].dimension in dims && HighlightOf(hs[k].dimension, assignment, history) == Some(hs[k]))
      && (forall d :: d in dims && HighlightOf(d, assignment, history).Some? ==> d in Named(hs))
      && (history == [] ==> hs == [])
  {
    var f := d => HighlightOf(d, assignment, history);
    SelectExact(dims, f);
    if history == [] {
      SelectNone(dims, f);
    }
  }

  /** The columns of a group's first row (`cluster.length ? Object.keys(cluster[0]) : []`). */
  function ClusterDimensions(cluster: seq<Row>): seq<string> {
    if |cluster| > 0 then cluster[0].cols else []
  }

  /** The history loop for one dimension: how many past groups differ and
      the latched `lastDimension`. */
  method CountDifferences(dim: string, current: Option<int>, history: seq<Snapshot>)
    returns (count: nat, last: Option<int>)
    ensures count == |Differing(history, dim, current)|
    ensures last == Latch(Differing(history, dim, current))
  {
    count, last := 0, None;
    var k := 0;
    while k < |history|
      invariant 0 <= k <= |history|
      invariant count == |Differing(history[..k], dim, current)|
      invariant last == Latch(Differing(history[..k], dim, current))
    {
      DifferingSnoc(history, k, dim, current);
      var past := Find(history[k].entries, dim);
      if current != past {
        assert Differing(history[..k + 1], dim, current) == Differing(history[..k], dim, current) + [past];
        LatchSnoc(Differing(history[..k], dim, current), past);
        count := count + 1;
        if !Truthy(last) {
          last := past;
        }
      } else {
        assert Differing(history[..k + 1], dim, current) == Differing(history[..k], dim, current);
      }
      k := k + 1;
    }
    assert history[..k] == history;
  }

  /** One more history entry adds its group when it differs. */
  lemma DifferingSnoc(history: seq<Snapshot>, k: nat, dim: string, current: Option<int>)
    requires k < |history|
    ensures var past := Find(history[k].entries, dim);
      Differing(history[..k + 1], dim, current) ==
        Differing(history[..k], dim, current) + (if past != current then [past] else [])
  {
    assert history[..k + 1][..k] == history[..k];
  }

  /** One more differing group changes the latch only while it is falsy. */
  lemma LatchSnoc(ds: seq<Option<int>>, x: Option<int>)
    ensures Latch(ds + [x]) == if Truthy(Latch(ds)) then Latch(ds) else x
  {
    assert (ds + [x])[..|ds|] == ds;
  }

  /** The dimension loop for one group. */
  method HighlightCluster(dims: seq<string>, assignment: Assignment, history: seq<Snapshot>)
    returns (hs: seq<Highlight>)
    ensures hs == Highlights(dims, assignment, history)
  {
    hs := [];
    var i := 0;
    while i < |dims|
      invariant 0 <= i <= |dims|
      invariant hs == Highlights(dims[..i], assignment, history)
    {
      assert dims[..i + 1][..i] == dims[..i];
      var dim := dims[i];
      var current := Find(assignment, dim);
      var count, last := CountDifferences(dim, current, history);
      if count > 0 {
        hs := hs + [Highlight(dim, count as real / |history| as real, last)];
      }
      i := i + 1;
    }
    assert dims[..i] == dims;
  }

  /** `highlighter(aggregated, clusterAssignment, clusterAssignmentHistory)`:
      one list per group, in group order, drawn from the group's first-row
      columns. */
  method Highlighter(aggregated: seq<seq<Row>>, assignment: Assignment, history: seq<Snapshot>)
    returns (info: seq<seq<Highlight>>)
    ensures |info| == |aggregated|
    ensures forall c :: 0 <= c < |aggregated| ==> info[c] == Highlights(ClusterDimensions(aggregated[c]), assignment, history)
  {
    info := [];
    var c := 0;
    while c < |aggregated|
      invariant 0 <= c <= |aggregated| && |info| == c
      invariant forall j :: 0 <= j < c ==> info[j] == Highlights(ClusterDimensions(aggregated[j]), assignment, history)
    {
      var hs := HighlightCluster(ClusterDimensions(aggregated[c]), assignment, history);
      ghost var before := info;
      info := info + [hs];
      assert forall j :: 0 <= j < c ==> info[j] == before[j];
      c := c + 1;
    }
  }
}
