/** Small vocabulary shared by every module: an option type for JavaScript's
    `undefined`, duplicate-free sequences, concatenation of nested sequences
    and the index clamping of `Array.prototype.slice`. */
module Basics {

  /** `None` stands for JavaScript's `undefined`. */
  datatype Option<+T> = None | Some(value: T)

  /** The outcome of an expression that may throw a `TypeError`. */
  datatype Outcome<+T> = Ok(value: T) | TypeError

  predicate Distinct<T(==)>(s: seq<T>) {
    forall i, j | 0 <= i < j < |s| :: s[i] != s[j]
  }

  predicate StrictlyIncreasing(s: seq<int>) {
    forall i, j | 0 <= i < j < |s| :: s[i] < s[j]
  }

  /** The elements of `s` in order of first occurrence, each once: what
      `Array.from(new Set(s))` yields. */
  function Dedup<T(==,!new)>(s: seq<T>): (r: seq<T>)
    ensures Distinct(r)
    ensures forall x :: x in r <==> x in s
    ensures |r| <= |s|
    ensures Distinct(s) ==> r == s
  {
    if s == [] then []
    else
      var p := Dedup(s[..|s| - 1]);
      assert forall x :: x in s <==> x in s[..|s| - 1] || x == s[|s| - 1];
      if s[|s| - 1] in p then p else p + [s[|s| - 1]]
  }

  /** The position of the first occurrence of `x` in `s`. */
  function FirstIndex<T(==)>(s: seq<T>, x: T): (i: nat)
    requires x in s
    ensures i < |s| && s[i] == x
    ensures forall j :: 0 <= j < i ==> s[j] != x
  {
    if s[0] == x then 0 else 1 + FirstIndex(s[1..], x)
  }

  /** `Dedup` keeps every element where it first occurs: its output lists
      the elements in increasing order of their first occurrence in `s`. */
  lemma {:induction false} DedupFirstOccurrence<T(!new)>(s: seq<T>)
    ensures forall i, j :: 0 <= i < j < |Dedup(s)| ==>
      FirstIndex(s, Dedup(s)[i]) < FirstIndex(s, Dedup(s)[j])
  {
    if s != [] {
      var n := |s| - 1;
      DedupFirstOccurrence(s[..n]);
      DedupOrderStep(s, n, s[..n], Dedup(s[..n]));
    }
  }

  /** The step of `DedupFirstOccurrence`: the order carries over from the
      list without its last element. */
  lemma DedupOrderStep<T(!new)>(s: seq<T>, n: nat, q: seq<T>, p: seq<T>)
    requires n == |s| - 1 && q == s[..n] && p == Dedup(q)
    requires forall i, j :: 0 <= i < j < |p| ==> FirstIndex(q, p[i]) < FirstIndex(q, p[j])
    ensures forall i, j :: 0 <= i < j < |Dedup(s)| ==>
      FirstIndex(s, Dedup(s)[i]) < FirstIndex(s, Dedup(s)[j])
  {
    forall i | 0 <= i < |p| ensures p[i] in q && FirstIndex(s, p[i]) == FirstIndex(q, p[i]) {
      assert p[i] in p;
      FirstIndexPrefix(s, n, p[i]);
    }
    if s[n] in p {
      assert Dedup(s) == p;
      forall i, j | 0 <= i < j < |p| ensures FirstIndex(s, p[i]) < FirstIndex(s, p[j]) {
        assert FirstIndex(q, p[i]) < FirstIndex(q, p[j]);
      }
    } else {
      assert Dedup(s) == p + [s[n]];
      FirstIndexLast(s);
      forall i, j | 0 <= i < j < |p| + 1
        ensures FirstIndex(s, (p + [s[n]])[i]) < FirstIndex(s, (p + [s[n]])[j])
      {
        assert (p + [s[n]])[i] == p[i];
        if j < |p| {
          assert (p + [s[n]])[j] == p[j];
        } else {
          assert (p + [s[n]])[j] == s[n];
        }
      }
    }
  }

  /** An element that occurs only last first occurs last. */
  lemma FirstIndexLast<T>(s: seq<T>)
    requires s != [] && s[|s| - 1] !in s[..|s| - 1]
    ensures FirstIndex(s, s[|s| - 1]) == |s| - 1
  {
    var n := |s| - 1;
    forall j | 0 <= j < n ensures s[j] != s[n] {
      assert s[j] == s[..n][j];
    }
  }

  /** An element of a prefix first occurs at the same place in the whole. */
  lemma FirstIndexPrefix<T>(s: seq<T>, n: nat, x: T)
    requires n <= |s| && x in s[..n]
    ensures FirstIndex(s, x) == FirstIndex(s[..n], x)
  {
    var k := FirstIndex(s[..n], x);
    assert s[k] == x;
    forall j | 0 <= j < k ensures s[j] != x {
      assert s[j] == s[..n][j];
    }
  }

  /** Concatenation of the inner sequences, in order. */
  function Flatten<T>(ss: seq<seq<T>>): seq<T> {
    if ss == [] then [] else Flatten(ss[..|ss| - 1]) + ss[|ss| - 1]
  }

  /** The sum of the inner lengths (`reduce((p, c) => p + c.length, 0)`). */
  function TotalLength<T>(ss: seq<seq<T>>): nat {
    if ss == [] then 0 else TotalLength(ss[..|ss| - 1]) + |ss[|ss| - 1]|
  }

  /** Only a non-empty list of parts has a positive total length. */
  lemma PositiveTotalLength<T>(ss: seq<seq<T>>)
    ensures TotalLength(ss) > 0 ==> |ss| > 0
  {
  }

  lemma FlattenAppend<T>(ss: seq<seq<T>>, s: seq<T>)
    ensures Flatten(ss + [s]) == Flatten(ss) + s
  {
    assert (ss + [s])[..|ss|] == ss;
  }

  lemma {:induction false} FlattenLength<T>(ss: seq<seq<T>>)
    ensures |Flatten(ss)| == TotalLength(ss)
  {
    if ss != [] {
      FlattenLength(ss[..|ss| - 1]);
    }
  }

  /** An element of the concatenation lies in one of the parts, and back. */
  lemma {:induction false} FlattenMember<T>(ss: seq<seq<T>>, x: T)
    ensures x in Flatten(ss) <==> exists i :: 0 <= i < |ss| && x in ss[i]
  {
    if ss != [] {
      var p := ss[..|ss| - 1];
      FlattenMember(p, x);
      if x in Flatten(ss) && x !in Flatten(p) {
        assert x in ss[|ss| - 1];
      }
      if exists i :: 0 <= i < |ss| && x in ss[i] {
        var i :| 0 <= i < |ss| && x in ss[i];
        if i < |ss| - 1 {
          assert x in p[i];
        }
      }
    }
  }

  /** When the concatenation has no duplicates, no element lies in two parts. */
  lemma {:induction false} FlattenDistinctParts<T>(ss: seq<seq<T>>, i: int, j: int, x: T)
    requires Distinct(Flatten(ss))
    requires 0 <= i < |ss| && 0 <= j < |ss|
    requires x in ss[i] && x in ss[j]
    ensures i == j
  {
    var p := ss[..|ss| - 1];
    var last := ss[|ss| - 1];
    assert Flatten(ss) == Flatten(p) + last;
    assert Distinct(Flatten(p)) by {
      assert forall a, b | 0 <= a < b < |Flatten(p)| :: Flatten(p)[a] == Flatten(ss)[a] && Flatten(p)[b] == Flatten(ss)[b];
    }
    if i < |ss| - 1 && j < |ss| - 1 {
      assert x in p[i] && x in p[j];
      FlattenDistinctParts(p, i, j, x);
    } else if i != j {
      var k := if i < j then i else j;
      EarlierAndLast(ss, k, x);
      assert false;
    }
  }

  /** An element of an earlier part that is also in the last part occurs
      twice in the concatenation. */
  lemma EarlierAndLast<T>(ss: seq<seq<T>>, k: int, x: T)
    requires 0 <= k < |ss| - 1
    requires x in ss[k] && x in ss[|ss| - 1]
    ensures !Distinct(Flatten(ss))
  {
    var p := ss[..|ss| - 1];
    var last := ss[|ss| - 1];
    assert Flatten(ss) == Flatten(p) + last;
    assert x in p[k];
    FlattenMember(p, x);
    var a :| 0 <= a < |Flatten(p)| && Flatten(p)[a] == x;
    var b :| 0 <= b < |last| && last[b] == x;
    assert Flatten(ss)[a] == x && Flatten(ss)[|Flatten(p)| + b] == x;
  }

  /** The result of ECMAScript's relative-index clamping of a slice bound. */
  function Clamp(i: int, len: nat): (r: nat)
    ensures r <= len
    ensures 0 <= i <= len ==> r == i
    ensures i < 0 && 0 <= len + i ==> r == len + i
    ensures i < 0 && len + i < 0 ==> r == 0
    ensures len < i ==> r == len
  {
    if i < 0 then (if len + i < 0 then 0 else len + i)
    else if i > len then len
    else i
  }

  /** `s.slice(start, end)`; negative bounds count from the end and an empty
      result is returned when the clamped start is not before the clamped end. */
  function Slice<T>(s: seq<T>, start: int, end: int): (r: seq<T>)
    ensures 0 <= start <= end <= |s| ==> r == s[start..end]
    ensures 0 <= end <= start ==> r == []
    ensures 0 < start && end == |s| ==> r == s[if start < |s| then start else |s|..]
    ensures start < 0 && end == |s| ==> r == s[if -start < |s| then |s| + start else 0..]
    ensures forall x :: x in r ==> x in s
    ensures Distinct(s) ==> Distinct(r)
  {
    var a := Clamp(start, |s|);
    var b := Clamp(end, |s|);
    if a < b then s[a..b] else []
  }

  /** `Math.ceil(n / k)` for a positive divisor. */
  function CeilDiv(n: nat, k: int): (r: nat)
    requires k > 0
    ensures k * r >= n
    ensures r > 0 ==> k * (r - 1) < n
  {
    (n + k - 1) / k
  }

  function Min(a: int, b: int): int { if a <= b then a else b }
  function Max(a: int, b: int): int { if a <= b then b else a }

  /** A duplicate-free sequence has as many elements as its set. */
  lemma {:induction false} DistinctCardinality<T>(s: seq<T>)
    requires Distinct(s)
    ensures |set x | x in s| == |s|
  {
    if s != [] {
      var p := s[..|s| - 1];
      assert Distinct(p);
      DistinctCardinality(p);
      assert (set x | x in s) == (set x | x in p) + {s[|s| - 1]};
    }
  }

  lemma {:induction false} MultiplicityOfDistinct<T>(s: seq<T>, x: T)
    requires Distinct(s)
    ensures multiset(s)[x] <= 1
  {
    if s != [] {
      var p := s[..|s| - 1];
      assert s == p + [s[|s| - 1]];
      MultiplicityOfDistinct(p, x);
      assert s[|s| - 1] !in p;
      if x == s[|s| - 1] {
        assert x !in multiset(p);
      }
    }
  }

  /** A rearrangement of a duplicate-free sequence is duplicate-free. */
  lemma PermutationDistinct<T>(a: seq<T>, b: seq<T>)
    requires multiset(a) == multiset(b)
    ensures Distinct(a) ==> Distinct(b)
  {
    forall i, j | Distinct(a) && 0 <= i < j < |b| ensures b[i] != b[j] {
      if b[i] == b[j] {
        assert multiset(b)[b[i]] >= 2 by {
          assert b == b[..i] + [b[i]] + b[i + 1..j] + [b[j]] + b[j + 1..];
        }
        MultiplicityOfDistinct(a, b[i]);
      }
    }
  }

  /** `n` copies of `x`. */
  function Repeat<T>(x: T, n: nat): (r: seq<T>)
    ensures |r| == n
    ensures forall i :: 0 <= i < n ==> r[i] == x
  {
    if n == 0 then [] else Repeat(x, n - 1) + [x]
  }

  /** Nested sequences of the same shape have the same total length. */
  lemma {:induction false} TotalLengthSameShape<X, Y>(a: seq<seq<X>>, b: seq<seq<Y>>)
    requires |a| == |b|
    requires forall i :: 0 <= i < |a| ==> |a[i]| == |b[i]|
    ensures TotalLength(a) == TotalLength(b)
  {
    if a != [] {
      TotalLengthSameShape(a[..|a| - 1], b[..|b| - 1]);
    }
  }
}
