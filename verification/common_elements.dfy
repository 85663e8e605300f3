/** `findCommonElements` (src/lib/findCommonElements.ts): the values every
    list contains, as a JavaScript `Set` turned back into an array. A `Set`
    is modelled as a duplicate-free sequence in insertion order. */
module CommonElements {
  import opened Basics

  /** The values that occur in every list (all of them for no list). */
  predicate InAll(arrays: seq<seq<int>>, x: int) {
    forall i :: 0 <= i < |arrays| ==> x in arrays[i]
  }

  /** The values of the first list that occur in every list. */
  function Intersection(arrays: seq<seq<int>>): (r: set<int>)
    requires |arrays| > 0
    ensures forall x :: x in r <==> InAll(arrays, x)
  {
    set x | x in arrays[0] && InAll(arrays, x)
  }

  /** `s.filter((x) => keep.has(x))` */
  function Keep(s: seq<int>, keep: set<int>): (r: seq<int>)
    ensures |r| <= |s|
  {
    if s == [] then []
    else
      var n := |s| - 1;
      Keep(s[..n], keep) + (if s[n] in keep then [s[n]] else [])
  }

  /** The filtered list holds exactly the values of `s` that are in `keep`. */
  lemma {:induction false} KeepMembers(s: seq<int>, keep: set<int>)
    ensures forall x :: x in Keep(s, keep) <==> x in s && x in keep
  {
    if s != [] {
      var n := |s| - 1;
      KeepMembers(s[..n], keep);
      assert forall x :: x in s <==> x in s[..n] || x == s[n] by {
        assert s == s[..n] + [s[n]];
      }
    }
  }

  /** Filtering by two sets that agree on the elements of `s` gives the
      same list. */
  lemma {:induction false} KeepAgree(s: seq<int>, a: set<int>, b: set<int>)
    requires forall i :: 0 <= i < |s| ==> (s[i] in a <==> s[i] in b)
    ensures Keep(s, a) == Keep(s, b)
  {
    if s != [] {
      var n := |s| - 1;
      assert forall i :: 0 <= i < n ==> s[..n][i] == s[i];
      KeepAgree(s[..n], a, b);
    }
  }

  /** A list filtered by a set that holds all of its elements is the list. */
  lemma {:induction false} KeepAll(s: seq<int>, keep: set<int>)
    requires forall i :: 0 <= i < |s| ==> s[i] in keep
    ensures Keep(s, keep) == s
  {
    if s != [] {
      var n := |s| - 1;
      assert forall i :: 0 <= i < n ==> s[..n][i] == s[i];
      KeepAll(s[..n], keep);
      assert s[..n] + [s[n]] == s;
    }
  }

  /** The set of a list's values. */
  function Elements(s: seq<int>): (r: set<int>)
    ensures forall x :: x in r <==> x in s
  {
    set x | x in s
  }

  /** `findCommonElements(arrays)`: the result holds the values every list
      contains, each once, in the order of their first occurrence in the
      last list. */
  method FindCommonElements(arrays: seq<seq<int>>) returns (r: seq<int>)
    ensures Distinct(r)
    ensures forall x :: x in r ==> InAll(arrays, x)
    ensures |arrays| > 0 ==> forall x :: InAll(arrays, x) ==> x in r
    ensures arrays == [] ==> r == []
    ensures |arrays| == 1 ==> r == Dedup(arrays[0])
    ensures |arrays| > 0 ==> r == Dedup(Keep(arrays[|arrays| - 1], Intersection(arrays)))
  {
    if arrays == [] {
      return [];
    }
    r := FilterAll(arrays);
    CommonMeaning(arrays);
  }

  /** The loop of `findCommonElements`: each list in turn is filtered by the
      values common so far. */
  method FilterAll(arrays: seq<seq<int>>) returns (common: seq<int>)
    requires |arrays| > 0
    ensures common == Dedup(Keep(arrays[|arrays| - 1], Intersection(arrays)))
  {
    common := Dedup(arrays[0]);
    assert arrays[..1][0] == arrays[0];
    KeepAll(arrays[0], Intersection(arrays[..1]));
    var i := 1;
    while i < |arrays|
      invariant 1 <= i <= |arrays|
      invariant common == Dedup(Keep(arrays[i - 1], Intersection(arrays[..i])))
    {
      var has := Elements(common);
      CommonStep(arrays, i, has);
      common := Dedup(Keep(arrays[i], has));
      i := i + 1;
    }
    assert i == |arrays| && arrays[..i] == arrays;
    assert Intersection(arrays[..i]) == Intersection(arrays);
  }

  /** The last list filtered by the intersection, deduplicated, holds every
      common value once; for a single list it is that list deduplicated. */
  lemma CommonMeaning(arrays: seq<seq<int>>)
    requires |arrays| > 0
    ensures var r := Dedup(Keep(arrays[|arrays| - 1], Intersection(arrays)));
      && (forall x :: x in r <==> InAll(arrays, x))
      && (|arrays| == 1 ==> r == Dedup(arrays[0]))
  {
    KeepMembers(arrays[|arrays| - 1], Intersection(arrays));
    if |arrays| == 1 {
      KeepAll(arrays[0], Intersection(arrays));
    }
  }

  /** Filtering the next list by the current common values is filtering it by
      the intersection of one more list. */
  lemma CommonStep(arrays: seq<seq<int>>, i: nat, has: set<int>)
    requires 1 <= i < |arrays|
    requires has == Elements(Dedup(Keep(arrays[i - 1], Intersection(arrays[..i]))))
    ensures Keep(arrays[i], has) == Keep(arrays[i], Intersection(arrays[..i + 1]))
  {
    KeepMembers(arrays[i - 1], Intersection(arrays[..i]));
    forall k | 0 <= k < |arrays[i]| ensures arrays[i][k] in has <==> arrays[i][k] in Intersection(arrays[..i + 1]) {
      InAllSnoc(arrays, i, arrays[i][k]);
    }
    KeepAgree(arrays[i], has, Intersection(arrays[..i + 1]));
  }

  /** A value is in the first `i + 1` lists iff it is in the first `i` and
      in list `i`; being in the first `i` puts it in list `i - 1`. */
  lemma InAllSnoc(arrays: seq<seq<int>>, i: nat, x: int)
    requires 1 <= i < |arrays|
    ensures InAll(arrays[..i + 1], x) <==> InAll(arrays[..i], x) && x in arrays[i]
    ensures InAll(arrays[..i], x) ==> x in arrays[i - 1]
  {
    assert forall j :: 0 <= j < i ==> arrays[..i + 1][j] == arrays[..i][j];
    assert arrays[..i + 1][i] == arrays[i];
    assert arrays[..i][i - 1] == arrays[i - 1];
  }

  /** The example the repository's test checks: twenty lists that share
      exactly 3 and 4, with 3 met first in the last list. */
  method TwentyListsExample() returns (r: seq<int>)
    ensures r == [3, 4]
  {
    r := FindCommonElements(TwentyLists());
    TwentyListsCommon();
  }

  lemma TwentyListsCommon()
    ensures Dedup(Keep(TwentyLists()[19], Intersection(TwentyLists()))) == [3, 4]
  {
    TwentyListsShare();
    TwentyListsLast();
    KeepThreeFour();
    assert Distinct([3, 4]);
  }

  lemma TwentyListsLast()
    ensures TwentyLists()[19] == [3, 4, 42, 43]
  {
    var tail := seq(15, k => [3, 4, 14 + 2 * k, 15 + 2 * k]);
    assert tail[14] == [3, 4, 42, 43];
  }

  lemma KeepThreeFour()
    ensures Keep([3, 4, 42, 43], {3, 4}) == [3, 4]
  {
    var k: set<int> := {3, 4};
    assert Keep([3], k) == [3] by { assert [3][..0] == []; }
    assert Keep([3, 4], k) == [3, 4] by { assert [3, 4][..1] == [3]; }
    assert Keep([3, 4, 42], k) == [3, 4] by { assert [3, 4, 42][..2] == [3, 4]; }
    assert [3, 4, 42, 43][..3] == [3, 4, 42];
  }

  /** The test's input: five irregular lists, then fifteen lists
      `[3, 4, 14 + 2k, 15 + 2k]`. */
  function TwentyLists(): (r: seq<seq<int>>)
    ensures |r| == 20
  {
    [[1, 2, 3, 4, 5], [2, 3, 4, 6, 7], [3, 4, 8, 9], [3, 4, 10, 11], [4, 3, 12, 13]]
      + seq(15, k => [3, 4, 14 + 2 * k, 15 + 2 * k])
  }

  lemma TwentyListsShare()
    ensures Intersection(TwentyLists()) == {3, 4}
  {
    ThreeFourInAll();
    OnlyThreeFour();
    assert forall x :: x in Intersection(TwentyLists()) <==> x in {3, 4};
  }

  lemma ThreeFourInAll()
    ensures InAll(TwentyLists(), 3) && InAll(TwentyLists(), 4)
  {
    var input := TwentyLists();
    forall i | 0 <= i < 20 ensures 3 in input[i] && 4 in input[i] {
      if i >= 5 {
        assert input[i] == [3, 4, 14 + 2 * (i - 5), 15 + 2 * (i - 5)];
      } else {
        assert input[i][2] == 3 || input[i][1] == 3 || input[i][0] == 3;
      }
    }
  }

  lemma OnlyThreeFour()
    ensures forall x :: InAll(TwentyLists(), x) ==> x == 3 || x == 4
  {
    var input := TwentyLists();
    assert input[0] == [1, 2, 3, 4, 5] && input[1] == [2, 3, 4, 6, 7] && input[2] == [3, 4, 8, 9];
    forall x | InAll(input, x) ensures x == 3 || x == 4 {
      assert x in input[0] && x in input[1] && x in input[2];
    }
  }
}
