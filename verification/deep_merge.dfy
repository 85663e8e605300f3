/** `deepMerge` (src/lib/utils.ts): a copy of the first object into which
    the second one's entries are merged, concatenating arrays and merging
    nested objects. Objects are lists of entries in key order. */
module DeepMerge {
  import opened Basics

  datatype Json =
    | JNull
    | JBool(b: bool)
    | JNum(n: real)
    | JStr(s: string)
    | JArr(items: seq<Json>)
    | JObj(fields: seq<(string, Json)>)

  type Fields = seq<(string, Json)>

  /** `v instanceof Object` */
  predicate IsObject(v: Json) {
    v.JArr? || v.JObj?
  }

  function Keys(fs: Fields): (ks: seq<string>)
    ensures |ks| == |fs|
    ensures forall i :: 0 <= i < |fs| ==> ks[i] == fs[i].0
  {
    seq(|fs|, i requires 0 <= i < |fs| => fs[i].0)
  }

  /** The keys of one more entry. */
  lemma KeysSnoc(fs: Fields, n: nat)
    requires 0 < n <= |fs|
    ensures Keys(fs[..n]) == Keys(fs[..n - 1]) + [fs[n - 1].0]
  {
    var a, b := Keys(fs[..n]), Keys(fs[..n - 1]) + [fs[n - 1].0];
    assert |a| == |b|;
    forall i | 0 <= i < |a| ensures a[i] == b[i] {
    }
  }

  /** `obj[key]` (`None` for a missing key): the first entry for `key`. */
  function Lookup(fs: Fields, key: string): (r: Option<Json>)
    ensures r.None? <==> key !in Keys(fs)
  {
    if fs == [] then None
    else if fs[0].0 == key then Some(fs[0].1)
    else
      assert Keys(fs) == [fs[0].0] + Keys(fs[1..]);
      Lookup(fs[1..], key)
  }

  /** `obj[key] = v`: an existing key keeps its place, a new one goes last. */
  function Put(fs: Fields, key: string, v: Json): Fields {
    if fs == [] then [(key, v)]
    else if fs[0].0 == key then [(key, v)] + fs[1..]
    else [fs[0]] + Put(fs[1..], key, v)
  }

  /** After `obj[key] = v`, `key` finds `v` and every other key finds what it
      found before; an existing key keeps its place and a new key goes
      last. */
  lemma PutStores(fs: Fields, key: string, v: Json)
    ensures Lookup(Put(fs, key, v), key) == Some(v)
    ensures forall k :: k != key ==> Lookup(Put(fs, key, v), k) == Lookup(fs, k)
    ensures key in Keys(fs) ==> Keys(Put(fs, key, v)) == Keys(fs)
    ensures key !in Keys(fs) ==> Keys(Put(fs, key, v)) == Keys(fs) + [key]
  {
    PutFinds(fs, key, v);
    forall k | k != key ensures Lookup(Put(fs, key, v), k) == Lookup(fs, k) {
      PutKeeps(fs, key, v, k);
    }
    PutKeys(fs, key, v);
  }

  lemma {:induction false} PutFinds(fs: Fields, key: string, v: Json)
    ensures Lookup(Put(fs, key, v), key) == Some(v)
  {
    if fs != [] && fs[0].0 != key {
      PutFinds(fs[1..], key, v);
      assert Put(fs, key, v)[1..] == Put(fs[1..], key, v);
    }
  }

  lemma {:induction false} PutKeeps(fs: Fields, key: string, v: Json, k: string)
    requires k != key
    ensures Lookup(Put(fs, key, v), k) == Lookup(fs, k)
  {
    var r := Put(fs, key, v);
    if fs == [] {
      assert r == [(key, v)];
      assert r[1..] == [];
    } else if fs[0].0 == key {
      assert r[1..] == fs[1..];
    } else {
      PutKeeps(fs[1..], key, v, k);
      assert r[1..] == Put(fs[1..], key, v);
    }
  }

  lemma {:induction false} PutKeys(fs: Fields, key: string, v: Json)
    ensures key in Keys(fs) ==> Keys(Put(fs, key, v)) == Keys(fs)
    ensures key !in Keys(fs) ==> Keys(Put(fs, key, v)) == Keys(fs) + [key]
  {
    if fs != [] {
      KeysCons(fs[0], fs[1..]);
      assert [fs[0]] + fs[1..] == fs;
      if fs[0].0 == key {
        KeysCons((key, v), fs[1..]);
      } else {
        PutKeys(fs[1..], key, v);
        KeysCons(fs[0], Put(fs[1..], key, v));
      }
    }
  }

  lemma KeysCons(x: (string, Json), fs: Fields)
    ensures Keys([x] + fs) == [x.0] + Keys(fs)
  {
    var a, b := Keys([x] + fs), [x.0] + Keys(fs);
    assert |a| == |b|;
    forall i | 0 <= i < |a| ensures a[i] == b[i] {
      if i > 0 {
        assert ([x] + fs)[i] == fs[i - 1];
      }
    }
  }

  /** Where the source recurses or concatenates, the two values are of the
      same kind: an array meets an array, an object an object. The other
      pairings go through JavaScript's coercions of primitives and arrays
      into objects, which this model leaves out. Checked for the first `n`
      entries of the object `obj2`. */
  ghost predicate CompatibleUpTo(obj1: Fields, obj2: Json, n: nat)
    requires obj2.JObj? && n <= |obj2.fields|
    decreases obj2, n
  {
    n == 0 ||
      var (k, v2) := obj2.fields[n - 1];
      assert obj2.fields[n - 1] in obj2.fields;
      && CompatibleUpTo(obj1, obj2, n - 1)
      && match Lookup(obj1, k)
         case None => true
         case Some(v1) =>
           && (v2.JArr? ==> v1.JArr?)
           && (v2.JObj? ==> v1.JObj? && CompatibleUpTo(v1.fields, v2, |v2.fields|))
  }

  ghost predicate Compatible(obj1: Fields, obj2: Fields) {
    CompatibleUpTo(obj1, JObj(obj2), |obj2|)
  }

  /** The loop of `deepMerge` after the first `n` keys of the object `obj2`. */
  function MergeUpTo(obj1: Fields, obj2: Json, n: nat): Fields
    requires obj2.JObj? && n <= |obj2.fields| && CompatibleUpTo(obj1, obj2, n)
    decreases obj2, n
  {
    if n == 0 then obj1
    else
      var (k, v2) := obj2.fields[n - 1];
      assert obj2.fields[n - 1] in obj2.fields;
      var v1 := Lookup(obj1, k);
      var v :=
        if v2.JArr? && v1.Some? && v1.value.JArr? then JArr(v1.value.items + v2.items)
        else if IsObject(v2) && v1.Some? then JObj(MergeUpTo(v1.value.fields, v2, |v2.fields|))
        else v2;
      Put(MergeUpTo(obj1, obj2, n - 1), k, v)
  }

  /** After the first `n` keys of `obj2`, the result has the keys of both
      objects, keeps `obj1`'s value for every key not yet merged, lists
      `obj1`'s keys first and in order, and has distinct keys when `obj1`
      has. */
  lemma MergeUpToKeys(obj1: Fields, obj2: Json, n: nat)
    requires obj2.JObj? && n <= |obj2.fields| && CompatibleUpTo(obj1, obj2, n)
    ensures var r := MergeUpTo(obj1, obj2, n);
      && (forall k :: k in Keys(r) <==> k in Keys(obj1) || k in Keys(obj2.fields[..n]))
      && (forall k :: k !in Keys(obj2.fields[..n]) ==> Lookup(r, k) == Lookup(obj1, k))
      && |r| >= |obj1| && Keys(r)[..|obj1|] == Keys(obj1)
      && (Distinct(Keys(obj1)) ==> Distinct(Keys(r)))
  {
    MergeUpToKeySet(obj1, obj2, n);
    MergeUpToUntouched(obj1, obj2, n);
    MergeUpToOrder(obj1, obj2, n);
  }

  lemma {:induction false} MergeUpToKeySet(obj1: Fields, obj2: Json, n: nat)
    requires obj2.JObj? && n <= |obj2.fields| && CompatibleUpTo(obj1, obj2, n)
    decreases n
    ensures forall k :: k in Keys(MergeUpTo(obj1, obj2, n)) <==> k in Keys(obj1) || k in Keys(obj2.fields[..n])
  {
    if n > 0 {
      MergeUpToKeySet(obj1, obj2, n - 1);
      KeysSnoc(obj2.fields, n);
      PutKeys(MergeUpTo(obj1, obj2, n - 1), obj2.fields[n - 1].0, MergedValue(obj1, obj2, n));
    }
  }

  lemma {:induction false} MergeUpToUntouched(obj1: Fields, obj2: Json, n: nat)
    requires obj2.JObj? && n <= |obj2.fields| && CompatibleUpTo(obj1, obj2, n)
    decreases n
    ensures forall k :: k !in Keys(obj2.fields[..n]) ==> Lookup(MergeUpTo(obj1, obj2, n), k) == Lookup(obj1, k)
  {
    if n > 0 {
      MergeUpToUntouched(obj1, obj2, n - 1);
      KeysSnoc(obj2.fields, n);
      var p, key, v := MergeUpTo(obj1, obj2, n - 1), obj2.fields[n - 1].0, MergedValue(obj1, obj2, n);
      forall k | k !in Keys(obj2.fields[..n])
        ensures Lookup(MergeUpTo(obj1, obj2, n), k) == Lookup(obj1, k)
      {
        PutKeeps(p, key, v, k);
      }
    }
  }

  lemma {:induction false} MergeUpToOrder(obj1: Fields, obj2: Json, n: nat)
    requires obj2.JObj? && n <= |obj2.fields| && CompatibleUpTo(obj1, obj2, n)
    decreases n
    ensures var r := MergeUpTo(obj1, obj2, n);
      && |r| >= |obj1| && Keys(r)[..|obj1|] == Keys(obj1)
      && (Distinct(Keys(obj1)) ==> Distinct(Keys(r)))
  {
    if n > 0 {
      MergeUpToOrder(obj1, obj2, n - 1);
      var p, key, v := MergeUpTo(obj1, obj2, n - 1), obj2.fields[n - 1].0, MergedValue(obj1, obj2, n);
      var r := MergeUpTo(obj1, obj2, n);
      PutKeys(p, key, v);
      assert Keys(r)[..|p|] == Keys(p);
      assert Keys(r)[..|obj1|] == Keys(p)[..|obj1|];
    }
  }

  /** `deepMerge(obj1, obj2)`: `{ ...obj1 }`, then one assignment per key of
      `obj2`, in order. */
  function Merge(obj1: Fields, obj2: Fields): (r: Fields)
    requires Compatible(obj1, obj2)
    ensures obj2 == [] ==> r == obj1
    ensures forall k :: k in Keys(r) <==> k in Keys(obj1) || k in Keys(obj2)
    ensures |r| >= |obj1| && Keys(r)[..|obj1|] == Keys(obj1)
  {
    assert obj2[..|obj2|] == obj2;
    MergeUpToKeySet(obj1, JObj(obj2), |obj2|);
    MergeUpToOrder(obj1, JObj(obj2), |obj2|);
    MergeUpTo(obj1, JObj(obj2), |obj2|)
  }

  /** The merge has the keys of both objects, `obj1`'s first and in their
      order, keeps `obj1`'s value for every key `obj2` lacks, keeps keys
      distinct, and gives `obj1` back for an empty `obj2`. */
  lemma MergeKeys(obj1: Fields, obj2: Fields)
    requires Compatible(obj1, obj2)
    ensures var r := Merge(obj1, obj2);
      && (obj2 == [] ==> r == obj1)
      && (forall k :: k in Keys(r) <==> k in Keys(obj1) || k in Keys(obj2))
      && (forall k :: k !in Keys(obj2) ==> Lookup(r, k) == Lookup(obj1, k))
      && |r| >= |obj1| && Keys(r)[..|obj1|] == Keys(obj1)
      && (Distinct(Keys(obj1)) ==> Distinct(Keys(r)))
  {
    assert obj2[..|obj2|] == obj2;
    MergeUpToKeys(obj1, JObj(obj2), |obj2|);
  }

  /** The value the `n`-th step of the loop assigns: two arrays are
      concatenated, an object merges into the object already there, and
      anything else is copied. */
  function MergedValue(obj1: Fields, obj2: Json, n: nat): (v: Json)
    requires obj2.JObj? && 0 < n <= |obj2.fields| && CompatibleUpTo(obj1, obj2, n)
    ensures MergeUpTo(obj1, obj2, n) == Put(MergeUpTo(obj1, obj2, n - 1), obj2.fields[n - 1].0, v)
  {
    var (k, v2) := obj2.fields[n - 1];
    assert obj2.fields[n - 1] in obj2.fields;
    var v1 := Lookup(obj1, k);
    if v2.JArr? && v1.Some? && v1.value.JArr? then JArr(v1.value.items + v2.items)
    else if IsObject(v2) && v1.Some? then JObj(MergeUpTo(v1.value.fields, v2, |v2.fields|))
    else v2
  }

  /** What the `n`-th key of `obj2` finds right after its own step. */
  lemma MergeLast(obj1: Fields, obj2: Json, n: nat)
    requires obj2.JObj? && 0 < n <= |obj2.fields| && CompatibleUpTo(obj1, obj2, n)
    ensures var (key, v2) := obj2.fields[n - 1];
      var v1 := Lookup(obj1, key);
      var r := MergeUpTo(obj1, obj2, n);
      && (v2.JArr? && v1.Some? ==> v1.value.JArr? && Lookup(r, key) == Some(JArr(v1.value.items + v2.items)))
      && (v2.JObj? && v1.Some? ==>
            v1.value.JObj? && Compatible(v1.value.fields, v2.fields) &&
            Lookup(r, key) == Some(JObj(Merge(v1.value.fields, v2.fields))))
      && (!IsObject(v2) || v1.None? ==> Lookup(r, key) == Some(v2))
  {
    var (key, v2) := obj2.fields[n - 1];
    PutFinds(MergeUpTo(obj1, obj2, n - 1), key, MergedValue(obj1, obj2, n));
    if v2.JObj? {
      assert JObj(v2.fields) == v2;
    }
  }

  /** Steps for other keys leave what `key` finds unchanged. */
  lemma {:induction false} MergeSkips(obj1: Fields, obj2: Json, m: nat, n: nat, key: string)
    requires obj2.JObj? && m <= n <= |obj2.fields| && CompatibleUpTo(obj1, obj2, n)
    requires forall i :: m <= i < n ==> obj2.fields[i].0 != key
    decreases n
    ensures CompatibleUpTo(obj1, obj2, m)
    ensures Lookup(MergeUpTo(obj1, obj2, n), key) == Lookup(MergeUpTo(obj1, obj2, m), key)
  {
    if m < n {
      MergeSkips(obj1, obj2, m, n - 1, key);
      PutKeeps(MergeUpTo(obj1, obj2, n - 1), obj2.fields[n - 1].0, MergedValue(obj1, obj2, n), key);
    }
  }

  /** A key that finds a value has a first entry holding it. */
  lemma {:induction false} LookupIndex(fs: Fields, key: string, v: Json) returns (i: nat)
    requires Lookup(fs, key) == Some(v)
    ensures i < |fs| && fs[i] == (key, v)
    ensures forall j :: 0 <= j < i ==> fs[j].0 != key
  {
    if fs[0].0 == key {
      i := 0;
    } else {
      var i' := LookupIndex(fs[1..], key, v);
      i := i' + 1;
    }
  }

  /** The value the merge stores for a key of `obj2` (whose keys, as an
      object's, are distinct): two arrays are concatenated, an object merges
      into the object already there, and anything else replaces `obj1`'s
      value. */
  lemma MergeAt(obj1: Fields, obj2: Fields, key: string, v2: Json)
    requires Compatible(obj1, obj2) && Distinct(Keys(obj2))
    requires Lookup(obj2, key) == Some(v2)
    ensures var v1 := Lookup(obj1, key);
      && (v2.JArr? && v1.Some? ==> v1.value.JArr? && Lookup(Merge(obj1, obj2), key) == Some(JArr(v1.value.items + v2.items)))
      && (v2.JObj? && v1.Some? ==>
            v1.value.JObj? && Compatible(v1.value.fields, v2.fields) &&
            Lookup(Merge(obj1, obj2), key) == Some(JObj(Merge(v1.value.fields, v2.fields))))
      && (!IsObject(v2) || v1.None? ==> Lookup(Merge(obj1, obj2), key) == Some(v2))
  {
    var i := LookupIndex(obj2, key, v2);
    LaterKeysDiffer(obj2, i, key);
    MergeSkips(obj1, JObj(obj2), i + 1, |obj2|, key);
    MergeLast(obj1, JObj(obj2), i + 1);
    assert JObj(obj2).fields[i] == (key, v2);
    assert Merge(obj1, obj2) == MergeUpTo(obj1, JObj(obj2), |obj2|);
  }

  /** With distinct keys, no entry after the one for `key` has that key. */
  lemma LaterKeysDiffer(fs: Fields, i: nat, key: string)
    requires Distinct(Keys(fs)) && i < |fs| && fs[i].0 == key
    ensures forall j :: i + 1 <= j < |fs| ==> fs[j].0 != key
  {
    forall j | i + 1 <= j < |fs| ensures fs[j].0 != key {
      assert Keys(fs)[j] != Keys(fs)[i];
    }
  }
}
