/**
 Sorting by an integer key, largest key first, as Python's
 list.sort(key=..., reverse=True) does. Python computes the key of every
 element once, before sorting, and sorts the decorated elements; the sort is
 stable, so elements with equal keys keep their relative order.
 */
module Sorting {

  /** An element together with its precomputed sort key. */
  datatype Keyed<T> = Keyed(key: int, item: T)

  /** Non-increasing by key. */
  predicate SortedDesc<T>(s: seq<Keyed<T>>)
  {
    forall i, j :: 0 <= i < j < |s| ==> s[i].key >= s[j].key
  }

  /**
   Inserts x in front of the first element whose key is not larger than x's,
   so x lands ahead of every element with an equal key.
   */
  function Insert<T>(x: Keyed<T>, s: seq<Keyed<T>>): (r: seq<Keyed<T>>)
    requires SortedDesc(s)
    ensures SortedDesc(r)
    ensures multiset(r) == multiset(s) + multiset{x}
    ensures |r| == |s| + 1
  {
    if |s| == 0 || s[0].key <= x.key then
      [x] + s
    else
      var t := Insert(x, s[1..]);
      assert s == [s[0]] + s[1..];
      HeadBoundsInsert(x, s, t);
      [s[0]] + t
  }

  /** When x goes behind s[0], everything in the rest stays at or below s[0]'s key. */
  lemma HeadBoundsInsert<T>(x: Keyed<T>, s: seq<Keyed<T>>, t: seq<Keyed<T>>)
    requires |s| > 0 && SortedDesc(s) && x.key < s[0].key
    requires multiset(t) == multiset(s[1..]) + multiset{x}
    requires SortedDesc(t)
    ensures SortedDesc([s[0]] + t)
  {
    forall j | 0 <= j < |t|
      ensures t[j].key <= s[0].key
    {
      assert t[j] in multiset(t);
      if t[j] != x {
        assert t[j] in multiset(s[1..]);
        var i :| 0 <= i < |s[1..]| && s[1..][i] == t[j];
        assert s[i + 1] == t[j];
      }
    }
  }

  /** Stable insertion sort, largest key first. */
  function SortDesc<T>(s: seq<Keyed<T>>): (r: seq<Keyed<T>>)
    ensures SortedDesc(r)
    ensures multiset(r) == multiset(s)
    ensures |r| == |s|
  {
    if |s| == 0 then []
    else
      assert s == [s[0]] + s[1..];
      Insert(s[0], SortDesc(s[1..]))
  }

  /** The first element of the sorted sequence has the largest key of the input, and comes from it. */
  lemma {:induction false} HeadIsMaximal<T>(s: seq<Keyed<T>>)
    requires |s| > 0
    ensures SortDesc(s)[0] in s
    ensures forall x :: x in s ==> x.key <= SortDesc(s)[0].key
  {
    var r := SortDesc(s);
    assert r[0] in multiset(r);
    forall x | x in s
      ensures x.key <= r[0].key
    {
      assert x in multiset(s);
      assert x in multiset(r);
      var i :| 0 <= i < |r| && r[i] == x;
      if i > 0 {
        assert r[0].key >= r[i].key;
      }
    }
  }

  /** The elements of s whose key is k, in their order in s. */
  function WithKey<T>(s: seq<Keyed<T>>, k: int): seq<Keyed<T>>
  {
    if |s| == 0 then []
    else (if s[0].key == k then [s[0]] else []) + WithKey(s[1..], k)
  }

  lemma {:induction false} InsertKeepsTies<T>(x: Keyed<T>, s: seq<Keyed<T>>, k: int)
    requires SortedDesc(s)
    ensures WithKey(Insert(x, s), k) == (if x.key == k then [x] else []) + WithKey(s, k)
  {
    if |s| == 0 || s[0].key <= x.key {
      assert Insert(x, s) == [x] + s;
      assert ([x] + s)[1..] == s;
      assert WithKey([x] + s, k) == (if x.key == k then [x] else []) + WithKey(s, k);
    } else {
      var t := Insert(x, s[1..]);
      assert Insert(x, s) == [s[0]] + t;
      assert ([s[0]] + t)[1..] == t;
      var head := if s[0].key == k then [s[0]] else [];
      assert WithKey([s[0]] + t, k) == head + WithKey(t, k);
      assert WithKey(s, k) == head + WithKey(s[1..], k);
      InsertKeepsTies(x, s[1..], k);
      if x.key == k {
        assert head == [];
      }
    }
  }

  /**
   Stability: for every key value, the elements carrying that key appear in
   the sorted sequence in exactly the order they had in the input.
   */
  lemma {:induction false} SortIsStable<T>(s: seq<Keyed<T>>, k: int)
    ensures WithKey(SortDesc(s), k) == WithKey(s, k)
  {
    if |s| > 0 {
      SortIsStable(s[1..], k);
      InsertKeepsTies(s[0], SortDesc(s[1..]), k);
    }
  }

  /** The elements without their keys. */
  function Items<T>(s: seq<Keyed<T>>): (r: seq<T>)
    ensures |r| == |s|
  {
    if |s| == 0 then [] else [s[0].item] + Items(s[1..])
  }

  /** Dropping the keys of a permutation gives a permutation of the items. */
  lemma {:induction false} ItemsOfPermutation<T>(a: seq<Keyed<T>>, b: seq<Keyed<T>>)
    requires multiset(a) == multiset(b)
    ensures multiset(Items(a)) == multiset(Items(b))
    decreases |a|
  {
    if |a| > 0 {
      assert a[0] in multiset(b);
      var j :| 0 <= j < |b| && b[j] == a[0];
      RemoveMatched(a, b, j);
      ItemsOfPermutation(a[1..], b[..j] + b[j + 1..]);
      ItemsRemove(b, j);
      assert Items(a) == [a[0].item] + Items(a[1..]);
    }
  }

  /** Taking the first element of a off a and its match off b leaves permutations of each other. */
  lemma RemoveMatched<T>(a: seq<T>, b: seq<T>, j: nat)
    requires multiset(a) == multiset(b) && 0 < |a| && j < |b| && b[j] == a[0]
    ensures multiset(a[1..]) == multiset(b[..j] + b[j + 1..])
  {
    var l, r := b[..j], b[j + 1..];
    assert multiset(l + r) == multiset(l) + multiset(r);
    assert multiset(b) == multiset(l) + multiset{b[j]} + multiset(r) by {
      assert b == l + [b[j]] + r;
    }
    assert multiset(a) == multiset{a[0]} + multiset(a[1..]) by {
      assert a == [a[0]] + a[1..];
    }
    assert multiset(a[1..]) == multiset(a) - multiset{a[0]};
    assert multiset(l + r) == multiset(b) - multiset{b[j]};
  }

  /** Removing element j removes its item, once, from the items. */
  lemma ItemsRemove<T>(b: seq<Keyed<T>>, j: nat)
    requires j < |b|
    ensures multiset(Items(b)) == multiset(Items(b[..j] + b[j + 1..])) + multiset{b[j].item}
  {
    var l, r := b[..j], b[j + 1..];
    SplitAt(b, j);
    ItemsMultiset(l + [b[j]], r);
    ItemsMultiset(l, [b[j]]);
    ItemsMultiset(l, r);
    assert Items([b[j]]) == [b[j].item];
  }

  lemma SplitAt<T>(b: seq<T>, j: nat)
    requires j < |b|
    ensures b == b[..j] + [b[j]] + b[j + 1..]
  {
  }

  lemma ItemsMultiset<T>(a: seq<Keyed<T>>, b: seq<Keyed<T>>)
    ensures multiset(Items(a + b)) == multiset(Items(a)) + multiset(Items(b))
  {
    ItemsAppend(a, b);
  }

  lemma {:induction false} ItemsAppend<T>(a: seq<Keyed<T>>, b: seq<Keyed<T>>)
    ensures Items(a + b) == Items(a) + Items(b)
  {
    if |a| > 0 {
      assert (a + b)[1..] == a[1..] + b;
      ItemsAppend(a[1..], b);
    } else {
      assert a + b == b;
    }
  }

  /** Item i is the item of element i. */
  lemma {:induction false} ItemsAt<T>(s: seq<Keyed<T>>, i: nat)
    requires i < |s|
    ensures Items(s)[i] == s[i].item
  {
    if i > 0 {
      ItemsAt(s[1..], i - 1);
    }
  }
}
