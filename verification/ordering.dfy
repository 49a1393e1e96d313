/** Rule ordering: `Plugin.Trigger.__cmp__` and `Plugin.Alias.__cmp__`
    (muddrop.py lines 555-572) compare on `intSequence` alone, and the loader
    sorts each list with Python's `list.sort` (lines 673 and 716), which is
    stable. The result is the stable sort by sequence number, modelled here
    as an insertion sort, with a lemma that there is only one such order. */
module Ordering {

  ghost predicate SortedBy<T>(xs: seq<T>, key: T -> int) {
    forall i, j :: 0 <= i < j < |xs| ==> key(xs[i]) <= key(xs[j])
  }

  /** The elements of `xs` whose key is `k`, in their order in `xs`. */
  function WithKey<T>(xs: seq<T>, key: T -> int, k: int): seq<T>
    decreases |xs|
  {
    if |xs| == 0 then []
    else (if key(xs[0]) == k then [xs[0]] else []) + WithKey(xs[1..], key, k)
  }

  /** Puts `x` in front of the first element whose key is not smaller. */
  function Insert<T>(x: T, ys: seq<T>, key: T -> int): seq<T>
    decreases |ys|
  {
    if |ys| == 0 || key(x) <= key(ys[0]) then [x] + ys
    else [ys[0]] + Insert(x, ys[1..], key)
  }

  lemma {:induction false} InsertMultiset<T>(x: T, ys: seq<T>, key: T -> int)
    ensures multiset(Insert(x, ys, key)) == multiset{x} + multiset(ys)
    decreases |ys|
  {
    if |ys| > 0 && key(x) > key(ys[0]) {
      InsertMultiset(x, ys[1..], key);
      assert ys == [ys[0]] + ys[1..];
    }
  }

  lemma {:induction false} InsertKeepsSorted<T>(x: T, ys: seq<T>, key: T -> int)
    requires SortedBy(ys, key)
    ensures SortedBy(Insert(x, ys, key), key)
    decreases |ys|
  {
    var r := Insert(x, ys, key);
    if |ys| > 0 && key(x) > key(ys[0]) {
      var rest := Insert(x, ys[1..], key);
      InsertKeepsSorted(x, ys[1..], key);
      assert r == [ys[0]] + rest;
      InsertFirst(x, ys[1..], key);
      assert key(ys[0]) <= key(rest[0]) by {
        if |ys| > 1 { assert ys[1..][0] == ys[1]; }
      }
      forall i, j | 0 <= i < j < |r|
        ensures key(r[i]) <= key(r[j])
      {
        assert r[j] == rest[j - 1];
        if i > 0 {
          assert r[i] == rest[i - 1];
        } else if j > 1 {
          assert key(rest[0]) <= key(rest[j - 1]);
        }
      }
    }
  }

  /** What an insertion puts first. */
  lemma InsertFirst<T>(x: T, ys: seq<T>, key: T -> int)
    ensures |Insert(x, ys, key)| > 0
    ensures Insert(x, ys, key)[0] == x || (|ys| > 0 && Insert(x, ys, key)[0] == ys[0])
  {
  }

  /** Inserting puts the new element after none of its equal-keyed
      elements: it comes first among them. */
  lemma {:induction false} InsertWithKey<T>(x: T, ys: seq<T>, key: T -> int, k: int)
    ensures WithKey(Insert(x, ys, key), key, k) == (if key(x) == k then [x] else []) + WithKey(ys, key, k)
    decreases |ys|
  {
    var r := Insert(x, ys, key);
    var own := if key(x) == k then [x] else [];
    if |ys| == 0 || key(x) <= key(ys[0]) {
      assert r == [x] + ys;
      assert r[0] == x && r[1..] == ys;
    } else {
      var rest := Insert(x, ys[1..], key);
      assert r == [ys[0]] + rest;
      assert r[0] == ys[0] && r[1..] == rest;
      InsertWithKey(x, ys[1..], key, k);
      var head := if key(ys[0]) == k then [ys[0]] else [];
      assert WithKey(r, key, k) == head + (own + WithKey(ys[1..], key, k));
      assert head == [] || own == [];
      assert WithKey(ys, key, k) == head + WithKey(ys[1..], key, k);
    }
  }

  /** `list.sort()` of rules keyed by sequence number. */
  function SortBySequence<T>(xs: seq<T>, key: T -> int): (r: seq<T>)
    ensures SortedBy(r, key)
    ensures multiset(r) == multiset(xs)
    ensures forall k :: WithKey(r, key, k) == WithKey(xs, key, k)
    decreases |xs|
  {
    if |xs| == 0 then []
    else
      var rest := SortBySequence(xs[1..], key);
      SortStep(xs, rest, key);
      Insert(xs[0], rest, key)
  }

  /** Inserting the first element into the sorted rest sorts the whole. */
  lemma SortStep<T>(xs: seq<T>, rest: seq<T>, key: T -> int)
    requires |xs| > 0
    requires SortedBy(rest, key)
    requires multiset(rest) == multiset(xs[1..])
    requires forall k :: WithKey(rest, key, k) == WithKey(xs[1..], key, k)
    ensures SortedBy(Insert(xs[0], rest, key), key)
    ensures multiset(Insert(xs[0], rest, key)) == multiset(xs)
    ensures forall k :: WithKey(Insert(xs[0], rest, key), key, k) == WithKey(xs, key, k)
  {
    InsertKeepsSorted(xs[0], rest, key);
    InsertMultiset(xs[0], rest, key);
    HeadAndRest(xs);
    forall k ensures WithKey(Insert(xs[0], rest, key), key, k) == WithKey(xs, key, k) {
      InsertWithKey(xs[0], rest, key, k);
    }
  }

  lemma HeadAndRest<T>(xs: seq<T>)
    requires |xs| > 0
    ensures xs == [xs[0]] + xs[1..]
  {
  }

  lemma {:induction false} WithKeyMembers<T>(xs: seq<T>, key: T -> int, k: int)
    ensures forall y :: y in WithKey(xs, key, k) <==> y in xs && key(y) == k
    decreases |xs|
  {
    if |xs| > 0 {
      WithKeyMembers(xs[1..], key, k);
      assert xs == [xs[0]] + xs[1..];
    }
  }

  /** There is only one stable order: two sorted sequences that agree on the
      relative order of each key's elements are equal. Hence any stable sort
      (Python's included) yields `SortBySequence`. */
  lemma {:induction false} StableSortIsUnique<T>(a: seq<T>, b: seq<T>, key: T -> int)
    requires SortedBy(a, key) && SortedBy(b, key)
    requires forall k :: WithKey(a, key, k) == WithKey(b, key, k)
    ensures a == b
    decreases |a|
  {
    SameMembers(a, b, key);
    assert |a| > 0 ==> a[0] in a;
    assert |b| > 0 ==> b[0] in b;
    if |a| > 0 {
      SameFirst(a, b, key);
      SameAfterFirst(a, b, key);
      StableSortIsUnique(a[1..], b[1..], key);
      assert a == [a[0]] + a[1..] && b == [b[0]] + b[1..];
    }
  }

  lemma SameMembers<T>(a: seq<T>, b: seq<T>, key: T -> int)
    requires forall k :: WithKey(a, key, k) == WithKey(b, key, k)
    ensures forall y :: y in a <==> y in b
  {
    forall y
      ensures y in a <==> y in b
    {
      WithKeyMembers(a, key, key(y));
      WithKeyMembers(b, key, key(y));
    }
  }

  /** Two sorted sequences with the same elements of each key start alike. */
  lemma SameFirst<T>(a: seq<T>, b: seq<T>, key: T -> int)
    requires |a| > 0 && |b| > 0
    requires SortedBy(a, key) && SortedBy(b, key)
    requires forall k :: WithKey(a, key, k) == WithKey(b, key, k)
    ensures a[0] == b[0]
  {
    WithKeyMembers(a, key, key(b[0]));
    WithKeyMembers(b, key, key(b[0]));
    WithKeyMembers(a, key, key(a[0]));
    WithKeyMembers(b, key, key(a[0]));
    assert b[0] in WithKey(b, key, key(b[0]));
    assert a[0] in WithKey(a, key, key(a[0]));
    var m := key(a[0]);
    assert key(a[0]) == key(b[0]);
    assert a[0] == WithKey(a, key, m)[0] == WithKey(b, key, m)[0] == b[0];
  }

  lemma SameAfterFirst<T>(a: seq<T>, b: seq<T>, key: T -> int)
    requires |a| > 0 && |b| > 0 && a[0] == b[0]
    requires forall k :: WithKey(a, key, k) == WithKey(b, key, k)
    ensures forall k :: WithKey(a[1..], key, k) == WithKey(b[1..], key, k)
  {
    forall k
      ensures WithKey(a[1..], key, k) == WithKey(b[1..], key, k)
    {
      assert WithKey(a, key, k) == (if key(a[0]) == k then [a[0]] else []) + WithKey(a[1..], key, k);
      assert WithKey(b, key, k) == (if key(b[0]) == k then [b[0]] else []) + WithKey(b[1..], key, k);
      var p := if key(a[0]) == k then [a[0]] else [];
      assert (p + WithKey(a[1..], key, k))[|p|..] == WithKey(a[1..], key, k);
      assert (p + WithKey(b[1..], key, k))[|p|..] == WithKey(b[1..], key, k);
    }
  }

  /** Rules that share a sequence number keep their declaration order, and
      the sorted list is the only order with that property. */
  lemma SortIsTheStableOrder<T>(xs: seq<T>, key: T -> int, other: seq<T>)
    requires SortedBy(other, key)
    requires forall k :: WithKey(other, key, k) == WithKey(xs, key, k)
    ensures other == SortBySequence(xs, key)
  {
    StableSortIsUnique(other, SortBySequence(xs, key), key);
  }
}
