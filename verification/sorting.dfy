/**
 * `Array.prototype.sort` with a comparator, as the results page uses it.
 *
 * The sort JavaScript engines ship is stable, so the model is a stable
 * insertion sort. Its specification is given by a key: when the comparator
 * orders elements as their integer keys do, the output is sorted by key,
 * is a permutation of the input, and keeps the input order among elements
 * with equal keys. Any two sequences with those properties are equal, so the
 * model agrees with every stable sort.
 */
module Sorting {

  /** Inserts `x` just before the first element the comparator puts after it. */
  function Insert<T(==)>(x: T, s: seq<T>, cmp: (T, T) -> int): (r: seq<T>)
    ensures |r| == |s| + 1
    ensures multiset(r) == multiset(s) + multiset{x}
  {
    if |s| == 0 then [x]
    else if cmp(x, s[0]) < 0 then [x] + s
    else
      assert s == [s[0]] + s[1..];
      [s[0]] + Insert(x, s[1..], cmp)
  }

  /** `s.sort(cmp)`, as a stable insertion sort that inserts the elements in input order. */
  function SortWith<T(==)>(s: seq<T>, cmp: (T, T) -> int): (r: seq<T>)
    ensures |r| == |s|
    ensures multiset(r) == multiset(s)
  {
    if |s| == 0 then []
    else
      assert s == s[..|s| - 1] + [s[|s| - 1]];
      Insert(s[|s| - 1], SortWith(s[..|s| - 1], cmp), cmp)
  }

  /** `Array.prototype.filter`: the elements satisfying `p`, in order. */
  function Filter<T(==)>(s: seq<T>, p: T -> bool): (r: seq<T>)
    ensures |r| <= |s|
    ensures forall x :: x in r ==> x in s && p(x)
    ensures forall x :: x in s && p(x) ==> x in r
  {
    if |s| == 0 then []
    else (if p(s[0]) then [s[0]] else []) + Filter(s[1..], p)
  }

  // ---------------------------------------------------------------------------
  // Specification by key
  // ---------------------------------------------------------------------------

  /** The comparator orders the elements of `s` as their keys do. */
  predicate OrdersByKey<T(==)>(cmp: (T, T) -> int, key: T -> int, s: seq<T>) {
    forall a, b :: a in s && b in s ==> (cmp(a, b) < 0 <==> key(a) < key(b))
  }

  predicate SortedBy<T(==)>(s: seq<T>, key: T -> int) {
    forall i, j :: 0 <= i < j < |s| ==> key(s[i]) <= key(s[j])
  }

  /** The elements of `s` whose key is `k`, in order. */
  function WithKey<T(==)>(s: seq<T>, key: T -> int, k: int): (r: seq<T>)
    ensures |r| <= |s|
  {
    if |s| == 0 then []
    else (if key(s[0]) == k then [s[0]] else []) + WithKey(s[1..], key, k)
  }

  /** A sort by `key` is stable: among equal keys, the input order is kept. */
  ghost predicate KeepsTies<T>(r: seq<T>, s: seq<T>, key: T -> int) {
    forall k :: WithKey(r, key, k) == WithKey(s, key, k)
  }

  // ---------------------------------------------------------------------------
  // Lemmas
  // ---------------------------------------------------------------------------

  lemma {:induction false} FilterAppend<T>(a: seq<T>, b: seq<T>, p: T -> bool)
    ensures Filter(a + b, p) == Filter(a, p) + Filter(b, p)
  {
    if |a| > 0 {
      assert (a + b)[1..] == a[1..] + b;
      FilterAppend(a[1..], b, p);
    } else {
      assert a + b == b;
    }
  }

  lemma {:induction false} WithKeyAppend<T>(a: seq<T>, b: seq<T>, key: T -> int, k: int)
    ensures WithKey(a + b, key, k) == WithKey(a, key, k) + WithKey(b, key, k)
  {
    if |a| > 0 {
      assert (a + b)[1..] == a[1..] + b;
      WithKeyAppend(a[1..], b, key, k);
    } else {
      assert a + b == b;
    }
  }

  lemma {:induction false} WithKeyMembers<T>(s: seq<T>, key: T -> int, k: int)
    ensures forall x :: x in WithKey(s, key, k) ==> x in s && key(x) == k
    ensures WithKey(s, key, k) == [] <==> forall i :: 0 <= i < |s| ==> key(s[i]) != k
  {
    if |s| > 0 {
      WithKeyMembers(s[1..], key, k);
      assert forall i :: 1 <= i < |s| ==> s[i] == s[1..][i - 1];
    }
  }

  /** Filtering and taking one key commute. */
  lemma {:induction false} FilterWithKey<T>(s: seq<T>, p: T -> bool, key: T -> int, k: int)
    ensures WithKey(Filter(s, p), key, k) == Filter(WithKey(s, key, k), p)
  {
    if |s| > 0 {
      FilterWithKey(s[1..], p, key, k);
      var head := if p(s[0]) then [s[0]] else [];
      WithKeyAppend(head, Filter(s[1..], p), key, k);
      FilterAppend(if key(s[0]) == k then [s[0]] else [], WithKey(s[1..], key, k), p);
    }
  }

  lemma SortedTail<T>(s: seq<T>, key: T -> int)
    requires SortedBy(s, key) && |s| > 0
    ensures SortedBy(s[1..], key)
    ensures forall i :: 0 <= i < |s| ==> key(s[0]) <= key(s[i])
  {
  }

  lemma {:induction false} InsertSorted<T>(x: T, s: seq<T>, cmp: (T, T) -> int, key: T -> int)
    requires SortedBy(s, key)
    requires OrdersByKey(cmp, key, s + [x])
    ensures SortedBy(Insert(x, s, cmp), key)
    ensures |s| > 0 ==> Insert(x, s, cmp)[0] == x || Insert(x, s, cmp)[0] == s[0]
  {
    if |s| > 0 {
      assert x in s + [x] && s[0] in s + [x];
      if cmp(x, s[0]) >= 0 {
        SortedTail(s, key);
        assert OrdersByKey(cmp, key, s[1..] + [x]) by {
          assert forall a :: a in s[1..] + [x] ==> a in s + [x];
        }
        InsertSorted(x, s[1..], cmp, key);
        var r := Insert(x, s[1..], cmp);
        assert multiset(r) == multiset(s[1..]) + multiset{x};
        forall j | 0 <= j < |r|
          ensures key(s[0]) <= key(r[j])
        {
          assert r[j] in multiset(r);
          assert r[j] in multiset(s[1..]) + multiset{x};
        }
      }
    }
  }

  /** When `x` goes in front, its key is below every key of `s`, so `s` holds none of its key. */
  lemma InsertInFront<T>(x: T, s: seq<T>, key: T -> int, k: int)
    requires SortedBy(s, key)
    requires |s| > 0 && key(x) < key(s[0])
    ensures WithKey([x] + s, key, k) == WithKey(s, key, k) + (if key(x) == k then [x] else [])
  {
    assert ([x] + s)[1..] == s;
    if key(x) == k {
      SortedTail(s, key);
      WithKeyMembers(s, key, k);
    }
  }

  lemma AppendAssoc<T>(a: seq<T>, b: seq<T>, c: seq<T>)
    ensures a + (b + c) == (a + b) + c
  {
  }

  lemma WithKeyCons<T>(a: T, s: seq<T>, key: T -> int, k: int)
    ensures WithKey([a] + s, key, k) == (if key(a) == k then [a] else []) + WithKey(s, key, k)
  {
    assert ([a] + s)[1..] == s;
  }

  /** When `x` goes behind the head, the head's tie class is unaffected and `x` joins the rest. */
  lemma InsertBehind<T>(x: T, s: seq<T>, cmp: (T, T) -> int, key: T -> int, k: int)
    requires |s| > 0 && cmp(x, s[0]) >= 0
    requires WithKey(Insert(x, s[1..], cmp), key, k) == WithKey(s[1..], key, k) + (if key(x) == k then [x] else [])
    ensures WithKey(Insert(x, s, cmp), key, k) == WithKey(s, key, k) + (if key(x) == k then [x] else [])
  {
    var hx := if key(x) == k then [x] else [];
    var h0 := if key(s[0]) == k then [s[0]] else [];
    var r := Insert(x, s[1..], cmp);
    var w1 := WithKey(s[1..], key, k);
    assert Insert(x, s, cmp) == [s[0]] + r;
    WithKeyCons(s[0], r, key, k);
    assert WithKey(Insert(x, s, cmp), key, k) == h0 + (w1 + hx);
    WithKeyCons(s[0], s[1..], key, k);
    assert s == [s[0]] + s[1..];
    assert WithKey(s, key, k) == h0 + w1;
    AppendAssoc(h0, w1, hx);
  }

  lemma {:induction false} InsertWithKey<T>(x: T, s: seq<T>, cmp: (T, T) -> int, key: T -> int, k: int)
    requires SortedBy(s, key)
    requires OrdersByKey(cmp, key, s + [x])
    ensures WithKey(Insert(x, s, cmp), key, k) == WithKey(s, key, k) + (if key(x) == k then [x] else [])
  {
    if |s| > 0 {
      assert x in s + [x] && s[0] in s + [x];
      if cmp(x, s[0]) < 0 {
        InsertInFront(x, s, key, k);
      } else {
        assert OrdersByKey(cmp, key, s[1..] + [x]) by {
          assert forall a :: a in s[1..] + [x] ==> a in s + [x];
        }
        SortedTail(s, key);
        InsertWithKey(x, s[1..], cmp, key, k);
        InsertBehind(x, s, cmp, key, k);
      }
    }
  }

  /** One step of the sort: the last element is inserted into the sorted rest, and the comparator still orders by key. */
  lemma SortStep<T>(s: seq<T>, cmp: (T, T) -> int, key: T -> int)
    requires OrdersByKey(cmp, key, s) && |s| > 0
    ensures OrdersByKey(cmp, key, s[..|s| - 1])
    ensures OrdersByKey(cmp, key, SortWith(s[..|s| - 1], cmp) + [s[|s| - 1]])
    ensures SortWith(s, cmp) == Insert(s[|s| - 1], SortWith(s[..|s| - 1], cmp), cmp)
  {
    var init := s[..|s| - 1];
    var x := s[|s| - 1];
    var sorted := SortWith(init, cmp);
    assert forall a :: a in init ==> a in s;
    forall a | a in sorted + [x]
      ensures a in s
    {
      if a in sorted {
        assert a in multiset(sorted);
      }
    }
  }

  lemma {:induction false} SortWithSortedBy<T>(s: seq<T>, cmp: (T, T) -> int, key: T -> int)
    requires OrdersByKey(cmp, key, s)
    ensures SortedBy(SortWith(s, cmp), key)
  {
    if |s| > 0 {
      SortStep(s, cmp, key);
      SortWithSortedBy(s[..|s| - 1], cmp, key);
      InsertSorted(s[|s| - 1], SortWith(s[..|s| - 1], cmp), cmp, key);
    }
  }

  /** The tie class of `k` in `s` is that of all but its last element, then the last element if it has key `k`. */
  lemma WithKeySnoc<T>(s: seq<T>, key: T -> int, k: int)
    requires |s| > 0
    ensures WithKey(s, key, k) == WithKey(s[..|s| - 1], key, k) + (if key(s[|s| - 1]) == k then [s[|s| - 1]] else [])
  {
    var x := s[|s| - 1];
    WithKeyAppend(s[..|s| - 1], [x], key, k);
    assert [x][1..] == [];
    assert s == s[..|s| - 1] + [x];
  }

  lemma {:induction false} SortWithKeepsTies<T>(s: seq<T>, cmp: (T, T) -> int, key: T -> int)
    requires OrdersByKey(cmp, key, s)
    ensures KeepsTies(SortWith(s, cmp), s, key)
  {
    if |s| > 0 {
      var init := s[..|s| - 1];
      SortStep(s, cmp, key);
      SortWithSortedBy(init, cmp, key);
      SortWithKeepsTies(init, cmp, key);
      var x := s[|s| - 1];
      forall k
        ensures WithKey(SortWith(s, cmp), key, k) == WithKey(s, key, k)
      {
        InsertWithKey(x, SortWith(init, cmp), cmp, key, k);
        WithKeySnoc(s, key, k);
      }
    }
  }

  /** Sorting yields a sequence sorted by key that keeps equal keys in input order. */
  lemma SortWithSorted<T>(s: seq<T>, cmp: (T, T) -> int, key: T -> int)
    requires OrdersByKey(cmp, key, s)
    ensures SortedBy(SortWith(s, cmp), key)
    ensures KeepsTies(SortWith(s, cmp), s, key)
  {
    SortWithSortedBy(s, cmp, key);
    SortWithKeepsTies(s, cmp, key);
  }


  /** Two sequences sorted by `key` that agree on every key's elements, in order, are equal. */
  lemma {:induction false} SortedUnique<T>(a: seq<T>, b: seq<T>, key: T -> int)
    requires SortedBy(a, key) && SortedBy(b, key)
    requires KeepsTies(a, b, key)
    ensures a == b
  {
    if |a| == 0 || |b| == 0 {
      if |a| > 0 {
        WithKeyMembers(a, key, key(a[0]));
        assert WithKey(b, key, key(a[0])) == [];
        assert false;
      }
      if |b| > 0 {
        WithKeyMembers(b, key, key(b[0]));
        assert WithKey(a, key, key(b[0])) == [];
        assert false;
      }
    } else {
      SortedTail(a, key);
      SortedTail(b, key);
      var ka, kb := key(a[0]), key(b[0]);
      WithKeyMembers(a, key, kb);
      WithKeyMembers(b, key, ka);
      assert ka == kb;
      assert WithKey(a, key, ka)[0] == a[0];
      assert WithKey(b, key, ka)[0] == b[0];
      forall k
        ensures WithKey(a[1..], key, k) == WithKey(b[1..], key, k)
      {
        assert WithKey(a, key, k) == WithKey(b, key, k);
        if k == ka {
          var wa, wb := WithKey(a[1..], key, k), WithKey(b[1..], key, k);
          assert WithKey(a, key, k) == [a[0]] + wa;
          assert WithKey(b, key, k) == [b[0]] + wb;
          assert wa == ([a[0]] + wa)[1..];
          assert wb == ([b[0]] + wb)[1..];
        } else {
          assert WithKey(a, key, k) == WithKey(a[1..], key, k);
          assert WithKey(b, key, k) == WithKey(b[1..], key, k);
        }
      }
      SortedUnique(a[1..], b[1..], key);
      assert a == [a[0]] + a[1..] && b == [b[0]] + b[1..];
    }
  }

  /**
   * The model is the stable sort: any sequence sorted by key that keeps the
   * input order among equal keys is what `SortWith` returns.
   */
  lemma StableSortIsSortWith<T>(s: seq<T>, r: seq<T>, cmp: (T, T) -> int, key: T -> int)
    requires OrdersByKey(cmp, key, s)
    requires SortedBy(r, key) && KeepsTies(r, s, key)
    ensures SortWith(s, cmp) == r
  {
    SortWithSorted(s, cmp, key);
    SortedUnique(SortWith(s, cmp), r, key);
  }

  /** Sorting an already sorted sequence changes nothing. */
  lemma SortSortedIsIdentity<T>(s: seq<T>, cmp: (T, T) -> int, key: T -> int)
    requires OrdersByKey(cmp, key, s)
    requires SortedBy(s, key)
    ensures SortWith(s, cmp) == s
  {
    StableSortIsSortWith(s, s, cmp, key);
  }

  /** Filtering a sorted sequence keeps it sorted. */
  lemma {:induction false} FilterSorted<T>(s: seq<T>, p: T -> bool, key: T -> int)
    requires SortedBy(s, key)
    ensures SortedBy(Filter(s, p), key)
  {
    if |s| > 0 {
      SortedTail(s, key);
      FilterSorted(s[1..], p, key);
      var rest := Filter(s[1..], p);
      forall j | 0 <= j < |rest|
        ensures key(s[0]) <= key(rest[j])
      {
        assert rest[j] in s[1..];
        var i :| 0 <= i < |s| - 1 && s[1..][i] == rest[j];
        assert s[i + 1] == rest[j];
      }
    }
  }

  /** A filter and the filter by the opposite test split a sequence between them. */
  lemma {:induction false} FilterPartition<T>(s: seq<T>, p: T -> bool, q: T -> bool)
    requires forall x :: q(x) == !p(x)
    ensures multiset(Filter(s, p)) + multiset(Filter(s, q)) == multiset(s)
    ensures |Filter(s, p)| + |Filter(s, q)| == |s|
  {
    if |s| > 0 {
      FilterPartition(s[1..], p, q);
      assert s == [s[0]] + s[1..];
    }
  }

  /** A filter nothing passes is empty. */
  lemma {:induction false} FilterNone<T>(s: seq<T>, p: T -> bool)
    requires forall x :: x in s ==> !p(x)
    ensures Filter(s, p) == []
  {
    if |s| > 0 {
      assert forall x :: x in s[1..] ==> x in s;
      FilterNone(s[1..], p);
    }
  }

  /** Filtering out nothing changes nothing. */
  lemma {:induction false} FilterAll<T>(s: seq<T>, p: T -> bool)
    requires forall i :: 0 <= i < |s| ==> p(s[i])
    ensures Filter(s, p) == s
  {
    if |s| > 0 {
      FilterAll(s[1..], p);
      assert s == [s[0]] + s[1..];
    }
  }

  /** Sorting then filtering is filtering then sorting. */
  lemma FilterSortCommute<T>(s: seq<T>, p: T -> bool, cmp: (T, T) -> int, key: T -> int)
    requires OrdersByKey(cmp, key, s)
    ensures Filter(SortWith(s, cmp), p) == SortWith(Filter(s, p), cmp)
  {
    var sorted := SortWith(s, cmp);
    SortWithSorted(s, cmp, key);
    FilterSorted(sorted, p, key);
    forall k
      ensures WithKey(Filter(sorted, p), key, k) == WithKey(Filter(s, p), key, k)
    {
      FilterWithKey(sorted, p, key, k);
      FilterWithKey(s, p, key, k);
    }
    StableSortIsSortWith(Filter(s, p), Filter(sorted, p), cmp, key);
  }
}
