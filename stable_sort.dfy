/**
 * The ordering promised by Python's `list.sort(key=...)`: ascending by key, and
 * stable (elements with equal keys keep their relative order). The reference
 * definition is a functional insertion sort; the lemmas show that it sorts, that it
 * only permutes, that it is stable, and that ANY sorted stable rearrangement (such as
 * the one CPython's timsort produces) is equal to it.
 */
module StableSorting {

  /** `s` is in ascending order of `key`. */
  ghost predicate SortedBy<T>(s: seq<T>, key: T -> int) {
    forall i, j :: 0 <= i < j < |s| ==> key(s[i]) <= key(s[j])
  }

  /** The elements of `s` whose key is `k`, in the order in which they occur in `s`. */
  function KeyClass<T>(s: seq<T>, key: T -> int, k: int): (r: seq<T>)
    ensures |r| <= |s|
  {
    if s == [] then []
    else KeyClass(s[..|s| - 1], key, k) + (if key(s[|s| - 1]) == k then [s[|s| - 1]] else [])
  }

  /**
   * Inserts `x` into `s` after every element whose key is at most `x`'s key,
   * scanning from the back, as one pass of an insertion sort does.
   */
  function Insert<T>(x: T, s: seq<T>, key: T -> int): (r: seq<T>)
    ensures |r| == |s| + 1
  {
    if s == [] then [x]
    else if key(s[|s| - 1]) <= key(x) then s + [x]
    else Insert(x, s[..|s| - 1], key) + [s[|s| - 1]]
  }

  /** Stable insertion sort by `key`: the reference definition of the order `list.sort` produces. */
  function StableSort<T>(s: seq<T>, key: T -> int): (r: seq<T>)
    ensures |r| == |s|
  {
    if s == [] then []
    else Insert(s[|s| - 1], StableSort(s[..|s| - 1], key), key)
  }

  /** Inserting adds exactly `x`: the result is a rearrangement of `s` and `x`. */
  lemma {:induction false} InsertPermutes<T>(x: T, s: seq<T>, key: T -> int)
    ensures multiset(Insert(x, s, key)) == multiset(s) + multiset{x}
    decreases |s|
  {
    if s != [] && key(x) < key(s[|s| - 1]) {
      var init, last := s[..|s| - 1], s[|s| - 1];
      assert s == init + [last];
      InsertPermutes(x, init, key);
    }
  }

  /** Inserting into a sorted sequence keeps it sorted. */
  lemma {:induction false} InsertSorted<T>(x: T, s: seq<T>, key: T -> int)
    requires SortedBy(s, key)
    ensures SortedBy(Insert(x, s, key), key)
    decreases |s|
  {
    if s != [] && key(x) < key(s[|s| - 1]) {
      var init, last := s[..|s| - 1], s[|s| - 1];
      assert s == init + [last];
      InsertSorted(x, init, key);
      InsertPermutes(x, init, key);
      AppendLargerKeepsSorted(x, init, last, Insert(x, init, key), key);
    }
  }

  /**
   * Helper for `InsertSorted`: when `last` is larger than `x`, appending `last` to a
   * sorted rearrangement of `init` and `x` stays sorted.
   */
  lemma AppendLargerKeepsSorted<T>(x: T, init: seq<T>, last: T, r: seq<T>, key: T -> int)
    requires key(x) < key(last)
    requires multiset(r) == multiset(init) + multiset{x}
    requires SortedBy(init + [last], key) && SortedBy(r, key)
    ensures SortedBy(r + [last], key)
  {
    forall i | 0 <= i < |r| ensures key(r[i]) <= key(last) {
      var y := r[i];
      assert y in multiset(r);
      assert y in multiset(init) || y == x;
      if y in multiset(init) {
        var m :| 0 <= m < |init| && init[m] == y;
        assert (init + [last])[m] == y && (init + [last])[|init|] == last;
      }
    }
  }

  /** The sort only rearranges: the same sessions, each as often as before. */
  lemma {:induction false} StableSortPermutes<T>(s: seq<T>, key: T -> int)
    ensures multiset(StableSort(s, key)) == multiset(s)
    decreases |s|
  {
    if s != [] {
      var init := s[..|s| - 1];
      assert s == init + [s[|s| - 1]];
      StableSortPermutes(init, key);
      InsertPermutes(s[|s| - 1], StableSort(init, key), key);
    }
  }

  /** The sort's output is in ascending order of key. */
  lemma {:induction false} StableSortSorted<T>(s: seq<T>, key: T -> int)
    ensures SortedBy(StableSort(s, key), key)
    decreases |s|
  {
    if s != [] {
      StableSortSorted(s[..|s| - 1], key);
      InsertSorted(s[|s| - 1], StableSort(s[..|s| - 1], key), key);
    }
  }

  /** Inserting `x` adds `x` to the end of its own key class and leaves every other class unchanged. */
  lemma {:induction false} InsertKeyClass<T>(x: T, s: seq<T>, key: T -> int, k: int)
    ensures KeyClass(Insert(x, s, key), key, k) == KeyClass(s, key, k) + (if key(x) == k then [x] else [])
    decreases |s|
  {
    if s == [] {
      KeyClassSnoc([], x, key, k);
      assert [] + [x] == [x];
    } else if key(s[|s| - 1]) <= key(x) {
      KeyClassSnoc(s, x, key, k);
    } else {
      var init, last := s[..|s| - 1], s[|s| - 1];
      var r := Insert(x, init, key);
      assert Insert(x, s, key) == r + [last];
      assert init + [last] == s;
      InsertKeyClass(x, init, key, k);
      KeyClassStep(x, init, last, r, key, k);
    }
  }

  /** Helper for `InsertKeyClass`: appending an element larger than `x` on both sides keeps the classes related. */
  lemma KeyClassStep<T>(x: T, init: seq<T>, last: T, r: seq<T>, key: T -> int, k: int)
    requires key(x) < key(last)
    requires KeyClass(r, key, k) == KeyClass(init, key, k) + (if key(x) == k then [x] else [])
    ensures KeyClass(r + [last], key, k) == KeyClass(init + [last], key, k) + (if key(x) == k then [x] else [])
  {
    KeyClassSnoc(r, last, key, k);
    KeyClassSnoc(init, last, key, k);
    var c := KeyClass(init, key, k);
    if key(x) == k {
      assert KeyClass(init + [last], key, k) == c + [];
    } else if key(last) == k {
      assert KeyClass(r, key, k) == c + [];
    } else {
      assert KeyClass(r, key, k) == c + [];
    }
  }

  /** Stability: for every key, the elements carrying it appear in the sorted output in their input order. */
  lemma {:induction false} StableSortKeepsKeyClasses<T>(s: seq<T>, key: T -> int, k: int)
    ensures KeyClass(StableSort(s, key), key, k) == KeyClass(s, key, k)
    decreases |s|
  {
    if s != [] {
      var init, last := s[..|s| - 1], s[|s| - 1];
      StableSortKeepsKeyClasses(init, key, k);
      InsertKeyClass(last, StableSort(init, key), key, k);
    }
  }

  lemma KeyClassMember<T>(s: seq<T>, key: T -> int, i: int)
    requires 0 <= i < |s|
    ensures s[i] in KeyClass(s, key, key(s[i]))
    decreases |s|
  {
    if i < |s| - 1 {
      KeyClassMember(s[..|s| - 1], key, i);
    }
  }

  lemma KeyClassKeys<T>(s: seq<T>, key: T -> int, k: int, y: T)
    requires y in KeyClass(s, key, k)
    ensures key(y) == k && y in s
    decreases |s|
  {
    if y !in KeyClass(s[..|s| - 1], key, k) {
    } else {
      KeyClassKeys(s[..|s| - 1], key, k, y);
    }
  }

  lemma KeyClassSnoc<T>(s: seq<T>, x: T, key: T -> int, k: int)
    ensures KeyClass(s + [x], key, k) == KeyClass(s, key, k) + (if key(x) == k then [x] else [])
  {
    assert (s + [x])[..|s|] == s;
  }

  /** In a sorted sequence, every element of a key class has a key no larger than the last element's. */
  lemma KeyClassBelowLast<T>(s: seq<T>, key: T -> int, k: int, y: T)
    requires s != [] && SortedBy(s, key)
    requires y in KeyClass(s, key, k)
    ensures key(y) <= key(s[|s| - 1])
  {
    KeyClassKeys(s, key, k, y);
    var i :| 0 <= i < |s| && s[i] == y;
    if i < |s| - 1 {
      assert key(s[i]) <= key(s[|s| - 1]);
    }
  }

  /** The last element of a non-empty `s` is the last element of its key class. */
  lemma KeyClassLast<T>(s: seq<T>, key: T -> int)
    requires s != []
    ensures var c := KeyClass(s, key, key(s[|s| - 1])); c != [] && c[|c| - 1] == s[|s| - 1]
  {
  }

  /** The last elements of two sorted sequences with the same key classes are equal. */
  lemma SameLast<T>(t: seq<T>, u: seq<T>, key: T -> int)
    requires t != [] && u != []
    requires SortedBy(t, key) && SortedBy(u, key)
    requires KeyClass(t, key, key(t[|t| - 1])) == KeyClass(u, key, key(t[|t| - 1]))
    requires KeyClass(t, key, key(u[|u| - 1])) == KeyClass(u, key, key(u[|u| - 1]))
    ensures t[|t| - 1] == u[|u| - 1]
  {
    var x, y := t[|t| - 1], u[|u| - 1];
    KeyClassMember(t, key, |t| - 1);
    KeyClassMember(u, key, |u| - 1);
    KeyClassBelowLast(u, key, key(x), x);
    KeyClassBelowLast(t, key, key(y), y);
    KeyClassLast(t, key);
    KeyClassLast(u, key);
  }

  /** A sequence whose key classes are all those of the empty sequence is empty. */
  lemma NoClassesEmpty<T>(u: seq<T>, key: T -> int)
    requires forall k :: KeyClass(u, key, k) == []
    ensures u == []
  {
    if u != [] {
      KeyClassMember(u, key, 0);
      assert false;
    }
  }

  /** Removing the same last element from two sequences with equal key classes keeps them equal. */
  lemma DropLastKeepsClasses<T>(t: seq<T>, u: seq<T>, t': seq<T>, u': seq<T>, key: T -> int)
    requires t != [] && u != [] && t[|t| - 1] == u[|u| - 1]
    requires t' == t[..|t| - 1] && u' == u[..|u| - 1]
    requires forall k :: KeyClass(t, key, k) == KeyClass(u, key, k)
    ensures forall k :: KeyClass(t', key, k) == KeyClass(u', key, k)
  {
    var x := t[|t| - 1];
    forall k ensures KeyClass(t', key, k) == KeyClass(u', key, k) {
      var a, b := KeyClass(t', key, k), KeyClass(u', key, k);
      assert KeyClass(t, key, k) == a + (if key(x) == k then [x] else []);
      assert KeyClass(u, key, k) == b + (if key(x) == k then [x] else []);
      assert KeyClass(t, key, k) == KeyClass(u, key, k);
      if key(x) == k {
        assert a + [x] == b + [x];
        assert a == (a + [x])[..|a|] && b == (b + [x])[..|b|];
      } else {
        assert a + [] == b + [];
      }
    }
  }

  /** Sequences with equal last elements and equal prefixes before them are equal. */
  lemma EqualByLast<T>(t: seq<T>, u: seq<T>)
    requires t != [] && u != [] && t[|t| - 1] == u[|u| - 1] && t[..|t| - 1] == u[..|u| - 1]
    ensures t == u
  {
    assert t == t[..|t| - 1] + [t[|t| - 1]] && u == u[..|u| - 1] + [u[|u| - 1]];
  }

  /**
   * Two rearrangements that are both sorted by `key` and have the same key classes
   * are equal: a stable sort's output is unique.
   */
  lemma {:induction false} SortedStableUnique<T>(t: seq<T>, u: seq<T>, key: T -> int)
    requires SortedBy(t, key) && SortedBy(u, key)
    requires forall k :: KeyClass(t, key, k) == KeyClass(u, key, k)
    ensures t == u
    decreases |t|
  {
    if t == [] {
      NoClassesEmpty(u, key);
    } else if u == [] {
      NoClassesEmpty(t, key);
    } else {
      var x, y := t[|t| - 1], u[|u| - 1];
      assert KeyClass(t, key, key(x)) == KeyClass(u, key, key(x));
      assert KeyClass(t, key, key(y)) == KeyClass(u, key, key(y));
      SameLast(t, u, key);
      var t', u' := t[..|t| - 1], u[..|u| - 1];
      DropLastKeepsClasses(t, u, t', u', key);
      SortedStableUnique(t', u', key);
      EqualByLast(t, u);
    }
  }

  /**
   * Characterisation of `StableSort`: a rearrangement of `s` that is sorted by `key`
   * and keeps each key class in its input order is exactly `StableSort(s, key)`.
   */
  lemma StableSortCharacterized<T>(s: seq<T>, t: seq<T>, key: T -> int)
    requires SortedBy(t, key)
    requires forall k :: KeyClass(t, key, k) == KeyClass(s, key, k)
    ensures t == StableSort(s, key)
  {
    forall k ensures KeyClass(t, key, k) == KeyClass(StableSort(s, key), key, k) {
      StableSortKeepsKeyClasses(s, key, k);
    }
    StableSortSorted(s, key);
    SortedStableUnique(t, StableSort(s, key), key);
  }
}
