/** Stable sorting by an integer key, as the standard library's sort_by_key does it. */
module StableSort {

  /** Puts x behind all elements whose key is not greater. */
  function Insert<T>(x: T, s: seq<T>, key: T -> int): seq<T> {
    if s == [] || key(s[|s| - 1]) <= key(x) then s + [x]
    else Insert(x, s[..|s| - 1], key) + [s[|s| - 1]]
  }

  function Sort<T>(s: seq<T>, key: T -> int): seq<T> {
    if s == [] then [] else Insert(s[|s| - 1], Sort(s[..|s| - 1], key), key)
  }

  ghost predicate Sorted<T>(s: seq<T>, key: T -> int) {
    forall i, j | 0 <= i < j < |s| :: key(s[i]) <= key(s[j])
  }

  /** The elements with key k, in order. */
  ghost function WithKey<T>(s: seq<T>, key: T -> int, k: int): seq<T> {
    if s == [] then [] else
      WithKey(s[..|s| - 1], key, k) + (if key(s[|s| - 1]) == k then [s[|s| - 1]] else [])
  }

  lemma WithKeySnoc<T>(s: seq<T>, x: T, key: T -> int, k: int)
    ensures WithKey(s + [x], key, k) == WithKey(s, key, k) + (if key(x) == k then [x] else [])
  {
    assert (s + [x])[..|s|] == s;
  }

  lemma {:induction false} InsertKeeps<T>(x: T, s: seq<T>, key: T -> int)
    ensures multiset(Insert(x, s, key)) == multiset(s) + multiset{x}
    ensures forall i | 0 <= i < |Insert(x, s, key)| :: Insert(x, s, key)[i] == x || Insert(x, s, key)[i] in s
  {
    if s == [] || key(s[|s| - 1]) <= key(x) {
    } else {
      InsertKeeps(x, s[..|s| - 1], key);
      assert s == s[..|s| - 1] + [s[|s| - 1]];
    }
  }

  lemma {:induction false} InsertSorts<T>(x: T, s: seq<T>, key: T -> int)
    requires Sorted(s, key)
    ensures Sorted(Insert(x, s, key), key)
  {
    if s == [] || key(s[|s| - 1]) <= key(x) {
    } else {
      var front := s[..|s| - 1];
      InsertSorts(x, front, key);
      InsertKeeps(x, front, key);
    }
  }

  lemma {:induction false} InsertIsStable<T>(x: T, s: seq<T>, key: T -> int, k: int)
    requires Sorted(s, key)
    ensures WithKey(Insert(x, s, key), key, k) == WithKey(s, key, k) + (if key(x) == k then [x] else [])
  {
    if s == [] || key(s[|s| - 1]) <= key(x) {
      WithKeySnoc(s, x, key, k);
    } else {
      var front, last := s[..|s| - 1], s[|s| - 1];
      InsertIsStable(x, front, key, k);
      WithKeySnoc(Insert(x, front, key), last, key, k);
      assert key(last) == k ==> key(x) != k;
    }
  }

  /** Sorting orders by key, keeps every element, and keeps the order of elements with equal keys. */
  lemma {:induction false} SortFacts<T>(s: seq<T>, key: T -> int)
    ensures Sorted(Sort(s, key), key)
    ensures multiset(Sort(s, key)) == multiset(s)
    ensures forall k: int :: WithKey(Sort(s, key), key, k) == WithKey(s, key, k)
  {
    if s == [] {
    } else {
      var front, last := s[..|s| - 1], s[|s| - 1];
      SortFacts(front, key);
      InsertSorts(last, Sort(front, key), key);
      InsertKeeps(last, Sort(front, key), key);
      assert s == front + [last];
      forall k: int ensures WithKey(Sort(s, key), key, k) == WithKey(s, key, k) {
        InsertIsStable(last, Sort(front, key), key, k);
      }
    }
  }

  lemma SortMembers<T>(s: seq<T>, key: T -> int)
    ensures forall x :: x in Sort(s, key) <==> x in s
    ensures |Sort(s, key)| == |s|
  {
    SortFacts(s, key);
    forall x ensures x in Sort(s, key) <==> x in s {
      assert x in Sort(s, key) <==> x in multiset(Sort(s, key));
      assert x in s <==> x in multiset(s);
    }
    assert |multiset(Sort(s, key))| == |multiset(s)|;
  }

  lemma {:induction false} SortOfEqualKeys<T>(s: seq<T>, key: T -> int)
    requires forall i, j | 0 <= i < j < |s| :: key(s[i]) == key(s[j])
    ensures Sort(s, key) == s
  {
    if s == [] {
    } else {
      SortOfEqualKeys(s[..|s| - 1], key);
      assert s == s[..|s| - 1] + [s[|s| - 1]];
    }
  }

  // ---------- Sorting images ----------

  ghost function Map<S, T>(s: seq<S>, f: S -> T): seq<T> { seq(|s|, i requires 0 <= i < |s| => f(s[i])) }

  /** The image of x has the key of x. */
  ghost predicate Agrees<S, T>(x: S, f: S -> T, key: S -> int, image: T -> int) { key(x) == image(f(x)) }

  lemma {:induction false} InsertMaps<S, T>(x: S, s: seq<S>, f: S -> T, key: S -> int, image: T -> int)
    requires Agrees(x, f, key, image) && forall y | y in s :: Agrees(y, f, key, image)
    ensures Map(Insert(x, s, key), f) == Insert(f(x), Map(s, f), image)
  {
    assert s != [] ==> s[|s| - 1] in s;
    if s == [] || key(s[|s| - 1]) <= key(x) {
      assert Map(s + [x], f) == Map(s, f) + [f(x)];
    } else {
      var front, last := s[..|s| - 1], s[|s| - 1];
      assert Agrees(last, f, key, image);
      InsertMaps(x, front, f, key, image);
      assert Map(s, f)[..|s| - 1] == Map(front, f);
      assert Map(Insert(x, front, key) + [last], f) == Map(Insert(x, front, key), f) + [f(last)];
    }
  }

  /** Sorting images by their keys is sorting what they are images of. */
  lemma {:induction false} SortMaps<S, T>(s: seq<S>, f: S -> T, key: S -> int, image: T -> int)
    requires forall y | y in s :: Agrees(y, f, key, image)
    ensures Map(Sort(s, key), f) == Sort(Map(s, f), image)
  {
    if s == [] {
    } else {
      var front, last := s[..|s| - 1], s[|s| - 1];
      SortMaps(front, f, key, image);
      assert Map(s, f)[..|s| - 1] == Map(front, f);
      SortFacts(front, key);
      var sorted := Sort(front, key);
      forall y | y in sorted ensures Agrees(y, f, key, image) {
        assert y in multiset(sorted) && y in multiset(front);
        assert y in front;
      }
      assert last in s;
      InsertMaps(last, sorted, f, key, image);
    }
  }

  /** In order of the key, and of the numbers themselves where it is equal. */
  ghost predicate InOrder(s: seq<nat>, key: nat -> int) {
    forall i, j | 0 <= i < j < |s| :: key(s[i]) < key(s[j]) || (key(s[i]) == key(s[j]) && s[i] < s[j])
  }

  lemma {:induction false} InsertInOrder(x: nat, s: seq<nat>, key: nat -> int)
    requires InOrder(s, key) && forall i | 0 <= i < |s| :: s[i] < x
    ensures InOrder(Insert(x, s, key), key)
  {
    if s == [] || key(s[|s| - 1]) <= key(x) {
    } else {
      var front := s[..|s| - 1];
      InsertInOrder(x, front, key);
      InsertKeeps(x, front, key);
    }
  }

  lemma {:induction false} SortInOrder(s: seq<nat>, key: nat -> int)
    requires forall i, j | 0 <= i < j < |s| :: s[i] < s[j]
    ensures InOrder(Sort(s, key), key)
  {
    if s == [] {
    } else {
      var front, last := s[..|s| - 1], s[|s| - 1];
      SortInOrder(front, key);
      SortMembers(front, key);
      var sorted := Sort(front, key);
      forall i | 0 <= i < |sorted| ensures sorted[i] < last { assert sorted[i] in front; }
      InsertInOrder(last, sorted, key);
    }
  }
}
