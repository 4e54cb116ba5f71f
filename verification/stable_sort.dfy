/** `Collections.sort` with a comparator that orders by an integer key: a
    stable sort, so elements with equal keys keep their relative order. */
module StableSort {

  predicate SortedBy<T>(s: seq<T>, key: T -> int) {
    forall i, j :: 0 <= i < j < |s| ==> key(s[i]) <= key(s[j])
  }

  /** The elements of `s` whose key is `k`, in their order in `s`. */
  function WithKey<T>(s: seq<T>, key: T -> int, k: int): seq<T>
    decreases |s|
  {
    if |s| == 0 then []
    else WithKey(s[..|s| - 1], key, k) + (if key(s[|s| - 1]) == k then [s[|s| - 1]] else [])
  }

  lemma WithKeySnoc<T>(s: seq<T>, e: T, key: T -> int, k: int)
    ensures WithKey(s + [e], key, k) == WithKey(s, key, k) + (if key(e) == k then [e] else [])
  {
    assert (s + [e])[..|s|] == s;
  }

  lemma SortedSnoc<T>(s: seq<T>, e: T, key: T -> int)
    requires SortedBy(s, key)
    requires forall i :: 0 <= i < |s| ==> key(s[i]) <= key(e)
    ensures SortedBy(s + [e], key)
  {
  }

  /** Insert `x` into a sorted sequence after every element whose key is not
      larger than its own. */
  function Insert<T>(s: seq<T>, x: T, key: T -> int): (r: seq<T>)
    requires SortedBy(s, key)
    ensures SortedBy(r, key)
    ensures multiset(r) == multiset(s) + multiset{x}
    decreases |s|
  {
    if |s| == 0 || key(s[|s| - 1]) <= key(x) then
      SortedSnoc(s, x, key);
      s + [x]
    else
      var init, last := s[..|s| - 1], s[|s| - 1];
      var r' := Insert(init, x, key);
      assert s == init + [last];
      InsertBounded(init, x, key, r', key(last));
      SortedSnoc(r', last, key);
      r' + [last]
  }

  lemma InsertBounded<T>(init: seq<T>, x: T, key: T -> int, r': seq<T>, bound: int)
    requires multiset(r') == multiset(init) + multiset{x}
    requires key(x) <= bound
    requires forall i :: 0 <= i < |init| ==> key(init[i]) <= bound
    ensures forall i :: 0 <= i < |r'| ==> key(r'[i]) <= bound
  {
    forall i | 0 <= i < |r'|
      ensures key(r'[i]) <= bound
    {
      assert r'[i] in multiset(r');
      if r'[i] != x {
        assert r'[i] in multiset(init);
        var j :| 0 <= j < |init| && init[j] == r'[i];
      }
    }
  }

  /** Inserting keeps the elements of every other key in place and puts `x`
      last among the elements of its own key. */
  lemma {:induction false} InsertIsStable<T>(s: seq<T>, x: T, key: T -> int, k: int)
    requires SortedBy(s, key)
    ensures WithKey(Insert(s, x, key), key, k) == WithKey(s, key, k) + (if key(x) == k then [x] else [])
    decreases |s|
  {
    if |s| == 0 || key(s[|s| - 1]) <= key(x) {
      WithKeySnoc(s, x, key, k);
    } else {
      var init, last := s[..|s| - 1], s[|s| - 1];
      InsertPastLast(s, x, key);
      InsertIsStable(init, x, key, k);
      var r' := Insert(init, x, key);
      WithKeySnoc(r', last, key, k);
      WithKeySnoc(init, last, key, k);
      assert s == init + [last];
      SwapEmpty(WithKey(init, key, k), if key(x) == k then [x] else [], if key(last) == k then [last] else []);
    }
  }

  /** An element smaller than the last one goes before it. */
  lemma InsertPastLast<T>(s: seq<T>, x: T, key: T -> int)
    requires SortedBy(s, key) && |s| > 0 && key(x) < key(s[|s| - 1])
    ensures SortedBy(s[..|s| - 1], key)
    ensures Insert(s, x, key) == Insert(s[..|s| - 1], x, key) + [s[|s| - 1]]
  {
  }

  lemma SwapEmpty<T>(w: seq<T>, a: seq<T>, b: seq<T>)
    requires a == [] || b == []
    ensures w + a + b == w + b + a
  {
    if a == [] {
      assert w + a == w;
    } else {
      assert w + b == w;
    }
  }

  /** The stable sort by key: sorted, a permutation, and stable. */
  function SortBy<T>(s: seq<T>, key: T -> int): (r: seq<T>)
    ensures SortedBy(r, key)
    ensures multiset(r) == multiset(s)
    ensures forall k :: WithKey(r, key, k) == WithKey(s, key, k)
    decreases |s|
  {
    if |s| == 0 then []
    else
      var init, last := s[..|s| - 1], s[|s| - 1];
      assert s == init + [last];
      var sorted := SortBy(init, key);
      var r := Insert(sorted, last, key);
      assert forall k :: WithKey(r, key, k) == WithKey(s, key, k) by {
        forall k
          ensures WithKey(r, key, k) == WithKey(s, key, k)
        {
          InsertIsStable(sorted, last, key, k);
          WithKeySnoc(init, last, key, k);
        }
      }
      r
  }
}
