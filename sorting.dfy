/** Python's sorted(s, key=key, reverse=True): a stable sort into non-increasing key order. */
module Sorting {

  /** Keys never increase from left to right. */
  predicate NonIncreasing<T>(s: seq<T>, key: T -> int)
  {
    forall i, j :: 0 <= i < j < |s| ==> key(s[i]) >= key(s[j])
  }

  /** Inserts x in front of the first element whose key is smaller, so after every element whose
      key is at least key(x): equal keys keep their order of arrival. */
  function Insert<T>(t: seq<T>, x: T, key: T -> int): seq<T>
  {
    if t == [] then [x]
    else if key(t[0]) < key(x) then [x] + t
    else [t[0]] + Insert(t[1..], x, key)
  }

  /** Inserts the elements one at a time, left to right. */
  function SortDesc<T>(s: seq<T>, key: T -> int): seq<T>
  {
    if s == [] then [] else Insert(SortDesc(s[..|s| - 1], key), s[|s| - 1], key)
  }

  /** The elements of s whose key is k, in the order of s. */
  function WithKey<T>(s: seq<T>, key: T -> int, k: int): seq<T>
  {
    if s == [] then [] else (if key(s[0]) == k then [s[0]] else []) + WithKey(s[1..], key, k)
  }

  lemma {:induction false} WithKeyAppend<T>(a: seq<T>, b: seq<T>, key: T -> int, k: int)
    ensures WithKey(a + b, key, k) == WithKey(a, key, k) + WithKey(b, key, k)
  {
    if a == [] {
      assert a + b == b;
    } else {
      var h := if key(a[0]) == k then [a[0]] else [];
      var x, y := WithKey(a[1..], key, k), WithKey(b, key, k);
      assert (a + b)[0] == a[0] && (a + b)[1..] == a[1..] + b;
      assert WithKey(a + b, key, k) == h + WithKey(a[1..] + b, key, k);
      WithKeyAppend(a[1..], b, key, k);
      assert WithKey(a, key, k) == h + x;
      assert h + (x + y) == (h + x) + y;
    }
  }

  lemma {:induction false} WithKeyNone<T>(t: seq<T>, key: T -> int, k: int)
    requires forall i :: 0 <= i < |t| ==> key(t[i]) < k
    ensures WithKey(t, key, k) == []
  {
    if t != [] {
      WithKeyNone(t[1..], key, k);
    }
  }

  lemma {:induction false} InsertBounded<T>(t: seq<T>, x: T, key: T -> int, c: int)
    requires forall i :: 0 <= i < |t| ==> key(t[i]) <= c
    requires key(x) <= c
    ensures forall i :: 0 <= i < |Insert(t, x, key)| ==> key(Insert(t, x, key)[i]) <= c
  {
    if t != [] && key(t[0]) >= key(x) {
      InsertBounded(t[1..], x, key, c);
    }
  }

  lemma {:induction false} InsertSorted<T>(t: seq<T>, x: T, key: T -> int)
    requires NonIncreasing(t, key)
    ensures NonIncreasing(Insert(t, x, key), key)
  {
    if t != [] && key(t[0]) >= key(x) {
      var r := Insert(t[1..], x, key);
      InsertSorted(t[1..], x, key);
      InsertBounded(t[1..], x, key, key(t[0]));
      var u := [t[0]] + r;
      forall i, j | 0 <= i < j < |u| ensures key(u[i]) >= key(u[j]) {
        assert u[j] == r[j - 1];
        if i > 0 {
          assert u[i] == r[i - 1];
        }
      }
    }
  }

  lemma {:induction false} InsertPermutation<T>(t: seq<T>, x: T, key: T -> int)
    ensures multiset(Insert(t, x, key)) == multiset(t) + multiset{x}
  {
    if t != [] && key(t[0]) >= key(x) {
      InsertPermutation(t[1..], x, key);
      assert t == [t[0]] + t[1..];
    }
  }

  lemma {:induction false} InsertWithKey<T>(t: seq<T>, x: T, key: T -> int, k: int)
    requires NonIncreasing(t, key)
    ensures WithKey(Insert(t, x, key), key, k) == WithKey(t, key, k) + (if key(x) == k then [x] else [])
  {
    if t == [] {
    } else if key(t[0]) < key(x) {
      var u := [x] + t;
      assert u[0] == x && u[1..] == t;
      assert WithKey(u, key, k) == (if key(x) == k then [x] else []) + WithKey(t, key, k);
      if key(x) == k {
        assert forall i :: 0 <= i < |t| ==> key(t[i]) <= key(t[0]);
        WithKeyNone(t, key, k);
      }
    } else {
      var r := Insert(t[1..], x, key);
      assert NonIncreasing(t[1..], key);
      InsertWithKey(t[1..], x, key, k);
      var u := [t[0]] + r;
      assert u[0] == t[0] && u[1..] == r;
      assert WithKey(u, key, k) == (if key(t[0]) == k then [t[0]] else []) + WithKey(r, key, k);
      assert WithKey(t, key, k) == (if key(t[0]) == k then [t[0]] else []) + WithKey(t[1..], key, k);
    }
  }

  /** The result is in non-increasing key order and is a permutation of the input. */
  lemma {:induction false} SortDescSortedPermutation<T>(s: seq<T>, key: T -> int)
    ensures NonIncreasing(SortDesc(s, key), key)
    ensures multiset(SortDesc(s, key)) == multiset(s)
    ensures |SortDesc(s, key)| == |s|
  {
    if s != [] {
      var init := s[..|s| - 1];
      SortDescSortedPermutation(init, key);
      InsertSorted(SortDesc(init, key), s[|s| - 1], key);
      InsertPermutation(SortDesc(init, key), s[|s| - 1], key);
      assert s == init + [s[|s| - 1]];
      assert |multiset(SortDesc(s, key))| == |multiset(s)|;
    }
  }

  /** Stability: for each key, the elements with that key appear in the same order as in the
      input. */
  lemma {:induction false} SortDescStable<T>(s: seq<T>, key: T -> int, k: int)
    ensures WithKey(SortDesc(s, key), key, k) == WithKey(s, key, k)
  {
    if s != [] {
      var init, x := s[..|s| - 1], s[|s| - 1];
      SortDescStable(init, key, k);
      SortDescSortedPermutation(init, key);
      InsertWithKey(SortDesc(init, key), x, key, k);
      assert s == init + [x];
      WithKeyAppend(init, [x], key, k);
      assert WithKey([x], key, k) == (if key(x) == k then [x] else []) by {
        assert [x][1..] == [];
      }
    }
  }

  /** An input that is already in order comes back as it is. */
  lemma {:induction false} SortDescSorted<T>(s: seq<T>, key: T -> int)
    requires NonIncreasing(s, key)
    ensures SortDesc(s, key) == s
  {
    if s != [] {
      var init, x := s[..|s| - 1], s[|s| - 1];
      assert NonIncreasing(init, key);
      SortDescSorted(init, key);
      InsertAtEnd(init, x, key);
      assert s == init + [x];
    }
  }

  lemma {:induction false} InsertAtEnd<T>(t: seq<T>, x: T, key: T -> int)
    requires forall i :: 0 <= i < |t| ==> key(t[i]) >= key(x)
    ensures Insert(t, x, key) == t + [x]
  {
    if t != [] {
      InsertAtEnd(t[1..], x, key);
      assert t == [t[0]] + t[1..];
    }
  }
}
