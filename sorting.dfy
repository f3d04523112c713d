/** The result of Python's stable `sorted(xs, key=...)` and `list.sort(key=...)`.
    A stable sort has exactly one possible output for a given key and input,
    so insertion sort serves as its definition. A descending sort
    (`reverse=True`, which also keeps equal elements in input order) is the
    ascending sort on the negated key. */
module Sorting {

  /** Inserts `x` before the first element whose key is not smaller. */
  function Insert<T>(x: T, s: seq<T>, key: T -> real): (r: seq<T>)
    ensures |r| == |s| + 1
    ensures multiset(r) == multiset(s) + multiset{x}
  {
    if s == [] || key(x) <= key(s[0]) then [x] + s
    else
      assert s == [s[0]] + s[1..];
      [s[0]] + Insert(x, s[1..], key)
  }

  function SortBy<T>(xs: seq<T>, key: T -> real): (r: seq<T>)
    ensures |r| == |xs|
    ensures multiset(r) == multiset(xs)
  {
    assert xs != [] ==> xs == [xs[0]] + xs[1..];
    if xs == [] then [] else Insert(xs[0], SortBy(xs[1..], key), key)
  }

  ghost predicate SortedBy<T>(s: seq<T>, key: T -> real)
  {
    forall i, j :: 0 <= i < j < |s| ==> key(s[i]) <= key(s[j])
  }

  ghost predicate Distinct<T>(s: seq<T>)
  {
    forall i, j :: 0 <= i < j < |s| ==> s[i] != s[j]
  }

  /** The elements of `s` whose key is `k`, in their order in `s`. */
  function WithKey<T>(s: seq<T>, key: T -> real, k: real): seq<T>
  {
    if s == [] then [] else Keep(s[0], key, k) + WithKey(s[1..], key, k)
  }

  /** `[y]` when `y` has key `k`, otherwise empty. */
  function Keep<T>(y: T, key: T -> real, k: real): seq<T>
  {
    if key(y) == k then [y] else []
  }

  lemma {:induction false} InsertSorted<T>(x: T, s: seq<T>, key: T -> real)
    requires SortedBy(s, key)
    ensures SortedBy(Insert(x, s, key), key)
  {
    if s != [] && key(s[0]) < key(x) {
      var t := s[1..];
      var r := Insert(x, t, key);
      assert SortedBy(t, key);
      InsertSorted(x, t, key);
      InsertBounded(x, t, key, key(s[0]));
      var q := [s[0]] + r;
      assert Insert(x, s, key) == q;
      forall i, j | 0 <= i < j < |q| ensures key(q[i]) <= key(q[j]) {
        assert q[j] == r[j - 1];
        if i > 0 {
          assert q[i] == r[i - 1];
        }
      }
    }
  }

  /** A bound below `x` and every element of `s` is below every element
      after insertion. */
  lemma {:induction false} InsertBounded<T>(x: T, s: seq<T>, key: T -> real, b: real)
    requires b <= key(x) && forall i :: 0 <= i < |s| ==> b <= key(s[i])
    ensures forall i :: 0 <= i < |Insert(x, s, key)| ==> b <= key(Insert(x, s, key)[i])
  {
    if s != [] && key(s[0]) < key(x) {
      var t := s[1..];
      InsertBounded(x, t, key, b);
      var r := Insert(x, t, key);
      assert Insert(x, s, key) == [s[0]] + r;
      forall i | 0 < i <= |r| ensures b <= key(([s[0]] + r)[i]) {
        assert ([s[0]] + r)[i] == r[i - 1];
      }
    }
  }

  /** Inserting does not reorder the elements that share a key. */
  lemma {:induction false} InsertStable<T>(x: T, s: seq<T>, key: T -> real, k: real)
    ensures WithKey(Insert(x, s, key), key, k) == WithKey([x] + s, key, k)
  {
    WithKeyCons(x, s, key, k);
    if s != [] && key(s[0]) < key(x) {
      var t := s[1..];
      var r := Insert(x, t, key);
      var w := WithKey(t, key, k);
      var kx, k0 := Keep(x, key, k), Keep(s[0], key, k);
      assert Insert(x, s, key) == [s[0]] + r;
      WithKeyCons(s[0], r, key, k);
      InsertStable(x, t, key, k);
      WithKeyCons(x, t, key, k);
      assert WithKey(Insert(x, s, key), key, k) == k0 + (kx + w);
      assert WithKey(s, key, k) == k0 + w;
      assert WithKey([x] + s, key, k) == kx + (k0 + w);
      if kx == [] {
        assert k0 + (kx + w) == k0 + w == kx + (k0 + w);
      } else {
        assert k0 == [];
        assert k0 + (kx + w) == kx + w == kx + (k0 + w);
      }
    }
  }

  lemma WithKeyCons<T>(y: T, t: seq<T>, key: T -> real, k: real)
    ensures WithKey([y] + t, key, k) == Keep(y, key, k) + WithKey(t, key, k)
  {
    assert ([y] + t)[1..] == t;
  }

  lemma {:induction false} InsertDistinct<T>(x: T, s: seq<T>, key: T -> real)
    requires Distinct(s) && x !in s
    ensures Distinct(Insert(x, s, key))
  {
    if s != [] && key(s[0]) < key(x) {
      InsertDistinct(x, s[1..], key);
      var r := Insert(x, s[1..], key);
      forall i | 0 <= i < |r| ensures r[i] != s[0] {
        assert r[i] in multiset(r);
        assert r[i] == x || r[i] in s[1..];
      }
    }
  }

  lemma {:induction false} SortBySorted<T>(xs: seq<T>, key: T -> real)
    ensures SortedBy(SortBy(xs, key), key)
  {
    if xs != [] {
      SortBySorted(xs[1..], key);
      InsertSorted(xs[0], SortBy(xs[1..], key), key);
    }
  }

  lemma {:induction false} SortByStable<T>(xs: seq<T>, key: T -> real, k: real)
    ensures WithKey(SortBy(xs, key), key, k) == WithKey(xs, key, k)
  {
    if xs != [] {
      SortByStable(xs[1..], key, k);
      var r := SortBy(xs[1..], key);
      InsertStable(xs[0], r, key, k);
      assert ([xs[0]] + r)[1..] == r;
      assert xs == [xs[0]] + xs[1..];
    }
  }

  lemma {:induction false} SortByDistinct<T>(xs: seq<T>, key: T -> real)
    requires Distinct(xs)
    ensures Distinct(SortBy(xs, key))
  {
    if xs != [] {
      SortByDistinct(xs[1..], key);
      var r := SortBy(xs[1..], key);
      assert xs[0] !in xs[1..];
      assert xs[0] !in multiset(r);
      InsertDistinct(xs[0], r, key);
    }
  }
}
