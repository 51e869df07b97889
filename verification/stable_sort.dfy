/** `list.sort(key=..., reverse=True)`: a stable sort into descending key
    order. Python's `reverse=True` keeps elements with equal keys in their
    original order, so the result is determined by three facts: it is in
    descending key order, it is a permutation of the input, and for every key
    value the elements carrying it appear in input order. */
module Sorting {

  predicate SortedDesc<T>(s: seq<T>, key: T -> real) {
    forall i, j :: 0 <= i < j < |s| ==> key(s[i]) >= key(s[j])
  }

  /** The elements of `s` whose key is `k`, in order. */
  function WithKey<T>(s: seq<T>, key: T -> real, k: real): seq<T>
    decreases |s|
  {
    if s == [] then []
    else (if key(s[0]) == k then [s[0]] else []) + WithKey(s[1..], key, k)
  }

  /** Equal-key runs keep their relative order. */
  ghost predicate StableFor<T>(r: seq<T>, s: seq<T>, key: T -> real) {
    forall k :: WithKey(r, key, k) == WithKey(s, key, k)
  }

  /** Puts `x` before the first element whose key is at most `key(x)`: `x`
      came earlier in the input than every element of `s`, so among equal keys
      it goes first. */
  function Insert<T>(x: T, s: seq<T>, key: T -> real): (r: seq<T>)
    requires SortedDesc(s, key)
    ensures SortedDesc(r, key)
    ensures multiset(r) == multiset(s) + multiset{x}
    ensures |r| == |s| + 1
    ensures forall i :: 0 <= i < |r| ==> r[i] == x || r[i] in s
    decreases |s|
  {
    if s == [] || key(s[0]) <= key(x) then [x] + s
    else
      var rest := Insert(x, s[1..], key);
      InsertBehind(x, s, key, rest);
      [s[0]] + rest
  }

  /** The step of `Insert` that keeps the head in front: the head's key is
      above `x`'s and above every key of the tail. */
  lemma InsertBehind<T>(x: T, s: seq<T>, key: T -> real, rest: seq<T>)
    requires SortedDesc(s, key) && s != [] && key(s[0]) > key(x)
    requires SortedDesc(rest, key)
    requires multiset(rest) == multiset(s[1..]) + multiset{x}
    requires forall i :: 0 <= i < |rest| ==> rest[i] == x || rest[i] in s[1..]
    ensures SortedDesc([s[0]] + rest, key)
    ensures multiset([s[0]] + rest) == multiset(s) + multiset{x}
    ensures forall i :: 0 <= i < |[s[0]] + rest| ==> ([s[0]] + rest)[i] == x || ([s[0]] + rest)[i] in s
  {
    var head := s[0];
    var tail := s[1..];
    assert s == [head] + tail;
    var r := [head] + rest;
    assert forall j :: 0 <= j < |rest| ==> key(head) >= key(rest[j]) by {
      forall j | 0 <= j < |rest|
        ensures key(head) >= key(rest[j])
      {
        if rest[j] != x {
          var m :| 0 <= m < |tail| && tail[m] == rest[j];
          assert s[m + 1] == rest[j];
        }
      }
    }
    assert SortedDesc(r, key) by {
      forall i, j | 0 <= i < j < |r|
        ensures key(r[i]) >= key(r[j])
      {
        assert r[j] == rest[j - 1];
        if i > 0 {
          assert r[i] == rest[i - 1];
        }
      }
    }
    forall i | 0 < i < |r|
      ensures r[i] == x || r[i] in s
    {
      assert r[i] == rest[i - 1];
    }
  }

  /** The sort: each element, from the last to the first, is inserted into
      the sorted remainder. */
  function SortDesc<T>(s: seq<T>, key: T -> real): (r: seq<T>)
    ensures SortedDesc(r, key)
    ensures multiset(r) == multiset(s)
    ensures |r| == |s|
    decreases |s|
  {
    if s == [] then []
    else
      assert s == [s[0]] + s[1..];
      Insert(s[0], SortDesc(s[1..], key), key)
  }

  lemma WithKeyCons<T>(y: T, t: seq<T>, key: T -> real, k: real)
    ensures WithKey([y] + t, key, k) == (if key(y) == k then [y] else []) + WithKey(t, key, k)
  {
    assert ([y] + t)[0] == y;
    assert ([y] + t)[1..] == t;
  }

  lemma {:induction false} WithKeyAppend<T>(a: seq<T>, b: seq<T>, key: T -> real, k: real)
    ensures WithKey(a + b, key, k) == WithKey(a, key, k) + WithKey(b, key, k)
    decreases |a|
  {
    if a != [] {
      var h := if key(a[0]) == k then [a[0]] else [];
      assert a + b == [a[0]] + (a[1..] + b);
      WithKeyCons(a[0], a[1..] + b, key, k);
      WithKeyAppend(a[1..], b, key, k);
      assert a == [a[0]] + a[1..];
      WithKeyCons(a[0], a[1..], key, k);
      assert h + (WithKey(a[1..], key, k) + WithKey(b, key, k)) == (h + WithKey(a[1..], key, k)) + WithKey(b, key, k);
    } else {
      assert a + b == b;
    }
  }

  lemma SortedTail<T>(s: seq<T>, key: T -> real)
    requires s != [] && SortedDesc(s, key)
    ensures SortedDesc(s[1..], key)
  {
    forall i, j | 0 <= i < j < |s| - 1
      ensures key(s[1..][i]) >= key(s[1..][j])
    {
      assert s[1..][i] == s[i + 1] && s[1..][j] == s[j + 1];
    }
  }

  lemma InsertUnfold<T>(x: T, s: seq<T>, key: T -> real)
    requires SortedDesc(s, key) && s != [] && key(s[0]) > key(x)
    ensures SortedDesc(s[1..], key)
    ensures Insert(x, s, key) == [s[0]] + Insert(x, s[1..], key)
  {
    SortedTail(s, key);
  }

  /** Inserting `x` into a sorted list puts it at the head of its key's run. */
  lemma {:induction false} InsertWithKey<T>(x: T, s: seq<T>, key: T -> real, k: real)
    requires SortedDesc(s, key)
    ensures WithKey(Insert(x, s, key), key, k) == WithKey([x] + s, key, k)
    decreases |s|
  {
    if s != [] && key(s[0]) > key(x) {
      InsertUnfold(x, s, key);
      InsertWithKey(x, s[1..], key, k);
      WithKeyBehind(x, s, Insert(x, s[1..], key), key, k);
    } else {
      InsertFront(x, s, key);
    }
  }

  lemma InsertFront<T>(x: T, s: seq<T>, key: T -> real)
    requires SortedDesc(s, key) && (s == [] || key(s[0]) <= key(x))
    ensures Insert(x, s, key) == [x] + s
  {
  }

  /** The head of `s`, whose key is above `x`'s, stays in front of the rest
      with `x` inserted. */
  lemma WithKeyBehind<T>(x: T, s: seq<T>, r: seq<T>, key: T -> real, k: real)
    requires s != [] && key(s[0]) > key(x)
    requires WithKey(r, key, k) == WithKey([x] + s[1..], key, k)
    ensures WithKey([s[0]] + r, key, k) == WithKey([x] + s, key, k)
  {
    WithKeySwap(x, s[0], s[1..], r, key, k);
    assert s == [s[0]] + s[1..];
  }

  /** An element whose key is above `x`'s can move in front of `x` without
      changing any key's run: the two never share one. */
  lemma WithKeySwap<T>(x: T, y: T, tail: seq<T>, r: seq<T>, key: T -> real, k: real)
    requires key(y) > key(x)
    requires WithKey(r, key, k) == WithKey([x] + tail, key, k)
    ensures WithKey([y] + r, key, k) == WithKey([x] + ([y] + tail), key, k)
  {
    var t := WithKey(tail, key, k);
    var hx := if key(x) == k then [x] else [];
    var hy := if key(y) == k then [y] else [];
    WithKeyCons(y, r, key, k);
    WithKeyCons(x, tail, key, k);
    WithKeyCons(y, tail, key, k);
    WithKeyCons(x, [y] + tail, key, k);
    ConcatSwap(hy, hx, t);
  }

  /** Two prefixes commute when one of them is empty. */
  lemma ConcatSwap<T>(a: seq<T>, b: seq<T>, t: seq<T>)
    requires a == [] || b == []
    ensures a + (b + t) == b + (a + t)
  {
    if a == [] {
      assert a + (b + t) == b + t == b + (a + t);
    } else {
      assert a + (b + t) == a + t == b + (a + t);
    }
  }

  /** The sort is stable. */
  lemma {:induction false} SortStable<T>(s: seq<T>, key: T -> real)
    ensures StableFor(SortDesc(s, key), s, key)
    decreases |s|
  {
    if s != [] {
      SortStable(s[1..], key);
      var sorted := SortDesc(s[1..], key);
      forall k
        ensures WithKey(SortDesc(s, key), key, k) == WithKey(s, key, k)
      {
        InsertWithKey(s[0], sorted, key, k);
        WithKeyAppend([s[0]], sorted, key, k);
        WithKeyAppend([s[0]], s[1..], key, k);
        assert s == [s[0]] + s[1..];
      }
    }
  }
}
