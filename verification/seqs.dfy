/** Order-preserving selections from a list: the shape of every Python loop
    in the pipeline that walks a list and appends some of its elements. */
module Seqs {
  import opened Wrappers

  /** `a` can be obtained from `b` by deleting elements. */
  predicate IsSubsequence<T(==)>(a: seq<T>, b: seq<T>)
    decreases |b|
  {
    a == [] || (b != [] && ((a[0] == b[0] && IsSubsequence(a[1..], b[1..])) || IsSubsequence(a, b[1..])))
  }

  lemma {:induction false} SubsequenceRefl<T>(a: seq<T>)
    ensures IsSubsequence(a, a)
    decreases |a|
  {
    if a != [] {
      SubsequenceRefl(a[1..]);
    }
  }

  /** Deleting elements adds none. */
  lemma {:induction false} SubsequenceMember<T>(a: seq<T>, b: seq<T>, x: T)
    requires IsSubsequence(a, b) && x in a
    ensures x in b
    decreases |b|
  {
    if a[0] == b[0] && IsSubsequence(a[1..], b[1..]) {
      if x != a[0] {
        assert x in a[1..];
        SubsequenceMember(a[1..], b[1..], x);
      }
    } else {
      SubsequenceMember(a, b[1..], x);
    }
  }

  /** `[x for x in s if f(x)]`. */
  function Filter<T(!new)>(s: seq<T>, f: T -> bool): (r: seq<T>)
    ensures |r| <= |s|
    ensures forall x :: x in r <==> x in s && f(x)
    ensures forall x :: multiset(r)[x] == (if f(x) then multiset(s)[x] else 0)
    ensures IsSubsequence(r, s)
    decreases |s|
  {
    if s == [] then []
    else
      var rest := Filter(s[1..], f);
      assert s == [s[0]] + s[1..];
      if f(s[0]) then
        assert ([s[0]] + rest)[1..] == rest;
        [s[0]] + rest
      else rest
  }

  /** `[y for x in s if (y := f(x)) is not None]`: the values `f` gives,
      in order, skipping the elements it gives none for. */
  function FilterMap<T(!new), U(!new)>(s: seq<T>, f: T -> Option<U>): (r: seq<U>)
    ensures |r| <= |s|
    ensures forall y :: y in r <==> exists x :: x in s && f(x) == Some(y)
    decreases |s|
  {
    if s == [] then []
    else
      var rest := FilterMap(s[1..], f);
      assert s == [s[0]] + s[1..];
      match f(s[0])
      case None => rest
      case Some(y) => [y] + rest
  }

  /** `FilterMap` is a filter followed by a map: for a `f` that gives
      `g(x)` exactly where `keep(x)` holds, the values are those of the kept
      elements, in order, one per kept element. */
  lemma {:induction false} FilterMapSplit<T(!new), U(!new)>(s: seq<T>, f: T -> Option<U>, keep: T -> bool, g: T -> U)
    requires forall k :: 0 <= k < |s| ==> f(s[k]) == (if keep(s[k]) then Some(g(s[k])) else None)
    ensures FilterMap(s, f) == MapSeq(Filter(s, keep), g)
    decreases |s|
  {
    if s != [] {
      assert forall k :: 0 <= k < |s| - 1 ==> s[1..][k] == s[k + 1];
      var rest := Filter(s[1..], keep);
      FilterMapSplit(s[1..], f, keep, g);
      FilterCons(s, keep);
      if keep(s[0]) {
        MapSeqCons(s[0], rest, g);
      }
    }
  }

  /** A map that keeps every element unchanged filters nothing out. */
  lemma {:induction false} FilterMapIdentity<T(!new)>(s: seq<T>, f: T -> Option<T>)
    requires forall k :: 0 <= k < |s| ==> f(s[k]) == Some(s[k])
    ensures FilterMap(s, f) == s
    decreases |s|
  {
    if s != [] {
      FilterMapIdentity(s[1..], f);
    }
  }

  /** An element that passes the test survives the filter. */
  lemma FilterMember<T(!new)>(s: seq<T>, f: T -> bool, x: T)
    requires x in s && f(x)
    ensures x in Filter(s, f)
  {
  }

  /** The elements of `s` at the positions where `keep` holds, in order: a
      loop that decides per position whether to append. */
  function Select<T(!new)>(s: seq<T>, keep: seq<bool>): (r: seq<T>)
    requires |keep| == |s|
    ensures |r| == CountKept(keep)
    ensures forall i :: 0 <= i < |s| && keep[i] ==> s[i] in r
    ensures forall x :: x in r ==> exists i :: 0 <= i < |s| && keep[i] && s[i] == x
    ensures IsSubsequence(r, s)
    decreases |s|
  {
    if s == [] then []
    else
      var rest := Select(s[1..], keep[1..]);
      assert forall i :: 1 <= i < |s| ==> s[i] == s[1..][i - 1] && keep[i] == keep[1..][i - 1];
      if keep[0] then
        assert ([s[0]] + rest)[1..] == rest;
        [s[0]] + rest
      else rest
  }

  /** The number of positions where `keep` holds. */
  function CountKept(keep: seq<bool>): (n: nat)
    ensures n <= |keep|
  {
    if keep == [] then 0 else (if keep[0] then 1 else 0) + CountKept(keep[1..])
  }

  /** Selecting with an all-true mask keeps everything. */
  lemma {:induction false} SelectAll<T(!new)>(s: seq<T>, keep: seq<bool>)
    requires |keep| == |s|
    requires forall i :: 0 <= i < |keep| ==> keep[i]
    ensures Select(s, keep) == s
    decreases |s|
  {
    if s != [] {
      SelectAll(s[1..], keep[1..]);
    }
  }

  /** Selecting by a mask that tests each element with `f` is `Filter`. */
  lemma {:induction false} SelectIsFilter<T(!new)>(s: seq<T>, keep: seq<bool>, f: T -> bool)
    requires |keep| == |s|
    requires forall i :: 0 <= i < |s| ==> keep[i] == f(s[i])
    ensures Select(s, keep) == Filter(s, f)
    decreases |s|
  {
    if s != [] {
      SelectIsFilter(s[1..], keep[1..], f);
    }
  }

  /** The first `f(x)` that is present, scanning `xs` in order: a loop that
      returns from inside its body at the first element that decides. */
  function FirstSome<T, U>(xs: seq<T>, f: T -> Option<U>): (r: Option<U>)
    ensures r.None? <==> forall k :: 0 <= k < |xs| ==> f(xs[k]).None?
    ensures r.Some? ==> exists k :: 0 <= k < |xs| && f(xs[k]) == r && forall j :: 0 <= j < k ==> f(xs[j]).None?
    decreases |xs|
  {
    if xs == [] then None
    else if f(xs[0]).Some? then f(xs[0])
    else
      var r := FirstSome(xs[1..], f);
      assert forall k :: 1 <= k < |xs| ==> xs[k] == xs[1..][k - 1];
      r
  }

  /** Whatever comes after the first deciding element does not matter. */
  lemma {:induction false} FirstSomeAppend<T, U>(xs: seq<T>, ys: seq<T>, f: T -> Option<U>)
    requires FirstSome(xs, f).Some?
    ensures FirstSome(xs + ys, f) == FirstSome(xs, f)
    decreases |xs|
  {
    if f(xs[0]).None? {
      assert (xs + ys)[1..] == xs[1..] + ys;
      FirstSomeAppend(xs[1..], ys, f);
    }
  }

  /** Filtering by a test every element passes keeps everything. */
  lemma {:induction false} FilterAll<T(!new)>(s: seq<T>, f: T -> bool)
    requires forall i :: 0 <= i < |s| ==> f(s[i])
    ensures Filter(s, f) == s
    decreases |s|
  {
    if s != [] {
      FilterAll(s[1..], f);
    }
  }

  /** Filtering by a test no element passes keeps nothing. */
  lemma {:induction false} FilterNone<T(!new)>(s: seq<T>, f: T -> bool)
    requires forall i :: 0 <= i < |s| ==> !f(s[i])
    ensures Filter(s, f) == []
    decreases |s|
  {
    if s != [] {
      FilterNone(s[1..], f);
    }
  }

  /** `g` applied to every element. */
  function MapSeq<T, U>(s: seq<T>, g: T -> U): (r: seq<U>)
    ensures |r| == |s|
    ensures forall k :: 0 <= k < |s| ==> r[k] == g(s[k])
  {
    seq(|s|, k requires 0 <= k < |s| => g(s[k]))
  }

  /** Filtering commutes with a map that the test does not see. */
  lemma {:induction false} FilterMapSeq<T(!new)>(s: seq<T>, f: T -> bool, g: T -> T)
    requires forall k :: 0 <= k < |s| ==> f(g(s[k])) == f(s[k])
    ensures Filter(MapSeq(s, g), f) == MapSeq(Filter(s, f), g)
    decreases |s|
  {
    if s != [] {
      assert forall k :: 0 <= k < |s| - 1 ==> s[1..][k] == s[k + 1];
      var m := MapSeq(s, g);
      var rest := Filter(s[1..], f);
      assert m[1..] == MapSeq(s[1..], g);
      FilterMapSeq(s[1..], f, g);
      FilterCons(m, f);
      FilterCons(s, f);
      if f(s[0]) {
        MapSeqCons(s[0], rest, g);
        calc {
          Filter(m, f);
          [g(s[0])] + Filter(MapSeq(s[1..], g), f);
          [g(s[0])] + MapSeq(rest, g);
          MapSeq([s[0]] + rest, g);
        }
      }
    }
  }

  lemma MapSeqCons<T, U>(x: T, xs: seq<T>, g: T -> U)
    ensures MapSeq([x] + xs, g) == [g(x)] + MapSeq(xs, g)
  {
    var l := MapSeq([x] + xs, g);
    var r := [g(x)] + MapSeq(xs, g);
    assert |l| == |r|;
    forall k | 0 <= k < |l|
      ensures l[k] == r[k]
    {
      if k > 0 {
        assert ([x] + xs)[k] == xs[k - 1];
      }
    }
  }

  /** One step of `Filter`. */
  lemma FilterCons<T(!new)>(s: seq<T>, f: T -> bool)
    requires s != []
    ensures Filter(s, f) == if f(s[0]) then [s[0]] + Filter(s[1..], f) else Filter(s[1..], f)
  {
  }

  /** The first position at or after `i` that holds `x`, or -1: a loop
      over `enumerate` that breaks at the first match. */
  function FirstFrom<T(==)>(s: seq<T>, x: T, i: nat): (r: int)
    ensures r == -1 <==> forall j :: i <= j < |s| ==> s[j] != x
    ensures r != -1 ==> i <= r < |s| && s[r] == x && forall j :: i <= j < r ==> s[j] != x
    decreases |s| - i
  {
    if i >= |s| then -1
    else if s[i] == x then i
    else FirstFrom(s, x, i + 1)
  }

  /** `for xs in xss: out.extend(xs)`. */
  function Flatten<T(!new)>(xss: seq<seq<T>>): (r: seq<T>)
    ensures forall x :: x in r <==> exists i :: 0 <= i < |xss| && x in xss[i]
    decreases |xss|
  {
    if xss == [] then []
    else
      var rest := Flatten(xss[1..]);
      assert forall i :: 1 <= i < |xss| ==> xss[i] == xss[1..][i - 1];
      xss[0] + rest
  }
}
