/** Counting a list by a string key with a dictionary, the idiom behind the
    digest's per-platform lines and the PDF store's statistics: the keys in
    the order the dictionary first saw them, each with its count, and the
    same entries in Python's sorted order of the keys. */
module Tally {
  import opened Text

  /** How many elements carry key `k`. */
  function Count<T>(xs: seq<T>, key: T -> string, k: string): (n: nat)
    ensures n <= |xs|
    ensures n == 0 <==> forall i :: 0 <= i < |xs| ==> key(xs[i]) != k
    decreases |xs|
  {
    if xs == [] then 0
    else
      var init := xs[..|xs| - 1];
      assert forall i :: 0 <= i < |init| ==> init[i] == xs[i];
      Count(init, key, k) + (if key(xs[|xs| - 1]) == k then 1 else 0)
  }

  /** Some element carries key `k`. */
  predicate Keyed<T>(xs: seq<T>, key: T -> string, k: string) {
    exists i :: 0 <= i < |xs| && key(xs[i]) == k
  }

  /** Some entry is for key `k`. */
  predicate Listed(es: seq<(string, nat)>, k: string) {
    exists i :: 0 <= i < |es| && es[i].0 == k
  }

  predicate Distinct(ks: seq<string>) {
    forall i, j :: 0 <= i < j < |ks| ==> ks[i] != ks[j]
  }

  /** The dictionary's keys in insertion order: each key where it first
      appears. */
  function Keys<T>(xs: seq<T>, key: T -> string): (ks: seq<string>)
    ensures Distinct(ks)
    ensures forall k :: k in ks <==> exists i :: 0 <= i < |xs| && key(xs[i]) == k
    decreases |xs|
  {
    if xs == [] then []
    else
      var init := xs[..|xs| - 1];
      var ks := Keys(init, key);
      assert forall i :: 0 <= i < |init| ==> init[i] == xs[i];
      var k := key(xs[|xs| - 1]);
      if k in ks then ks else ks + [k]
  }

  /** `dict.items()`: each key with its count. */
  function Counts<T>(ks: seq<string>, xs: seq<T>, key: T -> string): (es: seq<(string, nat)>)
    ensures |es| == |ks|
    ensures forall i :: 0 <= i < |ks| ==> es[i] == (ks[i], Count(xs, key, ks[i]))
  {
    seq(|ks|, i requires 0 <= i < |ks| => (ks[i], Count(xs, key, ks[i])))
  }

  /** The sum of the counts. */
  function Total(es: seq<(string, nat)>): nat {
    if es == [] then 0 else es[0].1 + Total(es[1..])
  }

  /** How many times `x` occurs in `ks`. */
  function Occurrences(ks: seq<string>, x: string): nat {
    if ks == [] then 0 else (if ks[0] == x then 1 else 0) + Occurrences(ks[1..], x)
  }

  lemma OccurrencesAbsent(ks: seq<string>, x: string)
    requires x !in ks
    ensures Occurrences(ks, x) == 0
  {
    if ks != [] {
      assert x !in ks[1..];
      OccurrencesAbsent(ks[1..], x);
    }
  }

  lemma {:induction false} OccurrencesOnce(ks: seq<string>, x: string)
    requires Distinct(ks) && x in ks
    ensures Occurrences(ks, x) == 1
  {
    var tail := ks[1..];
    assert Distinct(tail) by {
      forall i, j | 0 <= i < j < |tail|
        ensures tail[i] != tail[j]
      {
        assert tail[i] == ks[i + 1] && tail[j] == ks[j + 1];
      }
    }
    if ks[0] == x {
      assert x !in tail by {
        forall j | 0 <= j < |tail|
          ensures tail[j] != x
        {
          assert tail[j] == ks[j + 1];
        }
      }
      OccurrencesAbsent(tail, x);
    } else {
      OccurrencesOnce(tail, x);
    }
  }

  /** Appending one element adds, over all keys, the number of times its
      key is listed. */
  lemma {:induction false} TotalStep<T>(ks: seq<string>, init: seq<T>, x: T, key: T -> string)
    ensures Total(Counts(ks, init + [x], key)) == Total(Counts(ks, init, key)) + Occurrences(ks, key(x))
    decreases |ks|
  {
    if ks != [] {
      var xs := init + [x];
      assert xs[..|xs| - 1] == init;
      assert Counts(ks, xs, key)[1..] == Counts(ks[1..], xs, key);
      assert Counts(ks, init, key)[1..] == Counts(ks[1..], init, key);
      TotalStep(ks[1..], init, x, key);
    }
  }

  /** Over distinct keys that cover every element, the counts add up to the
      length. */
  lemma {:induction false} TotalCounts<T>(ks: seq<string>, xs: seq<T>, key: T -> string)
    requires Distinct(ks)
    requires forall i :: 0 <= i < |xs| ==> key(xs[i]) in ks
    ensures Total(Counts(ks, xs, key)) == |xs|
    decreases |xs|
  {
    if xs == [] {
      TotalZero(ks, xs, key);
    } else {
      var init := xs[..|xs| - 1];
      var x := xs[|xs| - 1];
      assert xs == init + [x];
      assert forall i :: 0 <= i < |init| ==> init[i] == xs[i];
      TotalCounts(ks, init, key);
      TotalStep(ks, init, x, key);
      OccurrencesOnce(ks, key(x));
    }
  }

  lemma {:induction false} TotalZero<T>(ks: seq<string>, xs: seq<T>, key: T -> string)
    requires xs == []
    ensures Total(Counts(ks, xs, key)) == 0
    decreases |ks|
  {
    if ks != [] {
      assert Counts(ks, xs, key)[1..] == Counts(ks[1..], xs, key);
      TotalZero(ks[1..], xs, key);
    }
  }

  /** The counts in insertion order add up to the number of elements, and
      each is positive. */
  function Tally<T>(xs: seq<T>, key: T -> string): (es: seq<(string, nat)>)
    ensures Total(es) == |xs|
    ensures forall i :: 0 <= i < |es| ==> es[i].1 > 0 && es[i].1 == Count(xs, key, es[i].0)
    ensures forall k :: Listed(es, k) <==> Keyed(xs, key, k)
  {
    var ks := Keys(xs, key);
    var es := Counts(ks, xs, key);
    assert forall i :: 0 <= i < |xs| ==> key(xs[i]) in ks;
    TotalCounts(ks, xs, key);
    CountsCover(ks, xs, key);
    es
  }

  // ---------------------------------------------------------------------
  // `sorted(d.items())`: the keys are distinct, so the order is the keys'.

  predicate Ascending(ks: seq<string>) {
    forall i :: 0 < i < |ks| ==> StrLess(ks[i - 1], ks[i])
  }

  function InsertKey(k: string, ks: seq<string>): (r: seq<string>)
    requires Ascending(ks) && k !in ks
    ensures Ascending(r)
    ensures |r| == |ks| + 1
    ensures forall x :: x in r <==> x == k || x in ks
    ensures r[0] == k || (ks != [] && r[0] == ks[0])
    decreases |ks|
  {
    if ks == [] || StrLess(k, ks[0]) then [k] + ks
    else
      assert k != ks[0];
      StrLessTotal(k, ks[0]);
      var rest := InsertKey(k, ks[1..]);
      assert ks == [ks[0]] + ks[1..];
      [ks[0]] + rest
  }

  /** Insertion sort of distinct keys. */
  function SortKeys(ks: seq<string>): (r: seq<string>)
    requires Distinct(ks)
    ensures Ascending(r)
    ensures |r| == |ks|
    ensures forall x :: x in r <==> x in ks
    decreases |ks|
  {
    if ks == [] then []
    else
      var tail := ks[1..];
      assert Distinct(tail) by {
        forall i, j | 0 <= i < j < |tail|
          ensures tail[i] != tail[j]
        {
          assert tail[i] == ks[i + 1] && tail[j] == ks[j + 1];
        }
      }
      assert ks[0] !in tail by {
        forall j | 0 <= j < |tail|
          ensures tail[j] != ks[0]
        {
          assert tail[j] == ks[j + 1];
        }
      }
      assert ks == [ks[0]] + tail;
      InsertKey(ks[0], SortKeys(tail))
  }

  /** An ascending list is strictly ordered between any two positions, so
      its keys are distinct. */
  lemma {:induction false} AscendingOrdered(ks: seq<string>, i: int, j: int)
    requires Ascending(ks) && 0 <= i < j < |ks|
    ensures StrLess(ks[i], ks[j])
    decreases j - i
  {
    if i + 1 < j {
      AscendingOrdered(ks, i, j - 1);
      StrLessTransitive(ks[i], ks[j - 1], ks[j]);
    }
  }

  lemma AscendingDistinct(ks: seq<string>)
    requires Ascending(ks)
    ensures Distinct(ks)
  {
    forall i, j | 0 <= i < j < |ks|
      ensures ks[i] != ks[j]
    {
      AscendingOrdered(ks, i, j);
      StrLessAsymmetric(ks[i], ks[j]);
    }
  }

  /** `sorted(d.items())` for the count dictionary: ascending keys, every
      key once, and the counts still adding up to the number of elements. */
  function SortedTally<T>(xs: seq<T>, key: T -> string): (es: seq<(string, nat)>)
    ensures Total(es) == |xs|
    ensures forall i :: 0 < i < |es| ==> StrLess(es[i - 1].0, es[i].0)
    ensures forall i :: 0 <= i < |es| ==> es[i].1 > 0 && es[i].1 == Count(xs, key, es[i].0)
    ensures forall k :: Listed(es, k) <==> Keyed(xs, key, k)
  {
    var ks := SortKeys(Keys(xs, key));
    var es := Counts(ks, xs, key);
    AscendingDistinct(ks);
    assert forall i :: 0 <= i < |xs| ==> key(xs[i]) in ks;
    TotalCounts(ks, xs, key);
    CountsCover(ks, xs, key);
    es
  }

  /** Counts over exactly the keys that occur: every entry is positive and
      the entries list exactly those keys. */
  lemma CountsCover<T>(ks: seq<string>, xs: seq<T>, key: T -> string)
    requires forall k :: k in ks <==> Keyed(xs, key, k)
    ensures forall i :: 0 <= i < |ks| ==> Counts(ks, xs, key)[i].1 > 0
    ensures forall k :: Listed(Counts(ks, xs, key), k) <==> Keyed(xs, key, k)
  {
    var es := Counts(ks, xs, key);
    forall i | 0 <= i < |ks|
      ensures es[i].1 > 0
    {
      assert ks[i] in ks;
      var j :| 0 <= j < |xs| && key(xs[j]) == ks[i];
    }
    forall k
      ensures Listed(es, k) <==> Keyed(xs, key, k)
    {
      if Keyed(xs, key, k) {
        var i :| 0 <= i < |ks| && ks[i] == k;
        assert es[i].0 == k;
      }
    }
  }
}
