/** The handful of Python `str` and `list` operations the briefing pipeline is
    built from, given their Python meaning: `find`, `in`, `startswith`,
    `split(sep)`, `split()`, `strip()`, `replace`, `join`, `lower()` and the
    prefix slice `s[:n]`. */
module Text {

  /** The characters for which Python's `str.isspace()` holds; these are the
      characters `strip()` removes and `split()` (no argument) splits on. */
  predicate IsSpace(c: char) {
    c == ' ' || '\t' <= c <= '\r' || '\U{001C}' <= c <= '\U{001F}' || c == '\U{0085}' ||
    c == '\U{00A0}' || c == '\U{1680}' || '\U{2000}' <= c <= '\U{200A}' ||
    c == '\U{2028}' || c == '\U{2029}' || c == '\U{202F}' || c == '\U{205F}' || c == '\U{3000}'
  }

  predicate AllSpace(s: string) {
    forall i :: 0 <= i < |s| ==> IsSpace(s[i])
  }

  predicate NoSpace(s: string) {
    forall i :: 0 <= i < |s| ==> !IsSpace(s[i])
  }

  /** No white space at either end: what `strip()` leaves. */
  predicate Trimmed(s: string) {
    s == [] || (!IsSpace(s[0]) && !IsSpace(s[|s| - 1]))
  }

  predicate HasChar(s: string, c: char) {
    exists i :: 0 <= i < |s| && s[i] == c
  }

  /** `c.lower()` for the ASCII letters; every other character is its own
      lower case here. */
  function LowerChar(c: char): char {
    if 'A' <= c <= 'Z' then (c as int + 32) as char else c
  }

  /** `s.lower()`: the same length, character by character. */
  function Lower(s: string): (r: string)
    ensures |r| == |s|
    ensures forall i :: 0 <= i < |s| ==> r[i] == LowerChar(s[i])
  {
    seq(|s|, i requires 0 <= i < |s| => LowerChar(s[i]))
  }

  /** Python's prefix slice `s[:n]`, including its meaning for a negative `n`
      (all but the last `-n` elements). */
  function Take<T>(s: seq<T>, n: int): (r: seq<T>)
    ensures r <= s
    ensures n >= 0 ==> |r| == (if n < |s| then n else |s|)
    ensures n < 0 ==> |r| == (if |s| + n > 0 then |s| + n else 0)
  {
    if n >= 0 then (if n < |s| then s[..n] else s)
    else (if |s| + n > 0 then s[..|s| + n] else [])
  }

  /** `s.startswith(p)`. */
  predicate StartsWith(s: string, p: string) {
    |p| <= |s| && s[..|p|] == p
  }

  /** `s.endswith(p)`. */
  predicate EndsWith(s: string, p: string) {
    |p| <= |s| && s[|s| - |p|..] == p
  }

  /** A string starts with whatever it was appended to. */
  lemma StartsWithAppend(a: string, b: string)
    ensures StartsWith(a + b, a)
  {
    assert (a + b)[..|a|] == a;
  }

  /** A string ends with whatever was appended to it. */
  lemma EndsWithAppend(a: string, b: string)
    ensures EndsWith(a + b, b)
  {
    assert (a + b)[|a|..] == b;
  }

  /** `pat` occurs in `s` at index `i`. */
  predicate OccursAt(s: string, pat: string, i: int) {
    0 <= i && i + |pat| <= |s| && s[i..i + |pat|] == pat
  }

  /** `s.find(pat, i)` for a start index `i`: the first occurrence at or after
      `i`, or -1. */
  function FindFrom(s: string, pat: string, i: nat): (r: int)
    requires i <= |s|
    ensures r == -1 || (i <= r && OccursAt(s, pat, r))
    ensures r == -1 ==> forall j :: i <= j ==> !OccursAt(s, pat, j)
    ensures r != -1 ==> forall j :: i <= j < r ==> !OccursAt(s, pat, j)
    decreases |s| - i
  {
    if i + |pat| > |s| then -1
    else if s[i..i + |pat|] == pat then i
    else if i == |s| then -1
    else FindFrom(s, pat, i + 1)
  }

  /** `s.find(pat)`. */
  function Find(s: string, pat: string): (r: int)
    ensures r == -1 || OccursAt(s, pat, r)
    ensures r == -1 ==> forall j :: !OccursAt(s, pat, j)
    ensures r != -1 ==> forall j :: j < r ==> !OccursAt(s, pat, j)
  {
    FindFrom(s, pat, 0)
  }

  /** `pat in s`: computed through `Find`, and equivalent to the existence of
      an occurrence. */
  predicate Contains(s: string, pat: string) {
    Find(s, pat) >= 0
  }

  lemma ContainsIff(s: string, pat: string)
    ensures Contains(s, pat) <==> exists i :: OccursAt(s, pat, i)
  {
  }

  /** An occurrence inside a slice of `s` is an occurrence in `s`. */
  lemma {:induction false} ContainsSlice(s: string, pat: string, a: int, b: int)
    requires 0 <= a <= b <= |s|
    requires Contains(s[a..b], pat)
    ensures Contains(s, pat)
  {
    var t := s[a..b];
    var j := Find(t, pat);
    assert OccursAt(t, pat, j);
    SliceOfSlice(s, a, b, j, j + |pat|);
    assert OccursAt(s, pat, a + j);
  }

  /** `s.split(sep)` for a non-empty separator: the pieces between the
      non-overlapping occurrences of `sep`, found left to right. */
  function Split(s: string, sep: string): (parts: seq<string>)
    requires |sep| > 0
    ensures |parts| >= 1
    decreases |s|
  {
    var i := Find(s, sep);
    if i < 0 then [s]
    else [s[..i]] + Split(s[i + |sep|..], sep)
  }

  /** A split has at least two pieces exactly when the separator occurs. */
  lemma SplitCount(s: string, sep: string)
    requires |sep| > 0
    ensures |Split(s, sep)| >= 2 <==> Contains(s, sep)
  {
    var i := Find(s, sep);
    if i >= 0 {
      SplitUnfold(s, sep, i);
    }
  }

  /** No piece of a split contains the separator. */
  lemma {:induction false} SplitPartsFree(s: string, sep: string)
    requires |sep| > 0
    ensures forall k :: 0 <= k < |Split(s, sep)| ==> !Contains(Split(s, sep)[k], sep)
    decreases |s|
  {
    var i := Find(s, sep);
    if i >= 0 {
      var t := s[i + |sep|..];
      var parts, rest := Split(s, sep), Split(t, sep);
      HeadBeforeFirst(s, sep, i);
      SplitPartsFree(t, sep);
      SplitUnfold(s, sep, i);
      forall k | 0 <= k < |parts|
        ensures !Contains(parts[k], sep)
      {
        if k > 0 {
          assert parts[k] == rest[k - 1];
        }
      }
    }
  }

  /** What precedes the first occurrence of `sep` does not contain it. */
  lemma HeadBeforeFirst(s: string, sep: string, i: int)
    requires |sep| > 0 && i == Find(s, sep) && i >= 0
    ensures !Contains(s[..i], sep)
  {
    var head := s[..i];
    forall j
      ensures !OccursAt(head, sep, j)
    {
      if 0 <= j && j + |sep| <= |head| {
        assert head[j..j + |sep|] == s[j..j + |sep|];
        assert j < i && !OccursAt(s, sep, j);
      }
    }
  }

  /** `sep.join(parts)`. */
  function Join(sep: string, parts: seq<string>): string
  {
    if |parts| == 0 then ""
    else if |parts| == 1 then parts[0]
    else parts[0] + sep + Join(sep, parts[1..])
  }

  /** One step of `Split` at the first occurrence of the separator. */
  lemma SplitUnfold(s: string, sep: string, i: int)
    requires |sep| > 0 && i == Find(s, sep) && i >= 0
    ensures Split(s, sep) == [s[..i]] + Split(s[i + |sep|..], sep)
  {
  }

  /** One step of `Join` on a list of at least two pieces. */
  lemma JoinCons(sep: string, x: string, xs: seq<string>)
    requires |xs| >= 1
    ensures Join(sep, [x] + xs) == x + sep + Join(sep, xs)
  {
    assert ([x] + xs)[1..] == xs;
  }

  /** `sep.join(s.split(sep)) == s`: splitting loses nothing. */
  lemma {:induction false} JoinSplit(s: string, sep: string)
    requires |sep| > 0
    ensures Join(sep, Split(s, sep)) == s
    decreases |s|
  {
    var i := Find(s, sep);
    if i >= 0 {
      var rest := s[i + |sep|..];
      calc {
        Join(sep, Split(s, sep));
        { SplitUnfold(s, sep, i); }
        Join(sep, [s[..i]] + Split(rest, sep));
        { JoinCons(sep, s[..i], Split(rest, sep)); }
        s[..i] + sep + Join(sep, Split(rest, sep));
        { JoinSplit(rest, sep); }
        s[..i] + sep + rest;
        { assert s[i..i + |sep|] == sep; assert s == s[..i] + s[i..i + |sep|] + rest; }
        s;
      }
    }
  }

  /** A one-character separator splits `a + sep + b`, for a separator-free
      head `a`, at the end of `a`. */
  lemma {:induction false} SplitHead(a: string, sep: string, b: string)
    requires |sep| == 1
    requires !Contains(a, sep)
    ensures Split(a + sep + b, sep) == [a] + Split(b, sep)
  {
    var s := a + sep + b;
    assert s[|a|..|a| + |sep|] == sep;
    assert OccursAt(s, sep, |a|);
    var i := Find(s, sep);
    if i < |a| {
      assert s[i..i + |sep|] == a[i..i + |sep|];
      assert OccursAt(a, sep, i);
      assert false;
    }
    assert s[..i] == a;
    assert s[i + |sep|..] == b;
  }

  /** The leading run of non-space characters of `s`. */
  function WordLen(s: string): (n: nat)
    ensures n <= |s|
    ensures NoSpace(s[..n])
    ensures n < |s| ==> IsSpace(s[n])
  {
    if s == [] || IsSpace(s[0]) then 0 else 1 + WordLen(s[1..])
  }

  /** `s.split()`: the maximal runs of non-space characters, in order. */
  function Words(s: string): (ws: seq<string>)
    ensures forall k :: 0 <= k < |ws| ==> |ws[k]| > 0 && NoSpace(ws[k])
    ensures |ws| == 0 <==> AllSpace(s)
    decreases |s|
  {
    if s == [] then []
    else if IsSpace(s[0]) then Words(s[1..])
    else
      var n := WordLen(s);
      [s[..n]] + Words(s[n..])
  }

  /** The number of leading space characters of `s`. */
  function LeadingSpaces(s: string): (n: nat)
    ensures n <= |s|
    ensures AllSpace(s[..n])
    ensures n < |s| ==> !IsSpace(s[n])
    decreases |s|
  {
    if s != [] && IsSpace(s[0]) then
      var m := LeadingSpaces(s[1..]);
      1 + m
    else 0
  }

  /** The number of trailing space characters of `s`. */
  function TrailingSpaces(s: string): (n: nat)
    ensures n <= |s|
    ensures AllSpace(s[|s| - n..])
    ensures n < |s| ==> !IsSpace(s[|s| - n - 1])
    decreases |s|
  {
    if s != [] && IsSpace(s[|s| - 1]) then
      var t := s[..|s| - 1];
      var m := TrailingSpaces(t);
      1 + m
    else 0
  }

  /** `s.lstrip()`. */
  function LStrip(s: string): (r: string)
    ensures r == [] || !IsSpace(r[0])
    ensures |r| <= |s| && r == s[|s| - |r|..]
    ensures AllSpace(s[..|s| - |r|])
  {
    s[LeadingSpaces(s)..]
  }

  /** `s.rstrip()`. */
  function RStrip(s: string): (r: string)
    ensures r == [] || !IsSpace(r[|r| - 1])
    ensures r <= s
    ensures AllSpace(s[|r|..])
  {
    s[..|s| - TrailingSpaces(s)]
  }

  /** `s.strip()`. */
  function Strip(s: string): (r: string)
    ensures Trimmed(r)
    ensures |r| <= |s|
  {
    RStrip(LStrip(s))
  }

  /** `s.split('\n')`. */
  function Lines(s: string): (ls: seq<string>)
    ensures |ls| >= 1
  {
    Split(s, "\n")
  }

  /** `s.replace(pat, repl)` for a non-empty `pat`. */
  function Replace(s: string, pat: string, repl: string): string
    requires |pat| > 0
  {
    Join(repl, Split(s, pat))
  }

  /** Lower-casing commutes with slicing. */
  lemma LowerSlice(s: string, a: int, b: int)
    requires 0 <= a <= b <= |s|
    ensures Lower(s[a..b]) == Lower(s)[a..b]
  {
    forall i | 0 <= i < b - a
      ensures Lower(s[a..b])[i] == Lower(s)[a..b][i]
    {
      assert s[a..b][i] == s[a + i];
    }
  }

  /** A string without ASCII capitals is its own lower case. */
  lemma LowerNoCapitals(s: string)
    requires forall i :: 0 <= i < |s| ==> !('A' <= s[i] <= 'Z')
    ensures Lower(s) == s
  {
  }

  /** An occurrence in a slice of `s` is an occurrence in the lower case of
      `s` once both are lowered. */
  lemma ContainsLowerSlice(s: string, pat: string, a: int, b: int)
    requires 0 <= a <= b <= |s|
    requires Contains(Lower(s[a..b]), pat)
    ensures Contains(Lower(s), pat)
  {
    LowerSlice(s, a, b);
    ContainsSlice(Lower(s), pat, a, b);
  }

  /** Every piece of a joined list is a slice of the result. */
  lemma {:induction false} JoinPartSlice(sep: string, parts: seq<string>, k: int) returns (a: int)
    requires 0 <= k < |parts|
    ensures 0 <= a && a + |parts[k]| <= |Join(sep, parts)|
    ensures Join(sep, parts)[a..a + |parts[k]|] == parts[k]
    decreases |parts|
  {
    if |parts| == 1 {
      a := 0;
    } else if k == 0 {
      a := 0;
      assert Join(sep, parts) == parts[0] + (sep + Join(sep, parts[1..]));
    } else {
      var tail := parts[1..];
      var pre := parts[0] + sep;
      assert tail[k - 1] == parts[k];
      var b := JoinPartSlice(sep, tail, k - 1);
      assert Join(sep, parts) == pre + Join(sep, tail);
      a := |pre| + b;
      SliceOfAppend(pre, Join(sep, tail), b, b + |parts[k]|);
    }
  }

  /** Every piece of `Split(s, sep)` is a slice of `s`. */
  lemma SplitPartSlice(s: string, sep: string, k: int) returns (a: int)
    requires |sep| > 0
    requires 0 <= k < |Split(s, sep)|
    ensures 0 <= a && a + |Split(s, sep)[k]| <= |s|
    ensures s[a..a + |Split(s, sep)[k]|] == Split(s, sep)[k]
  {
    JoinSplit(s, sep);
    a := JoinPartSlice(sep, Split(s, sep), k);
  }

  lemma SliceOfAppend<T>(p: seq<T>, q: seq<T>, x: int, y: int)
    requires 0 <= x <= y <= |q|
    ensures (p + q)[|p| + x..|p| + y] == q[x..y]
  {
    forall i | 0 <= i < y - x
      ensures (p + q)[|p| + x..|p| + y][i] == q[x..y][i]
    {
    }
  }

  lemma SliceOfSlice<T>(s: seq<T>, a: int, b: int, x: int, y: int)
    requires 0 <= a <= b <= |s| && 0 <= x <= y <= b - a
    ensures s[a..b][x..y] == s[a + x..a + y]
  {
    forall i | 0 <= i < y - x
      ensures s[a..b][x..y][i] == s[a + x..a + y][i]
    {
    }
  }

  /** The first piece of a split is a prefix. */
  lemma SplitFirstIsPrefix(s: string, sep: string)
    requires |sep| > 0
    ensures Split(s, sep)[0] <= s
  {
    var i := Find(s, sep);
    if i >= 0 {
      SplitUnfold(s, sep, i);
    }
  }

  /** The leading word of `w + t` is `w` when `w` has no space and `t` is
      empty or starts with one. */
  lemma {:induction false} WordLenOf(w: string, t: string)
    requires NoSpace(w)
    requires t == [] || IsSpace(t[0])
    ensures WordLen(w + t) == |w|
    decreases |w|
  {
    if w != [] {
      assert (w + t)[1..] == w[1..] + t;
      WordLenOf(w[1..], t);
    } else {
      assert w + t == t;
    }
  }

  /** Nothing non-empty occurs in the empty string. */
  lemma NotInEmpty(pat: string)
    requires |pat| > 0
    ensures !Contains("", pat)
  {
  }

  /** Whatever occurs inside an occurring pattern occurs too. */
  lemma ContainsWithin(s: string, big: string, small: string, off: int)
    requires Contains(s, big)
    requires 0 <= off && off + |small| <= |big| && big[off..off + |small|] == small
    ensures Contains(s, small)
  {
    var i := Find(s, big);
    SliceOfSlice(s, i, i + |big|, off, off + |small|);
    assert OccursAt(s, small, i + off);
  }

  /** `lstrip()` leaves a string that starts with a non-space alone. */
  lemma LStripKeeps(s: string)
    requires s != [] && !IsSpace(s[0])
    ensures LStrip(s) == s
  {
    assert LeadingSpaces(s) == 0;
  }

  /** `rstrip()` never cuts into a prefix that ends with a non-space. */
  lemma RStripKeeps(s: string, n: int)
    requires 0 < n <= |s| && !IsSpace(s[n - 1])
    ensures |RStrip(s)| >= n
  {
    var k := TrailingSpaces(s);
    assert AllSpace(s[|s| - k..]);
    assert k <= |s| - n;
  }

  /** Joining two non-empty lists is joining each and gluing with `sep`. */
  lemma {:induction false} JoinAppend(sep: string, a: seq<string>, b: seq<string>)
    requires |a| >= 1 && |b| >= 1
    ensures Join(sep, a + b) == Join(sep, a) + sep + Join(sep, b)
    decreases |a|
  {
    if |a| == 1 {
      JoinCons(sep, a[0], b);
      assert [a[0]] + b == a + b;
    } else {
      JoinAppend(sep, a[1..], b);
      assert (a + b)[1..] == a[1..] + b;
      JoinCons(sep, a[0], a[1..] + b);
      assert [a[0]] + (a[1..] + b) == a + b;
      JoinCons(sep, a[0], a[1..]);
      assert [a[0]] + a[1..] == a;
    }
  }

  /** Joining a list is joining its two halves around one separator. */
  lemma JoinAt(sep: string, parts: seq<string>, k: int)
    requires 0 < k < |parts|
    ensures Join(sep, parts) == Join(sep, parts[..k]) + sep + Join(sep, parts[k..])
  {
    assert parts == parts[..k] + parts[k..];
    JoinAppend(sep, parts[..k], parts[k..]);
  }

  /** A string is stripped to nothing exactly when it is all white space. */
  lemma StripEmptyIff(s: string)
    ensures |Strip(s)| == 0 <==> AllSpace(s)
  {
    var t := LStrip(s);
    if AllSpace(s) {
      assert LeadingSpaces(s) == |s|;
    }
    if |Strip(s)| == 0 {
      assert |t| == 0;
      forall i | 0 <= i < |s|
        ensures IsSpace(s[i])
      {
        assert s[..|s| - |t|][i] == s[i];
      }
    }
  }

  /** Stripping twice is stripping once. */
  lemma StripIdempotent(s: string)
    ensures Strip(Strip(s)) == Strip(s)
  {
    var r := Strip(s);
    if r != [] {
      LStripKeeps(r);
      assert TrailingSpaces(r) == 0;
    }
  }

  /** An occurrence in a prefix is an occurrence in the whole. */
  lemma ContainsPrefix(r: string, s: string, pat: string)
    requires r <= s && Contains(r, pat)
    ensures Contains(s, pat)
  {
    assert s[0..|r|] == r;
    ContainsSlice(s, pat, 0, |r|);
  }

  /** A one-character separator splits `a + sep + b`, for a separator-free
      tail `b`, with `b` as the last piece. */
  lemma SplitLastPart(a: string, sep: string, b: string)
    requires |sep| == 1 && !Contains(b, sep)
    ensures Split(a + sep + b, sep)[|Split(a + sep + b, sep)| - 1] == b
  {
    SplitAppend(a, sep, b);
    LastOfAppend(Split(a, sep), b);
  }

  /** The last element of `xs + [x]` is `x`. */
  lemma LastOfAppend<T>(xs: seq<T>, x: T)
    ensures (xs + [x])[|xs + [x]| - 1] == x
  {
  }

  /** A string without the one-character pattern `[c]` has no `c`. */
  lemma NoCharWithoutPattern(s: string, c: char)
    requires !Contains(s, [c])
    ensures !HasChar(s, c)
  {
    ContainsIff(s, [c]);
    forall i | 0 <= i < |s|
      ensures s[i] != c
    {
      assert s[i..i + 1] == [s[i]];
      assert OccursAt(s, [s[i]], i);
      assert !OccursAt(s, [c], i);
    }
  }

  lemma {:induction false} JoinWithoutChar(sep: string, parts: seq<string>, c: char)
    requires !HasChar(sep, c)
    requires forall k :: 0 <= k < |parts| ==> !HasChar(parts[k], c)
    ensures !HasChar(Join(sep, parts), c)
    decreases |parts|
  {
    if |parts| >= 2 {
      JoinWithoutChar(sep, parts[1..], c);
    }
  }

  /** `s.replace(c, repl)` leaves no `c` behind when `repl` has none. */
  lemma ReplaceRemovesChar(s: string, c: char, repl: string)
    requires !HasChar(repl, c)
    ensures !HasChar(Replace(s, [c], repl), c)
  {
    var parts := Split(s, [c]);
    SplitPartsFree(s, [c]);
    forall k | 0 <= k < |parts|
      ensures !HasChar(parts[k], c)
    {
      NoCharWithoutPattern(parts[k], c);
    }
    JoinWithoutChar(repl, parts, c);
  }

  /** Replacing a pattern by itself changes nothing. */
  lemma ReplaceSelf(s: string, pat: string)
    requires |pat| > 0
    ensures Replace(s, pat, pat) == s
  {
    JoinSplit(s, pat);
  }

  /** Every piece occurs in the joined string. */
  lemma {:induction false} JoinContainsPart(sep: string, parts: seq<string>, k: int)
    requires 0 <= k < |parts|
    ensures Contains(Join(sep, parts), parts[k])
    decreases |parts|
  {
    var j := Join(sep, parts);
    if k == 0 {
      assert OccursAt(j, parts[0], 0) by {
        if |parts| >= 2 {
          assert j[..|parts[0]|] == parts[0];
        }
      }
      ContainsIff(j, parts[0]);
    } else {
      JoinContainsPart(sep, parts[1..], k - 1);
      var off := |parts[0] + sep|;
      assert j[off..|j|] == Join(sep, parts[1..]);
      ContainsSlice(j, parts[k], off, |j|);
    }
  }

  /** A piece equal to `x` puts `x` in the joined string. */
  lemma JoinContainsEqual(sep: string, parts: seq<string>, k: int, x: string)
    requires 0 <= k < |parts| && parts[k] == x
    ensures Contains(Join(sep, parts), x)
  {
    JoinContainsPart(sep, parts, k);
  }

  /** For a one-character pattern, `in` is a character test. */
  lemma CharPatternIff(s: string, c: char)
    ensures Contains(s, [c]) <==> HasChar(s, c)
  {
    ContainsIff(s, [c]);
    if HasChar(s, c) {
      var i :| 0 <= i < |s| && s[i] == c;
      assert s[i..i + 1] == [c];
      assert OccursAt(s, [c], i);
    } else {
      NoCharWithoutPatternConverse(s, c);
    }
  }

  lemma NoCharWithoutPatternConverse(s: string, c: char)
    requires !HasChar(s, c)
    ensures !Contains(s, [c])
  {
    ContainsIff(s, [c]);
    forall i: int
      ensures !OccursAt(s, [c], i)
    {
      if 0 <= i < |s| {
        assert s[i..i + 1][0] == s[i];
      }
    }
  }

  /** `strip()` adds no characters. */
  lemma StripSubstring(s: string)
    ensures forall c :: HasChar(Strip(s), c) ==> HasChar(s, c)
  {
    var l := LStrip(s);
    var r := Strip(s);
    forall c | HasChar(r, c)
      ensures HasChar(s, c)
    {
      var i :| 0 <= i < |r| && r[i] == c;
      assert l[i] == c;
      assert s[|s| - |l| + i] == c;
    }
  }

  /** A string with no white space at either end is its own strip. */
  lemma StripKeeps(s: string)
    requires Trimmed(s)
    ensures Strip(s) == s
  {
    if s != [] {
      LStripKeeps(s);
      assert TrailingSpaces(s) == 0;
    }
  }

  /** Splitting what was joined with a one-character separator that no piece
      contains gives the pieces back. */
  lemma {:induction false} SplitJoin(sep: string, parts: seq<string>)
    requires |sep| == 1 && |parts| >= 1
    requires forall k :: 0 <= k < |parts| ==> !Contains(parts[k], sep)
    ensures Split(Join(sep, parts), sep) == parts
    decreases |parts|
  {
    if |parts| >= 2 {
      SplitJoin(sep, parts[1..]);
      SplitHead(parts[0], sep, Join(sep, parts[1..]));
      assert [parts[0]] + parts[1..] == parts;
    }
  }

  /** Replacing a pattern that does not occur changes nothing. */
  lemma ReplaceAbsent(s: string, pat: string, repl: string)
    requires |pat| > 0 && !Contains(s, pat)
    ensures Replace(s, pat, repl) == s
  {
  }

  /** A string that contains a pattern contains its first character. */
  lemma ContainsFirstChar(s: string, pat: string)
    requires |pat| > 0 && Contains(s, pat)
    ensures HasChar(s, pat[0])
  {
    var i := Find(s, pat);
    assert s[i..i + |pat|][0] == s[i];
  }

  /** `rsplit(c, 1)[0]`: everything before the last `c`, or the whole string
      when there is none. */
  function BeforeLast(s: string, c: char): (r: string)
    ensures !HasChar(s, c) ==> r == s
    ensures HasChar(s, c) ==> |r| < |s| && s[..|r|] == r && s[|r|] == c && !HasChar(s[|r| + 1..], c)
    decreases |s|
  {
    if s == [] then s
    else if s[|s| - 1] == c then s[..|s| - 1]
    else
      var r := BeforeLast(s[..|s| - 1], c);
      if HasChar(s, c) then
        var i :| 0 <= i < |s| && s[i] == c;
        assert s[..|s| - 1][i] == c;
        assert s[|r| + 1..] == s[..|s| - 1][|r| + 1..] + [s[|s| - 1]];
        r
      else
        assert forall i :: 0 <= i < |s| - 1 ==> s[..|s| - 1][i] == s[i];
        s
  }

  /** The part before the last `c` of a string ending in a `c`-free tail is
      what precedes that tail. */
  lemma {:induction false} BeforeLastOf(prefix: string, c: char, last: string)
    requires !HasChar(last, c)
    ensures BeforeLast(prefix + [c] + last, c) == prefix
    decreases |last|
  {
    var s := prefix + [c] + last;
    if last != [] {
      var init := last[..|last| - 1];
      assert s[..|s| - 1] == prefix + [c] + init;
      assert s[|s| - 1] == last[|last| - 1];
      BeforeLastOf(prefix, c, init);
    } else {
      assert s[..|s| - 1] == prefix;
    }
  }

  function DigitChar(d: nat): char
    requires d < 10
  {
    ('0' as int + d) as char
  }

  function DigitValue(c: char): int {
    c as int - '0' as int
  }

  /** `str(n)` for a natural number: its decimal digits, most significant
      first. */
  function NatToString(n: nat): (r: string)
    ensures |r| > 0
    ensures forall i :: 0 <= i < |r| ==> '0' <= r[i] <= '9'
  {
    if n < 10 then [DigitChar(n)] else NatToString(n / 10) + [DigitChar(n % 10)]
  }

  /** The number a string of decimal digits denotes. */
  function DecimalValue(s: string): int {
    if s == [] then 0 else DecimalValue(s[..|s| - 1]) * 10 + DigitValue(s[|s| - 1])
  }

  /** `int(str(n)) == n`. */
  lemma {:induction false} NatToStringRoundTrip(n: nat)
    ensures DecimalValue(NatToString(n)) == n
  {
    if n >= 10 {
      NatToStringRoundTrip(n / 10);
      var s := NatToString(n);
      assert s[..|s| - 1] == NatToString(n / 10);
    }
  }

  /** Replacing a pattern that occurs exactly once replaces that
      occurrence. */
  lemma ReplaceSingle(a: string, pat: string, b: string, repl: string)
    requires |pat| > 0
    requires forall j :: OccursAt(a + pat + b, pat, j) ==> j == |a|
    ensures Replace(a + pat + b, pat, repl) == a + repl + b
  {
    var s := a + pat + b;
    SplitAtOnly(a, pat, b);
    assert Split(s, pat) == [a] + [b];
    JoinCons(repl, a, [b]);
  }

  /** A pattern that occurs only between `a` and `b` splits the text into
      exactly those two pieces. */
  lemma SplitAtOnly(a: string, pat: string, b: string)
    requires |pat| > 0
    requires forall j :: OccursAt(a + pat + b, pat, j) ==> j == |a|
    ensures Split(a + pat + b, pat) == [a, b]
  {
    var s := a + pat + b;
    assert s[|a|..|a| + |pat|] == pat;
    assert OccursAt(s, pat, |a|);
    SplitUnfold(s, pat, |a|);
    assert s[..|a|] == a;
    assert s[|a| + |pat|..] == b;
    NoneAfterOnly(a, pat, b);
  }

  /** Nothing after the only occurrence contains the pattern again. */
  lemma NoneAfterOnly(a: string, pat: string, b: string)
    requires |pat| > 0
    requires forall j :: OccursAt(a + pat + b, pat, j) ==> j == |a|
    ensures !Contains(b, pat)
  {
    var s := a + pat + b;
    forall k: int
      ensures !OccursAt(b, pat, k)
    {
      if 0 <= k && k + |pat| <= |b| {
        assert s[|a| + |pat| + k..|a| + |pat| + k + |pat|] == b[k..k + |pat|];
        assert !OccursAt(s, pat, |a| + |pat| + k);
      }
    }
  }

  /** `str(n)` for any integer. */
  function IntToString(n: int): (r: string)
    ensures |r| > 0
    ensures n >= 0 ==> r == NatToString(n)
    ensures n < 0 ==> r == "-" + NatToString(-n)
    ensures forall i :: 0 <= i < |r| ==> r[i] == '-' || '0' <= r[i] <= '9'
  {
    if n < 0 then "-" + NatToString(-n) else NatToString(n)
  }

  // -------------------------------------------------------------------
  // Python's ordering of strings: code point by code point, a proper prefix
  // first.

  predicate StrLess(a: string, b: string)
    decreases |a|
  {
    |b| > 0 && (|a| == 0 || a[0] < b[0] || (a[0] == b[0] && StrLess(a[1..], b[1..])))
  }

  lemma {:induction false} StrLessTotal(a: string, b: string)
    ensures a == b || StrLess(a, b) || StrLess(b, a)
    decreases |a|
  {
    if |a| > 0 && |b| > 0 && a[0] == b[0] {
      StrLessTotal(a[1..], b[1..]);
      if a[1..] == b[1..] {
        assert a == [a[0]] + a[1..] && b == [b[0]] + b[1..];
      }
    }
  }

  lemma {:induction false} StrLessAsymmetric(a: string, b: string)
    ensures !(StrLess(a, b) && StrLess(b, a))
    decreases |a|
  {
    if |a| > 0 && |b| > 0 && a[0] == b[0] {
      StrLessAsymmetric(a[1..], b[1..]);
    }
  }

  lemma {:induction false} StrLessTransitive(a: string, b: string, c: string)
    requires StrLess(a, b) && StrLess(b, c)
    ensures StrLess(a, c)
    decreases |a|
  {
    if |a| > 0 && a[0] == b[0] && b[0] == c[0] {
      StrLessTransitive(a[1..], b[1..], c[1..]);
    }
  }

  // -------------------------------------------------------------------
  // Replacing one character by another.

  /** `s` with every `c` turned into `d`, character by character. */
  function MapChar(s: string, c: char, d: char): (r: string)
    ensures |r| == |s|
    ensures forall i :: 0 <= i < |s| ==> r[i] == (if s[i] == c then d else s[i])
  {
    seq(|s|, i requires 0 <= i < |s| => if s[i] == c then d else s[i])
  }

  /** `s.replace(c, d)` for single characters maps `s` character by
      character. */
  lemma {:induction false} ReplaceCharIsMap(s: string, c: char, d: char)
    ensures Replace(s, [c], [d]) == MapChar(s, c, d)
    decreases |s|
  {
    var i := Find(s, [c]);
    if i < 0 {
      forall j | 0 <= j < |s|
        ensures s[j] != c
      {
        assert !OccursAt(s, [c], j);
        assert s[j..j + 1][0] == s[j];
      }
    } else {
      var head := s[..i];
      var rest := s[i + 1..];
      assert Replace(s, [c], [d]) == head + [d] + Replace(rest, [c], [d]) by {
        SplitUnfold(s, [c], i);
        JoinCons([d], head, Split(rest, [c]));
      }
      ReplaceCharIsMap(rest, c, d);
      assert MapChar(s, c, d) == head + [d] + MapChar(rest, c, d) by {
        MapCharAt(s, c, d, i);
      }
    }
  }

  /** Mapping around the first `c`. */
  lemma MapCharAt(s: string, c: char, d: char, i: int)
    requires i == Find(s, [c]) && i >= 0
    ensures MapChar(s, c, d) == s[..i] + [d] + MapChar(s[i + 1..], c, d)
  {
    assert s[i..i + 1][0] == s[i];
    forall j | 0 <= j < i
      ensures s[j] != c
    {
      assert !OccursAt(s, [c], j);
      assert s[j..j + 1][0] == s[j];
    }
  }

  /** Splitting `a + sep + b` for a separator-free last piece `b` splits
      `a` and adds `b`. */
  lemma {:induction false} SplitAppend(a: string, sep: string, b: string)
    requires |sep| == 1 && !Contains(b, sep)
    ensures Split(a + sep + b, sep) == Split(a, sep) + [b]
    decreases |a|
  {
    var i := Find(a, sep);
    if i < 0 {
      SplitHead(a, sep, b);
    } else {
      var head := a[..i];
      var rest := a[i + 1..];
      SplitUnfold(a, sep, i);
      SplitAppendStep(a, sep, b, i);
      SplitAppend(rest, sep, b);
      assert [head] + (Split(rest, sep) + [b]) == ([head] + Split(rest, sep)) + [b];
    }
  }

  /** `a + sep + b` splits first at the first separator in `a`. */
  lemma SplitAppendStep(a: string, sep: string, b: string, i: int)
    requires |sep| == 1 && i == Find(a, sep) && i >= 0
    ensures Split(a + sep + b, sep) == [a[..i]] + Split(a[i + 1..] + sep + b, sep)
  {
    var c := sep + b;
    var s := a + c;
    assert a + sep + b == s;
    FindInPrefix(a, c, sep);
    HeadOfAppend(a, c, i);
    TailOfAppend(a, c, i + 1);
    assert a[i + 1..] + c == a[i + 1..] + sep + b;
    SplitUnfold(s, sep, i);
  }

  /** A prefix of `a + c` no longer than `a` is a prefix of `a`. */
  lemma HeadOfAppend<T>(a: seq<T>, c: seq<T>, i: int)
    requires 0 <= i <= |a|
    ensures (a + c)[..i] == a[..i]
  {
  }

  /** A suffix of `a + c` starting inside `a` is the rest of `a`, then `c`. */
  lemma TailOfAppend<T>(a: seq<T>, c: seq<T>, i: int)
    requires 0 <= i <= |a|
    ensures (a + c)[i..] == a[i..] + c
  {
  }

  /** The first occurrence in `a` is the first in anything `a` starts. */
  lemma FindInPrefix(a: string, c: string, pat: string)
    requires Find(a, pat) >= 0
    ensures Find(a + c, pat) == Find(a, pat)
  {
    var i := Find(a, pat);
    var s := a + c;
    assert OccursAt(s, pat, i) by {
      assert s[i..i + |pat|] == a[i..i + |pat|];
    }
    var r := Find(s, pat);
    assert 0 <= r <= i;
    assert s[r..r + |pat|] == a[r..r + |pat|];
    assert OccursAt(a, pat, r);
  }

  /** A head without the separator's first character ends at the first
      separator. */
  lemma SplitHeadFree(a: string, sep: string, b: string)
    requires |sep| > 0 && !HasChar(a, sep[0])
    ensures Split(a + sep + b, sep) == [a] + Split(b, sep)
  {
    var s := a + sep + b;
    assert s[|a|..|a| + |sep|] == sep;
    assert OccursAt(s, sep, |a|);
    forall j | j < |a|
      ensures !OccursAt(s, sep, j)
    {
      if 0 <= j && j + |sep| <= |s| {
        assert s[j..j + |sep|][0] == s[j] == a[j];
      }
    }
    SplitUnfold(s, sep, |a|);
    assert s[..|a|] == a;
    assert s[|a| + |sep|..] == b;
  }

  /** Pieces without the separator's first character come back from
      splitting their join. */
  lemma {:induction false} SplitJoinFree(sep: string, parts: seq<string>)
    requires |sep| > 0 && |parts| >= 1
    requires forall k :: 0 <= k < |parts| ==> !HasChar(parts[k], sep[0])
    ensures Split(Join(sep, parts), sep) == parts
    decreases |parts|
  {
    if |parts| == 1 {
      if Contains(parts[0], sep) {
        ContainsFirstChar(parts[0], sep);
      }
    } else {
      var rest := parts[1..];
      assert forall k :: 0 <= k < |rest| ==> rest[k] == parts[k + 1];
      SplitJoinFree(sep, rest);
      var tail := Join(sep, rest);
      assert Join(sep, parts) == parts[0] + sep + tail;
      SplitHeadFree(parts[0], sep, tail);
      assert [parts[0]] + rest == parts;
    }
  }

  /** A character is in a concatenation exactly when it is in one half. */
  lemma HasCharConcat(a: string, b: string, c: char)
    ensures HasChar(a + b, c) <==> HasChar(a, c) || HasChar(b, c)
  {
    if HasChar(a + b, c) {
      var i :| 0 <= i < |a + b| && (a + b)[i] == c;
      if i >= |a| {
        assert b[i - |a|] == c;
      }
    }
    if HasChar(a, c) {
      var i :| 0 <= i < |a| && a[i] == c;
      assert (a + b)[i] == c;
    }
    if HasChar(b, c) {
      var i :| 0 <= i < |b| && b[i] == c;
      assert (a + b)[|a| + i] == c;
    }
  }

  /** The first piece begins the joined string. */
  lemma JoinStartsWith(sep: string, parts: seq<string>)
    requires |parts| >= 1
    ensures StartsWith(Join(sep, parts), parts[0])
  {
    if |parts| >= 2 {
      assert Join(sep, parts)[..|parts[0]|] == parts[0];
    }
  }

  /** What occurs in an occurring string occurs in the whole. */
  lemma ContainsTransitive(s: string, mid: string, pat: string)
    requires Contains(s, mid) && Contains(mid, pat)
    ensures Contains(s, pat)
  {
    var j := Find(mid, pat);
    ContainsWithin(s, mid, pat, j);
  }
}
