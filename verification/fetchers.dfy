/** `BaseFetcher`: the record handling every platform fetcher shares. A raw
    record is the dictionary a fetcher's entry parser builds; every key may
    be absent. */
module Fetchers {
  import opened Wrappers
  import opened Text
  import opened Seqs
  import opened Papers

  datatype Raw = Raw(
    id: Option<string>,
    title: Option<string>,
    authors: Option<seq<string>>,
    abstractText: Option<string>,
    url: Option<string>,
    pdfUrl: Option<string>,
    publishedDate: Option<string>,
    categories: Option<seq<string>>)

  /** A value Python treats as true: present and non-empty. */
  predicate Truthy(s: Option<string>) {
    s.Some? && |s.value| > 0
  }

  /** `_normalize_paper` as written: title and abstract stripped, `platform`
      set, absent keys defaulted, and `pdf_url` not carried over. */
  function NormalizeAsWritten(r: Raw, platform: string): (p: Paper)
    ensures p.id == r.id.GetOr("")
    ensures Trimmed(p.title) && Trimmed(p.abstractText)
    ensures p.platform == Some(platform)
    ensures p.pdfUrl == ""
    ensures p.summary.None? && p.summaryLanguage.None? && p.similarityScore.None? && p.pdfPath.None?
  {
    var title := Strip(r.title.GetOr(""));
    var abstractText := Strip(r.abstractText.GetOr(""));
    Paper(r.id.GetOr(""), title, abstractText,
      r.authors.GetOr([]), r.url.GetOr(""), "", r.publishedDate.GetOr(""), Some(platform),
      r.categories.GetOr([]), None, None, None, None)
  }

  /** `_normalize_paper` carrying `pdf_url` over, which the PDF step reads:
      the as-written record with the link put back. */
  function Normalize(r: Raw, platform: string): (p: Paper)
    ensures p.pdfUrl == r.pdfUrl.GetOr("")
    ensures p.(pdfUrl := "") == NormalizeAsWritten(r, platform)
  {
    NormalizeAsWritten(r, platform).(pdfUrl := r.pdfUrl.GetOr(""))
  }

  /** The normalisation a fetcher applies: the program's (`keepPdf` false)
      or the corrected one. */
  function NormalizeBy(r: Raw, platform: string, keepPdf: bool): Paper {
    if keepPdf then Normalize(r, platform) else NormalizeAsWritten(r, platform)
  }

  /** The record a normalised paper reads as. */
  function AsRaw(p: Paper): Raw {
    Raw(Some(p.id), Some(p.title), Some(p.authors), Some(p.abstractText), Some(p.url),
      Some(p.pdfUrl), Some(p.publishedDate), Some(p.categories))
  }

  /** Normalising a normalised paper again changes nothing. */
  lemma NormalizeIdempotent(r: Raw, platform: string)
    ensures NormalizeAsWritten(AsRaw(NormalizeAsWritten(r, platform)), platform) == NormalizeAsWritten(r, platform)
  {
    StripIdempotent(r.title.GetOr(""));
    StripIdempotent(r.abstractText.GetOr(""));
  }

  /** A fetched bioRxiv record keeps its PDF link only with the corrected
      normalisation. */
  lemma NormalizeDropsPdfUrl(r: Raw, platform: string)
    requires Truthy(r.pdfUrl)
    ensures NormalizeAsWritten(r, platform).pdfUrl == ""
    ensures Normalize(r, platform).pdfUrl == r.pdfUrl.value
    ensures Normalize(r, platform) != NormalizeAsWritten(r, platform)
  {
  }

  /** `_is_valid_paper`. */
  predicate IsValid(p: Paper) {
    |p.title| > 0 && |p.abstractText| > 0 && |p.id| > 0
  }

  /** A normalised record is valid exactly when it has an id and its title
      and abstract are not all white space. */
  lemma ValidAfterNormalize(r: Raw, platform: string)
    ensures IsValid(NormalizeAsWritten(r, platform)) <==>
      Truthy(r.id) && !AllSpace(r.title.GetOr("")) && !AllSpace(r.abstractText.GetOr(""))
  {
    StripEmptyIff(r.title.GetOr(""));
    StripEmptyIff(r.abstractText.GetOr(""));
  }

  // ---------------------------------------------------------------------
  // Deduplication.

  /** `x` is the first element of `xs` carrying its id, and that id is
      truthy. */
  predicate FirstWithId<T>(xs: seq<T>, id: T -> Option<string>, i: int) {
    0 <= i < |xs| && Truthy(id(xs[i])) && forall j :: 0 <= j < i ==> id(xs[j]) != id(xs[i])
  }

  /** The loop of `deduplicate` from some point on, with the ids seen so
      far. */
  function DedupFrom<T>(xs: seq<T>, id: T -> Option<string>, seen: set<string>): (r: seq<T>)
    ensures IsSubsequence(r, xs)
    ensures forall k :: 0 <= k < |r| ==> Truthy(id(r[k])) && id(r[k]).value !in seen
    ensures forall a, b :: 0 <= a < b < |r| ==> id(r[a]) != id(r[b])
    decreases |xs|
  {
    if xs == [] then []
    else
      var x := xs[0];
      if Truthy(id(x)) && id(x).value !in seen then
        var rest := DedupFrom(xs[1..], id, seen + {id(x).value});
        var r := [x] + rest;
        assert r[1..] == rest;
        r
      else DedupFrom(xs[1..], id, seen)
  }

  /** `deduplicate`: the first paper with each truthy id, in order. */
  function Dedup<T>(xs: seq<T>, id: T -> Option<string>): (r: seq<T>)
    ensures IsSubsequence(r, xs)
    ensures forall k :: 0 <= k < |r| ==> Truthy(id(r[k]))
    ensures forall a, b :: 0 <= a < b < |r| ==> id(r[a]) != id(r[b])
  {
    DedupFrom(xs, id, {})
  }

  /** Every kept element is the first with its id, and that id was not
      seen before the loop reached this point. */
  lemma {:induction false} DedupFromSound<T>(xs: seq<T>, id: T -> Option<string>, seen: set<string>, x: T) returns (i: int)
    requires x in DedupFrom(xs, id, seen)
    ensures FirstWithId(xs, id, i) && xs[i] == x && id(x).value !in seen
    decreases |xs|
  {
    var y := xs[0];
    var take := Truthy(id(y)) && id(y).value !in seen;
    var seen' := if take then seen + {id(y).value} else seen;
    if take && x == y {
      i := 0;
    } else {
      assert x in DedupFrom(xs[1..], id, seen');
      var i' := DedupFromSound(xs[1..], id, seen', x);
      i := i' + 1;
      assert xs[i] == x;
      assert id(y) != id(x);
      forall j | 0 < j < i
        ensures id(xs[j]) != id(xs[i])
      {
        assert xs[j] == xs[1..][j - 1];
      }
    }
  }

  /** The first element with a truthy id not seen before is kept. */
  lemma {:induction false} DedupFromComplete<T>(xs: seq<T>, id: T -> Option<string>, seen: set<string>, i: int)
    requires FirstWithId(xs, id, i) && id(xs[i]).value !in seen
    ensures xs[i] in DedupFrom(xs, id, seen)
    decreases |xs|
  {
    var y := xs[0];
    var take := Truthy(id(y)) && id(y).value !in seen;
    var seen' := if take then seen + {id(y).value} else seen;
    if i > 0 {
      assert id(y) != id(xs[i]);
      assert xs[1..][i - 1] == xs[i];
      forall j | 0 <= j < i - 1
        ensures id(xs[1..][j]) != id(xs[1..][i - 1])
      {
        assert xs[1..][j] == xs[j + 1];
      }
      DedupFromComplete(xs[1..], id, seen', i - 1);
    }
  }

  /** Exactly the first element with each truthy id is kept. */
  lemma DedupMember<T>(xs: seq<T>, id: T -> Option<string>, x: T)
    ensures x in Dedup(xs, id) <==> exists i :: FirstWithId(xs, id, i) && xs[i] == x
  {
    if x in Dedup(xs, id) {
      var i := DedupFromSound(xs, id, {}, x);
    }
    if exists i :: FirstWithId(xs, id, i) && xs[i] == x {
      var i :| FirstWithId(xs, id, i) && xs[i] == x;
      DedupFromComplete(xs, id, {}, i);
    }
  }

  /** A list whose ids are truthy and distinct is its own deduplication, so
      deduplicating twice is deduplicating once. */
  lemma {:induction false} DedupDistinct<T>(xs: seq<T>, id: T -> Option<string>, seen: set<string>)
    requires forall k :: 0 <= k < |xs| ==> Truthy(id(xs[k])) && id(xs[k]).value !in seen
    requires forall a, b :: 0 <= a < b < |xs| ==> id(xs[a]) != id(xs[b])
    ensures DedupFrom(xs, id, seen) == xs
    decreases |xs|
  {
    if xs != [] {
      var seen' := seen + {id(xs[0]).value};
      forall k | 0 <= k < |xs[1..]|
        ensures Truthy(id(xs[1..][k])) && id(xs[1..][k]).value !in seen'
      {
        assert id(xs[0]) != id(xs[k + 1]);
      }
      DedupDistinct(xs[1..], id, seen');
    }
  }

  lemma DedupIdempotent<T>(xs: seq<T>, id: T -> Option<string>)
    ensures Dedup(Dedup(xs, id), id) == Dedup(xs, id)
  {
    DedupDistinct(Dedup(xs, id), id, {});
  }

  function RawId(r: Raw): Option<string> {
    r.id
  }

  // ---------------------------------------------------------------------
  // The end of every `fetch` and `filter_by_date`.

  function NormalizeAll(rs: seq<Raw>, platform: string, keepPdf: bool): (ps: seq<Paper>)
    ensures |ps| == |rs|
    ensures forall i :: 0 <= i < |rs| ==> ps[i] == NormalizeBy(rs[i], platform, keepPdf)
  {
    seq(|rs|, i requires 0 <= i < |rs| => NormalizeBy(rs[i], platform, keepPdf))
  }

  /** Deduplicate, normalise with the platform name, keep the valid ones:
      exactly the valid normalisations of the first record with each id, in
      order, no id twice. The program normalises with `keepPdf` false, so
      no collected paper has a PDF link. */
  function Collect(rs: seq<Raw>, platform: string, keepPdf: bool): (ps: seq<Paper>)
    ensures forall p :: p in ps ==> IsValid(p) && p.platform == Some(platform)
    ensures !keepPdf ==> forall p :: p in ps ==> p.pdfUrl == ""
    ensures forall a, b :: 0 <= a < b < |ps| ==> ps[a].id != ps[b].id
    ensures forall p :: p in ps ==>
      exists i :: FirstWithId(rs, RawId, i) && p == NormalizeBy(rs[i], platform, keepPdf)
    ensures forall i :: FirstWithId(rs, RawId, i) && IsValid(NormalizeBy(rs[i], platform, keepPdf)) ==>
      NormalizeBy(rs[i], platform, keepPdf) in ps
    ensures IsSubsequence(ps, NormalizeAll(Dedup(rs, RawId), platform, keepPdf))
  {
    var ps := Filter(NormalizeAll(Dedup(rs, RawId), platform, keepPdf), IsValid);
    CollectDistinct(rs, platform, keepPdf);
    CollectSound(rs, platform, keepPdf, ps);
    CollectComplete(rs, platform, keepPdf, ps);
    ps
  }

  lemma CollectDistinct(rs: seq<Raw>, platform: string, keepPdf: bool)
    ensures var ps := Filter(NormalizeAll(Dedup(rs, RawId), platform, keepPdf), IsValid);
      forall a, b :: 0 <= a < b < |ps| ==> ps[a].id != ps[b].id
  {
    var ds := Dedup(rs, RawId);
    var ns := NormalizeAll(ds, platform, keepPdf);
    forall a, b | 0 <= a < b < |ns|
      ensures ns[a].id != ns[b].id
    {
      assert ns[a].id == RawId(ds[a]).value && ns[b].id == RawId(ds[b]).value;
    }
    DistinctIdsKept(ns, Filter(ns, IsValid));
  }

  /** Every collected paper is the normalisation of the first record with
      its id. */
  lemma CollectSound(rs: seq<Raw>, platform: string, keepPdf: bool, ps: seq<Paper>)
    requires ps == Filter(NormalizeAll(Dedup(rs, RawId), platform, keepPdf), IsValid)
    ensures forall p :: p in ps ==> exists i :: FirstWithId(rs, RawId, i) && p == NormalizeBy(rs[i], platform, keepPdf)
  {
    var ds := Dedup(rs, RawId);
    var ns := NormalizeAll(ds, platform, keepPdf);
    forall p | p in ps
      ensures exists i :: FirstWithId(rs, RawId, i) && p == NormalizeBy(rs[i], platform, keepPdf)
    {
      var j :| 0 <= j < |ns| && ns[j] == p;
      DedupMember(rs, RawId, ds[j]);
    }
  }

  /** The first record with each id is collected when its normalisation is
      valid. */
  lemma CollectComplete(rs: seq<Raw>, platform: string, keepPdf: bool, ps: seq<Paper>)
    requires ps == Filter(NormalizeAll(Dedup(rs, RawId), platform, keepPdf), IsValid)
    ensures forall i :: FirstWithId(rs, RawId, i) && IsValid(NormalizeBy(rs[i], platform, keepPdf)) ==>
      NormalizeBy(rs[i], platform, keepPdf) in ps
  {
    var ns := NormalizeAll(Dedup(rs, RawId), platform, keepPdf);
    forall i | FirstWithId(rs, RawId, i) && IsValid(NormalizeBy(rs[i], platform, keepPdf))
      ensures NormalizeBy(rs[i], platform, keepPdf) in ps
    {
      FirstNormalized(rs, platform, keepPdf, ns, i);
      FilterMember(ns, IsValid, NormalizeBy(rs[i], platform, keepPdf));
    }
  }

  /** The first record with an id survives deduplication, so its
      normalisation is among the normalised records. */
  lemma FirstNormalized(rs: seq<Raw>, platform: string, keepPdf: bool, ns: seq<Paper>, i: int)
    requires ns == NormalizeAll(Dedup(rs, RawId), platform, keepPdf)
    requires FirstWithId(rs, RawId, i)
    ensures NormalizeBy(rs[i], platform, keepPdf) in ns
  {
    var ds := Dedup(rs, RawId);
    DedupMember(rs, RawId, rs[i]);
    var j :| 0 <= j < |ds| && ds[j] == rs[i];
    assert ns[j] == NormalizeBy(rs[i], platform, keepPdf);
  }

  /** Every paper with its PDF link blanked. */
  function BlankPdf(ps: seq<Paper>): (r: seq<Paper>)
    ensures |r| == |ps|
    ensures forall k :: 0 <= k < |ps| ==> r[k] == ps[k].(pdfUrl := "")
  {
    MapSeq(ps, Blank)
  }

  function Blank(p: Paper): Paper {
    p.(pdfUrl := "")
  }

  /** The program's collection is the corrected one with every PDF link
      blanked: the two differ in nothing else. */
  lemma CollectDropsOnlyPdf(rs: seq<Raw>, platform: string)
    ensures Collect(rs, platform, false) == BlankPdf(Collect(rs, platform, true))
  {
    var ds := Dedup(rs, RawId);
    var ns := NormalizeAll(ds, platform, true);
    assert NormalizeAll(ds, platform, false) == BlankPdf(ns);
    FilterBlank(ns);
  }

  /** Filtering by validity commutes with blanking the PDF link, which
      validity does not read. */
  lemma FilterBlank(ns: seq<Paper>)
    ensures Filter(BlankPdf(ns), IsValid) == BlankPdf(Filter(ns, IsValid))
  {
    FilterMapSeq(ns, IsValid, Blank);
  }

  /** Filtering keeps ids distinct. */
  lemma {:induction false} DistinctIdsKept(ns: seq<Paper>, ps: seq<Paper>)
    requires forall a, b :: 0 <= a < b < |ns| ==> ns[a].id != ns[b].id
    requires IsSubsequence(ps, ns)
    ensures forall a, b :: 0 <= a < b < |ps| ==> ps[a].id != ps[b].id
    decreases |ns|
  {
    if ps != [] && ns != [] {
      var tail := ns[1..];
      assert forall a, b :: 0 <= a < b < |tail| ==> tail[a].id != tail[b].id by {
        forall a, b | 0 <= a < b < |tail|
          ensures tail[a].id != tail[b].id
        {
          assert tail[a] == ns[a + 1] && tail[b] == ns[b + 1];
        }
      }
      if ps[0] == ns[0] && IsSubsequence(ps[1..], tail) {
        DistinctIdsKept(tail, ps[1..]);
        forall b | 0 < b < |ps|
          ensures ps[0].id != ps[b].id
        {
          assert ps[1..][b - 1] in ps[1..];
          SubsequenceMember(ps[1..], tail, ps[b]);
          var m :| 0 <= m < |tail| && tail[m] == ps[b];
          assert ns[m + 1] == ps[b];
        }
      } else {
        DistinctIdsKept(tail, ps);
      }
    }
  }

  /** `filter_by_date`'s test: a non-empty publication date that contains
      the target date. */
  predicate OnDate(p: Paper, target: string) {
    |p.publishedDate| > 0 && Contains(p.publishedDate, target)
  }

  /** `filter_by_date`: every matching paper, as often as it occurs, in
      order. */
  function FilterByDate(papers: seq<Paper>, target: string): (r: seq<Paper>)
    ensures forall p :: p in r <==> p in papers && |p.publishedDate| > 0 && Contains(p.publishedDate, target)
    ensures forall p :: multiset(r)[p] == (if OnDate(p, target) then multiset(papers)[p] else 0)
    ensures IsSubsequence(r, papers)
  {
    Filter(papers, p => OnDate(p, target))
  }
}
