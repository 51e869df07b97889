/** `ArxivFetcher`: reading Atom entries into records and the end of the
    fetch. The HTTP request and the Atom parsing are parameters: for each
    category, the list of parsed entries, or `None` when the request
    raised. */
module Arxiv {
  import opened Wrappers
  import opened Text
  import opened Seqs
  import opened Papers
  import opened Fetchers

  /** An Atom entry as `feedparser` gives it. A missing `id` makes reading
      the entry raise, and so does an author without a `name` or a tag
      without a `term`: those are `None` in `authors` and `tags`. An entry
      without an `authors` attribute has no authors here. */
  datatype Entry = Entry(
    id: Option<string>,
    title: Option<string>,
    authors: seq<Option<string>>,
    summary: Option<string>,
    link: Option<string>,
    published: Option<string>,
    tags: seq<Option<string>>)

  function Last<T>(s: seq<T>): T
    requires |s| > 0
  {
    s[|s| - 1]
  }

  /** The last `/`-separated segment of the entry id, cut at the first `v`,
      which drops the version. */
  function ArxivId(entryId: string): (r: string)
    ensures !HasChar(r, '/') && !HasChar(r, 'v')
  {
    var seg := Last(Split(entryId, "/"));
    var r := Split(seg, "v")[0];
    SplitPartsFree(entryId, "/");
    SplitPartsFree(seg, "v");
    SplitFirstIsPrefix(seg, "v");
    CharPatternIff(r, 'v');
    CharPatternIff(seg, '/');
    CharPatternIff(r, '/');
    assert !HasChar(r, '/') by {
      if Contains(r, "/") {
        ContainsPrefix(r, seg, "/");
      }
    }
    r
  }

  /** The id of a versioned abstract URL is its number. */
  lemma ArxivIdOf(prefix: string, number: string, version: string)
    requires !HasChar(number, '/') && !HasChar(number, 'v') && !HasChar(version, '/')
    ensures ArxivId(prefix + "/" + number + "v" + version) == number
  {
    var tail := number + "v" + version;
    assert !HasChar(tail, '/') by {
      forall i | 0 <= i < |tail|
        ensures tail[i] != '/'
      {
        if i < |number| {
          assert tail[i] == number[i];
        } else if i > |number| {
          assert tail[i] == version[i - |number| - 1];
        }
      }
    }
    CharPatternIff(tail, '/');
    SplitLastPart(prefix, "/", tail);
    assert prefix + "/" + number + "v" + version == prefix + "/" + tail;
    CharPatternIff(number, 'v');
    SplitHead(number, "v", version);
  }

  /** Every value is present. */
  predicate AllPresent(xs: seq<Option<string>>) {
    forall i :: 0 <= i < |xs| ==> xs[i].Some?
  }

  /** The values, with a missing one read as empty; only used for entries
      in which every value is present. */
  function Values(xs: seq<Option<string>>): (r: seq<string>)
    ensures |r| == |xs|
    ensures forall i :: 0 <= i < |xs| && xs[i].Some? ==> r[i] == xs[i].value
  {
    MapSeq(xs, (o: Option<string>) => o.GetOr(""))
  }

  /** Reading the entry does not raise. */
  predicate EntryReads(e: Entry) {
    e.id.Some? && AllPresent(e.authors) && AllPresent(e.tags)
  }

  /** The dictionary built from an entry that reads. */
  function EntryRecord(e: Entry): Raw {
    Raw(
      Some("arxiv:" + ArxivId(e.id.GetOr(""))),
      Some(e.title.GetOr("")),
      Some(Values(e.authors)),
      Some(Abstract(e.summary.GetOr(""))),
      Some(e.link.GetOr("")),
      None,
      Some(e.published.GetOr("")),
      Some(Values(e.tags)))
  }

  /** `_parse_arxiv_entry`: `None` is the empty dictionary returned when
      reading the entry raised. Every field is carried over, a missing one
      read as empty; the parser sets no PDF link. */
  function ParseEntry(e: Entry): (r: Option<Raw>)
    ensures r.Some? <==>
      e.id.Some? && (forall i :: 0 <= i < |e.authors| ==> e.authors[i].Some?) &&
      (forall i :: 0 <= i < |e.tags| ==> e.tags[i].Some?)
    ensures r.Some? ==> r.value.id == Some("arxiv:" + ArxivId(e.id.value))
    ensures r.Some? ==> (r.value.title == Some(e.title.GetOr("")) && r.value.url == Some(e.link.GetOr("")) &&
      r.value.publishedDate == Some(e.published.GetOr("")))
    ensures r.Some? ==> r.value.abstractText == Some(Abstract(e.summary.GetOr("")))
    ensures r.Some? ==> (r.value.authors.Some? && |r.value.authors.value| == |e.authors| &&
      forall i :: 0 <= i < |e.authors| ==> Some(r.value.authors.value[i]) == e.authors[i])
    ensures r.Some? ==> (r.value.categories.Some? && |r.value.categories.value| == |e.tags| &&
      forall i :: 0 <= i < |e.tags| ==> Some(r.value.categories.value[i]) == e.tags[i])
    ensures r.Some? ==> r.value.pdfUrl.None?
  {
    if EntryReads(e) then Some(EntryRecord(e)) else None
  }

  /** The abstract: newlines become spaces, then the ends are stripped. */
  function Abstract(summary: string): (r: string)
    ensures !HasChar(r, '\n')
    ensures Trimmed(r)
  {
    var flat := Replace(summary, "\n", " ");
    ReplaceRemovesChar(summary, '\n', " ");
    StripSubstring(flat);
    Strip(flat)
  }

  /** A one-line summary without white space at its ends is its own
      abstract. */
  lemma AbstractKeepsClean(summary: string)
    requires !HasChar(summary, '\n') && Trimmed(summary)
    ensures Abstract(summary) == summary
  {
    CharPatternIff(summary, '\n');
    assert Split(summary, "\n") == [summary];
    StripKeeps(summary);
  }

  /** The newline between two lines becomes a space before the ends are
      stripped. */
  lemma AbstractJoinsLines(a: string, b: string)
    requires !HasChar(a, '\n') && !HasChar(b, '\n')
    ensures Abstract(a + "\n" + b) == Strip(a + " " + b)
  {
    var s := a + "\n" + b;
    assert forall i :: 0 <= i < |a| ==> s[i] == a[i];
    assert forall i :: 0 <= i < |b| ==> s[|a| + 1 + i] == b[i];
    forall j | OccursAt(s, "\n", j)
      ensures j == |a|
    {
      assert s[j..j + 1] == "\n";
      assert s[j] == '\n';
    }
    ReplaceSingle(a, "\n", b, " ");
  }

  /** The entries of one response that read without raising. */
  function ParseAll(es: seq<Entry>): (rs: seq<Raw>)
    ensures |rs| <= |es|
    ensures forall r :: r in rs <==> exists e :: e in es && ParseEntry(e) == Some(r)
    ensures rs == MapSeq(Filter(es, EntryReads), EntryRecord)
  {
    FilterMapSplit(es, ParseEntry, EntryReads, EntryRecord);
    FilterMap(es, ParseEntry)
  }

  /** The records of one category: a failed request gives none. */
  function CategoryRecords(response: Option<seq<Entry>>): seq<Raw> {
    ParseAll(response.GetOr([]))
  }

  function AllRecords(responses: seq<Option<seq<Entry>>>): (rs: seq<seq<Raw>>)
    ensures |rs| == |responses|
    ensures forall i :: 0 <= i < |responses| ==> rs[i] == CategoryRecords(responses[i])
  {
    seq(|responses|, i requires 0 <= i < |responses| => CategoryRecords(responses[i]))
  }

  predicate IsArxivId(id: string) {
    StartsWith(id, "arxiv:")
  }

  /** Every category's records, in category order. */
  function Records(responses: seq<Option<seq<Entry>>>): seq<Raw> {
    Flatten(AllRecords(responses))
  }

  /** `fetch`: nothing when disabled; otherwise every category's records,
      deduplicated, normalised with platform `arxiv`, and the valid ones
      kept: exactly the valid normalisations of the first record with each
      id. Parsed entries carry no `pdf_url`, and the normalisation would drop
      one anyway, so no paper has a PDF link. */
  function Fetch(enabled: bool, responses: seq<Option<seq<Entry>>>): (ps: seq<Paper>)
    ensures !enabled ==> ps == []
    ensures forall p :: p in ps ==> p.pdfUrl == ""
    ensures forall p :: p in ps ==> IsValid(p) && p.platform == Some("arxiv") && IsArxivId(p.id)
    ensures forall a, b :: 0 <= a < b < |ps| ==> ps[a].id != ps[b].id
    ensures enabled ==> forall i ::
      (FirstWithId(Records(responses), RawId, i) && IsValid(NormalizeAsWritten(Records(responses)[i], "arxiv")) ==>
       NormalizeAsWritten(Records(responses)[i], "arxiv") in ps)
    ensures forall p :: p in ps ==>
      exists i :: FirstWithId(Records(responses), RawId, i) && p == NormalizeAsWritten(Records(responses)[i], "arxiv")
  {
    if !enabled then []
    else
      var raws := Records(responses);
      var ps := Collect(raws, "arxiv", false);
      assert forall i :: 0 <= i < |raws| ==> NormalizeBy(raws[i], "arxiv", false) == NormalizeAsWritten(raws[i], "arxiv");
      ArxivIds(responses, ps);
      ps
  }

  /** Every paper collected from the responses carries an arXiv id. */
  lemma ArxivIds(responses: seq<Option<seq<Entry>>>, ps: seq<Paper>)
    requires ps == Collect(Records(responses), "arxiv", false)
    ensures forall p :: p in ps ==> IsArxivId(p.id)
  {
    var raws := Records(responses);
    forall p | p in ps
      ensures IsArxivId(p.id)
    {
      var i :| FirstWithId(raws, RawId, i) && p == NormalizeBy(raws[i], "arxiv", false);
      RecordIsArxiv(responses, raws[i]);
    }
  }

  /** Every record read from the responses has an arXiv id. */
  lemma RecordIsArxiv(responses: seq<Option<seq<Entry>>>, r: Raw)
    requires r in Records(responses)
    ensures r.id.Some? && IsArxivId(r.id.value)
  {
    var k :| 0 <= k < |responses| && r in AllRecords(responses)[k];
    var e :| e in responses[k].GetOr([]) && ParseEntry(e) == Some(r);
    StartsWithAppend("arxiv:", ArxivId(e.id.value));
  }

  /** The search query of `fetch_by_ids`: the `id:`-prefixed ids joined
      with ` OR `. */
  function IdQuery(ids: seq<string>): (q: string)
    ensures forall k :: 0 <= k < |ids| ==> Contains(q, "id:" + ids[k])
  {
    var terms := IdTerms(ids);
    forall k | 0 <= k < |ids|
      ensures Contains(Join(" OR ", terms), "id:" + ids[k])
    {
      JoinContainsPart(" OR ", terms, k);
    }
    Join(" OR ", terms)
  }

  function IdTerms(ids: seq<string>): (terms: seq<string>)
    ensures |terms| == |ids|
    ensures forall k :: 0 <= k < |ids| ==> terms[k] == "id:" + ids[k]
  {
    seq(|ids|, i requires 0 <= i < |ids| => "id:" + ids[i])
  }

  /** Splitting the query on ` OR ` gives back one `id:` term per id, in
      order, for ids without spaces. */
  lemma IdQueryRoundTrip(ids: seq<string>)
    requires |ids| >= 1
    requires forall k :: 0 <= k < |ids| ==> !HasChar(ids[k], ' ')
    ensures Split(IdQuery(ids), " OR ") == IdTerms(ids)
  {
    var terms := IdTerms(ids);
    forall k | 0 <= k < |terms|
      ensures !HasChar(terms[k], " OR "[0])
    {
      assert !HasChar("id:", ' ');
      HasCharConcat("id:", ids[k], ' ');
    }
    SplitJoinFree(" OR ", terms);
  }

  /** `fetch_by_ids`: no request for no ids; otherwise every entry of the
      response to the query that reads, normalised, with neither
      deduplication nor the validity check. `request(query)` is the parsed
      response, or `None` when the request raised. */
  function FetchByIds(ids: seq<string>, request: string -> Option<seq<Entry>>): (ps: seq<Paper>)
    ensures ids == [] ==> ps == []
    ensures ids != [] ==> |ps| == |CategoryRecords(request(IdQuery(ids)))|
    ensures ids != [] && request(IdQuery(ids)).None? ==> ps == []
    ensures forall p :: p in ps ==> p.platform == Some("arxiv") && IsArxivId(p.id)
    ensures ids != [] ==> forall k :: 0 <= k < |ps| ==>
      ps[k] == NormalizeAsWritten(CategoryRecords(request(IdQuery(ids)))[k], "arxiv")
  {
    if ids == [] then []
    else
      var rs := CategoryRecords(request(IdQuery(ids)));
      ArxivNormalized(request(IdQuery(ids)));
      NormalizeAll(rs, "arxiv", false)
  }

  /** The records of one response, normalised as the program does: the
      platform is `arxiv` and every id is an arXiv id. */
  lemma ArxivNormalized(response: Option<seq<Entry>>)
    ensures var rs := CategoryRecords(response);
      forall k :: 0 <= k < |rs| ==> NormalizeAll(rs, "arxiv", false)[k] == NormalizeAsWritten(rs[k], "arxiv")
    ensures forall p :: p in NormalizeAll(CategoryRecords(response), "arxiv", false) ==>
      p.platform == Some("arxiv") && IsArxivId(p.id)
  {
    var rs := CategoryRecords(response);
    var ps := NormalizeAll(rs, "arxiv", false);
    forall p | p in ps
      ensures p.platform == Some("arxiv") && IsArxivId(p.id)
    {
      var k :| 0 <= k < |ps| && ps[k] == p;
      assert rs[k] in rs;
      var e :| e in response.GetOr([]) && ParseEntry(e) == Some(rs[k]);
      StartsWithAppend("arxiv:", ArxivId(e.id.value));
    }
  }
}
