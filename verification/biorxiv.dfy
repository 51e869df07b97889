/** `BiorxivFetcher` and `MedrxivFetcher`: reading the details API into
    records, the page URLs and the pagination of one section, and the end of
    the fetch. The HTTP request is a parameter: for a page URL, the decoded
    page, or `None` when the request, the status check or the JSON decoding
    raised. Dates are the already formatted strings. */
module Biorxiv {
  import opened Wrappers
  import opened Text
  import opened Seqs
  import opened Papers
  import opened Fetchers

  const BiorxivApiUrl := "https://api.biorxiv.org/details/biorxiv"
  const MedrxivApiUrl := "https://api.medrxiv.org/details/medrxiv"

  /** The page size of the API and the collection limit of one section. */
  const PageSize := 100
  const MaxPerSection := 1000

  /** The platform configuration the fetcher reads. */
  datatype Config = Config(enabled: Option<bool>, apiUrl: Option<string>, sections: seq<string>)

  datatype Fetcher = Fetcher(platform: string, enabled: bool, apiUrl: string, sections: seq<string>)

  /** `BiorxivFetcher.__init__`: enabled unless configured otherwise, the
      bioRxiv details endpoint unless one is configured. */
  function MakeBiorxiv(c: Config, platform: string): (f: Fetcher)
    ensures f.platform == platform
    ensures f.enabled <==> c.enabled != Some(false)
    ensures c.apiUrl.Some? ==> f.apiUrl == c.apiUrl.value
    ensures c.apiUrl.None? ==> f.apiUrl == BiorxivApiUrl
    ensures f.sections == c.sections
  {
    Fetcher(platform, c.enabled.GetOr(true), c.apiUrl.GetOr(BiorxivApiUrl), c.sections)
  }

  /** `MedrxivFetcher.__init__`: the medRxiv endpoint fills in a missing
      `api_url` of a copy of the configuration, and the platform is
      `medrxiv`. */
  function MakeMedrxiv(c: Config): (f: Fetcher)
    ensures f.platform == "medrxiv"
    ensures c.apiUrl.Some? ==> f.apiUrl == c.apiUrl.value
    ensures c.apiUrl.None? ==> f.apiUrl == MedrxivApiUrl
    ensures f.enabled <==> c.enabled != Some(false)
  {
    MakeBiorxiv(c.(apiUrl := Some(c.apiUrl.GetOr(MedrxivApiUrl))), "medrxiv")
  }

  /** A medRxiv fetcher differs from a bioRxiv one only in its platform and
      its default endpoint. */
  lemma MedrxivIsBiorxiv(c: Config)
    ensures MakeMedrxiv(c) == MakeBiorxiv(c, "medrxiv").(apiUrl := c.apiUrl.GetOr(MedrxivApiUrl))
  {
  }

  // ---------------------------------------------------------------------
  // One entry of the API's `collection`.

  /** An entry of the API reply; a missing key is `None`. */
  datatype Entry = Entry(
    authors: Option<string>,
    doi: Option<string>,
    version: Option<string>,
    title: Option<string>,
    abstractText: Option<string>,
    date: Option<string>,
    category: Option<string>)

  /** The stripped, non-empty pieces. */
  function CleanAuthors(parts: seq<string>): (r: seq<string>)
    ensures |r| <= |parts|
    ensures forall a :: a in r ==> |a| > 0 && exists p :: p in parts && a == Strip(p)
  {
    FilterMap(parts, CleanName)
  }

  /** One stripped name, or none when it is empty. */
  function CleanName(p: string): Option<string> {
    var a := Strip(p);
    if |a| > 0 then Some(a) else None
  }

  /** The `authors` field split on `;`, each name stripped, empty names
      dropped. */
  function Authors(field: string): (r: seq<string>)
    ensures forall k :: 0 <= k < |r| ==> |r[k]| > 0 && !HasChar(r[k], ';')
    ensures forall k :: 0 <= k < |r| ==> Trimmed(r[k])
  {
    var parts := Split(field, ";");
    var r := CleanAuthors(parts);
    SplitPartsFree(field, ";");
    forall k | 0 <= k < |r|
      ensures |r[k]| > 0 && !HasChar(r[k], ';') && Trimmed(r[k])
    {
      assert r[k] in r;
      var p :| p in parts && r[k] == Strip(p);
      CleanNameShape(p, r[k]);
    }
    r
  }

  /** A name stripped from a `;`-free part has no `;`. */
  lemma CleanNameShape(p: string, a: string)
    requires !Contains(p, ";") && a == Strip(p)
    ensures !HasChar(a, ';') && Trimmed(a)
  {
    CharPatternIff(p, ';');
    StripSubstring(p);
  }

  /** A name list joined with `;` reads back as itself, when every name is
      non-empty, has no `;` and no white space at its ends. */
  lemma AuthorsOfJoin(names: seq<string>)
    requires |names| >= 1
    requires forall k :: 0 <= k < |names| ==> |names[k]| > 0 && !HasChar(names[k], ';')
    requires forall k :: 0 <= k < |names| ==> Trimmed(names[k])
    ensures Authors(Join(";", names)) == names
  {
    forall k | 0 <= k < |names|
      ensures !Contains(names[k], ";")
    {
      CharPatternIff(names[k], ';');
    }
    SplitJoin(";", names);
    CleanKeeps(names);
  }

  lemma CleanKeeps(names: seq<string>)
    requires forall k :: 0 <= k < |names| ==> |names[k]| > 0
    requires forall k :: 0 <= k < |names| ==> Trimmed(names[k])
    ensures CleanAuthors(names) == names
  {
    forall k | 0 <= k < |names|
      ensures CleanName(names[k]) == Some(names[k])
    {
      StripKeeps(names[k]);
    }
    FilterMapIdentity(names, CleanName);
  }

  /** An empty `authors` field gives no authors. */
  lemma NoAuthors()
    ensures Authors("") == []
  {
    assert !Contains("", ";");
  }

  /** The version part of the landing page: `v<version>` unless the version
      is empty or `1`. */
  function VersionSuffix(version: string): (r: string)
    ensures r == [] <==> version == [] || version == "1"
    ensures r != [] ==> r == "v" + version
  {
    if |version| > 0 && version != "1" then "v" + version else ""
  }

  function ContentPrefix(platform: string): string {
    "https://www." + platform + ".org/content/"
  }

  /** The abstract with every `<p>` and then every `</p>` removed. */
  function StripParagraphs(s: string): string {
    Replace(Replace(s, "<p>", ""), "</p>", "")
  }

  /** An abstract without markup is left as it is. */
  lemma PlainAbstractUnchanged(s: string)
    requires !HasChar(s, '<')
    ensures StripParagraphs(s) == s
  {
    if Contains(s, "<p>") {
      ContainsFirstChar(s, "<p>");
    }
    ReplaceAbsent(s, "<p>", "");
    if Contains(s, "</p>") {
      ContainsFirstChar(s, "</p>");
    }
    ReplaceAbsent(s, "</p>", "");
  }

  /** A paragraph of plain text loses its tags and nothing else. */
  lemma UnwrapParagraph(s: string)
    requires !HasChar(s, '<')
    ensures StripParagraphs("<p>" + s + "</p>") == s
  {
    UnwrapWith(s, "<p>", "</p>");
  }

  lemma UnwrapWith(s: string, open: string, close: string)
    requires !HasChar(s, '<')
    requires |open| == 3 && open[0] == '<' && open[1] != '/' && open[1] != '<' && open[2] != '<'
    requires |close| == 4 && close[0] == '<' && close[1] == '/' && close[2] != '<' && close[3] != '<'
    ensures Replace(Replace(open + s + close, open, ""), close, "") == s
  {
    var t := s + close;
    OpenOnlyFirst(s, open, close);
    ReplaceSingle("", open, t, "");
    assert "" + open + t == open + s + close;
    assert "" + "" + t == t;
    CloseOnlyLast(s, close);
    ReplaceSingle(s, close, "", "");
    assert s + close + "" == t;
    assert s + "" + "" == s;
  }

  /** The opening tag occurs only at the start of the wrapped text. */
  lemma OpenOnlyFirst(s: string, open: string, close: string)
    requires !HasChar(s, '<')
    requires |open| == 3 && open[0] == '<' && open[1] != '/' && open[1] != '<' && open[2] != '<'
    requires |close| == 4 && close[0] == '<' && close[1] == '/'
    ensures forall j :: OccursAt("" + open + (s + close), open, j) ==> j == 0
  {
    forall j | OccursAt("" + open + (s + close), open, j)
      ensures j == 0
    {
      var w := "" + open + (s + close);
      assert w[j..j + 3][0] == w[j] && w[j..j + 3][1] == w[j + 1];
      if j < 3 {
        assert w[j] == open[j];
      }
    }
  }

  /** The closing tag occurs only at the end of the wrapped text. */
  lemma CloseOnlyLast(s: string, close: string)
    requires !HasChar(s, '<')
    requires |close| == 4 && close[0] == '<' && close[2] != '<' && close[3] != '<'
    ensures forall j :: OccursAt(s + close + "", close, j) ==> j == |s|
  {
    forall j | OccursAt(s + close + "", close, j)
      ensures j == |s|
    {
      var u := s + close + "";
      assert u[j..j + 4][0] == u[j];
    }
  }

  /** `_parse_biorxiv_entry`. Every value it reads is a string here, so the
      parse never raises and never yields the empty dictionary. */
  function ParseEntry(platform: string, e: Entry): (r: Raw)
    ensures r.id == Some(platform + ":" + e.doi.GetOr(""))
    ensures e.doi.GetOr("") == [] ==> r.url == Some("") && r.pdfUrl == Some("")
    ensures e.doi.GetOr("") != [] ==>
      r.url == Some(ContentPrefix(platform) + e.doi.value + VersionSuffix(e.version.GetOr(""))) &&
      r.pdfUrl == Some(r.url.value + ".full.pdf")
    ensures r.categories == Some([e.category.GetOr("")])
    ensures r.authors == Some(Authors(e.authors.GetOr("")))
    ensures r.abstractText == Some(StripParagraphs(e.abstractText.GetOr("")))
  {
    var doi := e.doi.GetOr("");
    var landing := if |doi| > 0 then ContentPrefix(platform) + doi + VersionSuffix(e.version.GetOr("")) else "";
    var pdf := if |doi| > 0 then landing + ".full.pdf" else "";
    Raw(
      Some(platform + ":" + doi),
      Some(e.title.GetOr("")),
      Some(Authors(e.authors.GetOr(""))),
      Some(StripParagraphs(e.abstractText.GetOr(""))),
      Some(landing),
      Some(pdf),
      Some(e.date.GetOr("")),
      Some([e.category.GetOr("")]))
  }

  /** A version-1 DOI links to the bare landing page; a later version gets
      its suffix; the PDF is always the landing page's `.full.pdf`. */
  lemma LandingPageVersions(platform: string, e: Entry)
    requires e.doi.Some? && |e.doi.value| > 0
    ensures e.version == Some("1") || e.version == None || e.version == Some("") ==>
      ParseEntry(platform, e).url == Some(ContentPrefix(platform) + e.doi.value)
    ensures e.version.Some? && |e.version.value| > 0 && e.version.value != "1" ==>
      ParseEntry(platform, e).url == Some(ContentPrefix(platform) + e.doi.value + "v" + e.version.value)
    ensures EndsWith(ParseEntry(platform, e).pdfUrl.value, ".full.pdf")
  {
    var r := ParseEntry(platform, e);
    LandingOf(ContentPrefix(platform) + e.doi.value, e.version.GetOr(""));
    EndsWithAppend(r.url.value, ".full.pdf");
  }

  /** The landing page of a DOI page `p` for each kind of version. */
  lemma LandingOf(p: string, v: string)
    ensures v == [] || v == "1" ==> p + VersionSuffix(v) == p
    ensures |v| > 0 && v != "1" ==> p + VersionSuffix(v) == p + "v" + v
  {
    var suffix := VersionSuffix(v);
    if suffix == [] {
      assert p + suffix == p;
    } else {
      assert p + suffix == p + "v" + v;
    }
  }

  /** What every parsed record looks like: the platform's id prefix, one
      category, and a PDF link that is the landing page's `.full.pdf`, both
      empty together. */
  predicate WellFormed(platform: string, r: Raw) {
    r.id.Some? && StartsWith(r.id.value, platform + ":") &&
    r.url.Some? && r.pdfUrl.Some? &&
    r.pdfUrl.value == (if r.url.value == "" then "" else r.url.value + ".full.pdf") &&
    r.categories.Some? && |r.categories.value| == 1
  }

  lemma ParsedWellFormed(platform: string, e: Entry)
    ensures WellFormed(platform, ParseEntry(platform, e))
  {
    var r := ParseEntry(platform, e);
    assert r.id.value[..|platform + ":"|] == platform + ":";
    if e.doi.GetOr("") != [] {
      assert |r.url.value| >= |ContentPrefix(platform)| > 0;
    }
  }

  function ParseAll(platform: string, es: seq<Entry>): (rs: seq<Raw>)
    ensures |rs| == |es|
    ensures forall i :: 0 <= i < |es| ==> rs[i] == ParseEntry(platform, es[i])
  {
    seq(|es|, i requires 0 <= i < |es| => ParseEntry(platform, es[i]))
  }

  // ---------------------------------------------------------------------
  // `_fetch_by_section`.

  /** The page URL for one cursor position: the API URL up to its last `/`,
      the server, the date interval, the cursor and the format, with the
      section as a `category` query only when it is non-empty. */
  function PageUrl(apiUrl: string, server: string, start: string, end: string, cursor: nat, section: string): (u: string)
    ensures StartsWith(u, BeforeLast(apiUrl, '/') + "/" + server + "/" + start + "/" + end + "/" + NatToString(cursor))
    ensures section == [] ==> EndsWith(u, "/json")
    ensures section != [] ==> EndsWith(u, "/json?category=" + section)
    ensures |u| == |BeforeLast(apiUrl, '/') + "/" + server + "/" + start + "/" + end + "/" + NatToString(cursor)| +
      |"/json"| + (if section != [] then |"?category="| + |section| else 0)
  {
    var head := BeforeLast(apiUrl, '/') + "/" + server + "/" + start + "/" + end + "/" + NatToString(cursor);
    var u := head + "/json";
    var r := if |section| > 0 then u + "?category=" + section else u;
    assert r[..|head|] == head;
    assert u[|u| - 5..] == "/json";
    assert |section| > 0 ==> EndsWith(r, "/json?category=" + section) by {
      if |section| > 0 {
        var tail := "/json?category=" + section;
        assert r == head + tail;
        assert r[|r| - |tail|..] == tail;
      }
    }
    r
  }

  /** The base of the page URLs drops the endpoint's last segment, so the
      server name takes its place. */
  lemma PageUrlBase(prefix: string, last: string, server: string, start: string, end: string, cursor: nat)
    requires !HasChar(last, '/')
    ensures StartsWith(PageUrl(prefix + "/" + last, server, start, end, cursor, ""), prefix + "/" + server + "/")
  {
    var api := prefix + "/" + last;
    BeforeLastOf(prefix, '/', last);
    var b := BeforeLast(api, '/');
    assert b == prefix;
    var u := PageUrl(api, server, start, end, cursor, "");
    var h := b + "/" + server + "/" + start + "/" + end + "/" + NatToString(cursor);
    assert u[..|prefix + "/" + server + "/"|] == h[..|prefix + "/" + server + "/"|];
  }

  /** A decoded page: its `collection`, read as `[]` when absent, and
      whether its `messages` list is non-empty. */
  datatype Page = Page(collection: seq<Entry>, hasMessages: bool)

  /** Whether the loop asks for the next page after reading this one. */
  predicate Continues(p: Page) {
    p.hasMessages && |p.collection| >= PageSize
  }

  /** The loop from `cursor` on, with the records collected so far. A failed
      request ends the loop with what was collected; an empty page ends it;
      a page that is not full, or arrives without messages, is the last; and
      the loop stops once a section has 1000 records. */
  function Paginate(request: string -> Option<Page>, f: Fetcher, start: string, end: string, section: string,
                    cursor: nat, acc: seq<Raw>): (r: seq<Raw>)
    requires |acc| < MaxPerSection
    ensures |acc| <= |r| && r[..|acc|] == acc
    ensures forall i :: |acc| <= i < |r| ==> WellFormed(f.platform, r[i])
    decreases MaxPerSection - |acc|
  {
    match request(PageUrl(f.apiUrl, f.platform, start, end, cursor, section))
    case None => acc
    case Some(page) =>
      if page.collection == [] then acc
      else
        var parsed := ParseAll(f.platform, page.collection);
        var acc' := acc + parsed;
        AppendParsed(f.platform, acc, page.collection);
        if Continues(page) && |acc'| < MaxPerSection then
          var r := Paginate(request, f, start, end, section, cursor + PageSize, acc');
          ExtendWellFormed(f.platform, acc, acc', r);
          r
        else acc'
  }

  lemma AppendParsed(platform: string, acc: seq<Raw>, es: seq<Entry>)
    ensures (acc + ParseAll(platform, es))[..|acc|] == acc
    ensures forall i :: |acc| <= i < |acc| + |es| ==> WellFormed(platform, (acc + ParseAll(platform, es))[i])
  {
    var r := acc + ParseAll(platform, es);
    forall i | |acc| <= i < |r|
      ensures WellFormed(platform, r[i])
    {
      ParsedWellFormed(platform, es[i - |acc|]);
    }
  }

  lemma ExtendWellFormed(platform: string, acc: seq<Raw>, mid: seq<Raw>, r: seq<Raw>)
    requires |acc| <= |mid| <= |r| && mid[..|acc|] == acc && r[..|mid|] == mid
    requires forall i :: |acc| <= i < |mid| ==> WellFormed(platform, mid[i])
    requires forall i :: |mid| <= i < |r| ==> WellFormed(platform, r[i])
    ensures r[..|acc|] == acc
    ensures forall i :: |acc| <= i < |r| ==> WellFormed(platform, r[i])
  {
    assert r[..|acc|] == r[..|mid|][..|acc|];
    forall i | |acc| <= i < |mid|
      ensures WellFormed(platform, r[i])
    {
      assert r[i] == r[..|mid|][i];
    }
  }

  /** A request that fails or returns an empty page adds nothing. */
  lemma PaginateStopsOnEmpty(request: string -> Option<Page>, f: Fetcher, start: string, end: string, section: string,
                             cursor: nat, acc: seq<Raw>)
    requires |acc| < MaxPerSection
    requires request(PageUrl(f.apiUrl, f.platform, start, end, cursor, section)) in {None, Some(Page([], false)), Some(Page([], true))}
    ensures Paginate(request, f, start, end, section, cursor, acc) == acc
  {
  }

  /** A page that does not continue the loop is the last one read. */
  lemma PaginateLastPage(request: string -> Option<Page>, f: Fetcher, start: string, end: string, section: string,
                         cursor: nat, acc: seq<Raw>, page: Page)
    requires |acc| < MaxPerSection
    requires request(PageUrl(f.apiUrl, f.platform, start, end, cursor, section)) == Some(page)
    requires !Continues(page)
    ensures Paginate(request, f, start, end, section, cursor, acc) == acc + ParseAll(f.platform, page.collection)
  {
  }

  /** A full page with messages, while the section is still below 1000
      records, is appended and the loop asks for the page at `cursor + 100`. */
  lemma PaginateContinues(request: string -> Option<Page>, f: Fetcher, start: string, end: string, section: string,
                          cursor: nat, acc: seq<Raw>, page: Page)
    requires |acc| < MaxPerSection
    requires request(PageUrl(f.apiUrl, f.platform, start, end, cursor, section)) == Some(page)
    requires Continues(page)
    requires |acc + ParseAll(f.platform, page.collection)| < MaxPerSection
    ensures Paginate(request, f, start, end, section, cursor, acc) ==
      Paginate(request, f, start, end, section, cursor + PageSize, acc + ParseAll(f.platform, page.collection))
  {
  }

  /** Once a page brings the section to 1000 records, it is the last one
      read, even when the server has more. */
  lemma PaginateStopsAtCap(request: string -> Option<Page>, f: Fetcher, start: string, end: string, section: string,
                           cursor: nat, acc: seq<Raw>, page: Page)
    requires |acc| < MaxPerSection
    requires request(PageUrl(f.apiUrl, f.platform, start, end, cursor, section)) == Some(page)
    requires page.collection != []
    requires |acc + ParseAll(f.platform, page.collection)| >= MaxPerSection
    ensures Paginate(request, f, start, end, section, cursor, acc) == acc + ParseAll(f.platform, page.collection)
  {
  }

  /** With pages of at most 100 entries, one section yields fewer than 1100
      records: the loop asks for another page only below 1000. */
  lemma {:induction false} PaginateBound(request: string -> Option<Page>, f: Fetcher, start: string, end: string, section: string,
                                         cursor: nat, acc: seq<Raw>)
    requires |acc| < MaxPerSection
    requires forall u :: request(u).Some? ==> |request(u).value.collection| <= PageSize
    ensures |Paginate(request, f, start, end, section, cursor, acc)| < MaxPerSection + PageSize
    decreases MaxPerSection - |acc|
  {
    match request(PageUrl(f.apiUrl, f.platform, start, end, cursor, section))
    case None =>
    case Some(page) =>
      if page.collection != [] {
        var acc' := acc + ParseAll(f.platform, page.collection);
        if Continues(page) && |acc'| < MaxPerSection {
          PaginateBound(request, f, start, end, section, cursor + PageSize, acc');
        }
      }
  }

  /** `_fetch_by_section` from the first page. */
  function FetchSection(request: string -> Option<Page>, f: Fetcher, start: string, end: string, section: string): (r: seq<Raw>)
    ensures forall x :: x in r ==> WellFormed(f.platform, x)
  {
    Paginate(request, f, start, end, section, 0, [])
  }

  function SectionRecords(request: string -> Option<Page>, f: Fetcher, start: string, end: string): (rss: seq<seq<Raw>>)
    ensures |rss| == |f.sections|
    ensures forall i :: 0 <= i < |rss| ==> rss[i] == FetchSection(request, f, start, end, f.sections[i])
  {
    seq(|f.sections|, i requires 0 <= i < |f.sections| => FetchSection(request, f, start, end, f.sections[i]))
  }

  /** Every section's records, in section order. */
  function Records(request: string -> Option<Page>, f: Fetcher, start: string, end: string): seq<Raw> {
    Flatten(SectionRecords(request, f, start, end))
  }

  /** `fetch`: nothing when disabled; otherwise every section's records,
      deduplicated, normalised with the fetcher's platform, and the valid
      ones kept: exactly the valid normalisations of the first record with
      each id. Every paper carries its platform's id prefix. The
      normalisation drops `pdf_url`, so no fetched paper has a PDF link,
      although every parsed record with a DOI had one. */
  function Fetch(request: string -> Option<Page>, f: Fetcher, start: string, end: string): (ps: seq<Paper>)
    ensures !f.enabled ==> ps == []
    ensures forall p :: p in ps ==> IsValid(p) && p.platform == Some(f.platform)
    ensures forall p :: p in ps ==> StartsWith(p.id, f.platform + ":")
    ensures forall p :: p in ps ==> p.pdfUrl == ""
    ensures forall a, b :: 0 <= a < b < |ps| ==> ps[a].id != ps[b].id
    ensures f.enabled ==> forall i ::
      (FirstWithId(Records(request, f, start, end), RawId, i) &&
       IsValid(NormalizeAsWritten(Records(request, f, start, end)[i], f.platform)) ==>
       NormalizeAsWritten(Records(request, f, start, end)[i], f.platform) in ps)
    ensures forall p :: p in ps ==>
      exists i :: (FirstWithId(Records(request, f, start, end), RawId, i) &&
                   p == NormalizeAsWritten(Records(request, f, start, end)[i], f.platform))
  {
    if !f.enabled then []
    else
      var raws := Records(request, f, start, end);
      var ps := Collect(raws, f.platform, false);
      assert forall i :: 0 <= i < |raws| ==> NormalizeBy(raws[i], f.platform, false) == NormalizeAsWritten(raws[i], f.platform);
      CollectedWellFormed(request, f, start, end, false, ps);
      ps
  }

  /** `fetch` with the corrected normalisation: the same papers, each with
      the PDF link its record was parsed with, which is the landing page's
      `.full.pdf` whenever the paper has a landing page. */
  function FetchCorrected(request: string -> Option<Page>, f: Fetcher, start: string, end: string): (ps: seq<Paper>)
    ensures !f.enabled ==> ps == []
    ensures forall p :: p in ps ==> IsValid(p) && p.platform == Some(f.platform)
    ensures forall p :: p in ps ==> StartsWith(p.id, f.platform + ":")
    ensures forall p :: p in ps ==> p.pdfUrl == (if p.url == "" then "" else p.url + ".full.pdf")
    ensures forall a, b :: 0 <= a < b < |ps| ==> ps[a].id != ps[b].id
  {
    if !f.enabled then []
    else
      var raws := Records(request, f, start, end);
      var ps := Collect(raws, f.platform, true);
      CollectedWellFormed(request, f, start, end, true, ps);
      ps
  }

  /** The two fetches differ only in the PDF links. */
  lemma FetchBlanksPdf(request: string -> Option<Page>, f: Fetcher, start: string, end: string)
    ensures Fetch(request, f, start, end) == BlankPdf(FetchCorrected(request, f, start, end))
  {
    if f.enabled {
      CollectDropsOnlyPdf(Records(request, f, start, end), f.platform);
    }
  }

  /** Every record the sections yield is well formed. */
  lemma RecordsWellFormed(request: string -> Option<Page>, f: Fetcher, start: string, end: string)
    ensures forall r :: r in Records(request, f, start, end) ==> WellFormed(f.platform, r)
  {
  }

  /** Normalising a well-formed record keeps its id prefix and its link
      shape. */
  lemma NormalizedWellFormed(r: Raw, platform: string, keepPdf: bool)
    requires WellFormed(platform, r)
    ensures StartsWith(NormalizeBy(r, platform, keepPdf).id, platform + ":")
    ensures keepPdf ==> var p := NormalizeBy(r, platform, keepPdf);
      p.pdfUrl == (if p.url == "" then "" else p.url + ".full.pdf")
  {
  }

  /** A collected paper keeps the id prefix and the link shape of its
      record. */
  lemma CollectedWellFormed(request: string -> Option<Page>, f: Fetcher, start: string, end: string, keepPdf: bool, ps: seq<Paper>)
    requires ps == Collect(Records(request, f, start, end), f.platform, keepPdf)
    ensures forall p :: p in ps ==> StartsWith(p.id, f.platform + ":")
    ensures keepPdf ==> forall p :: p in ps ==> p.pdfUrl == (if p.url == "" then "" else p.url + ".full.pdf")
  {
    var raws := Records(request, f, start, end);
    RecordsWellFormed(request, f, start, end);
    forall p | p in ps
      ensures StartsWith(p.id, f.platform + ":")
      ensures keepPdf ==> p.pdfUrl == (if p.url == "" then "" else p.url + ".full.pdf")
    {
      var i :| FirstWithId(raws, RawId, i) && p == NormalizeBy(raws[i], f.platform, keepPdf);
      assert raws[i] in raws;
      NormalizedWellFormed(raws[i], f.platform, keepPdf);
    }
  }
}
