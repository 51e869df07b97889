/** `PDFDownloader`: where a paper's PDF is stored, which outcomes of the
    download give a path, the truncation of extracted text, the combined
    download-and-extract step, and the storage statistics. The HTTP
    request, the file system and the two PDF text extractors are
    parameters: the outcome of the download, the outcome of the
    extraction, and the list of stored files. */
module Pdf {
  import opened Wrappers
  import opened Text
  import opened Seqs
  import opened Papers
  import opened Tally

  const DefaultStorageDir := "data/papers"
  const DefaultMaxTextLength := 30000
  const PdfSuffix := ".pdf"
  const TruncationNote := "\n\n[文本已截断...]"
  const PageSeparator := "\n\n"

  datatype Config = Config(storageDir: string, maxTextLength: int)

  function MakeConfig(storageDir: Option<string>, maxTextLength: Option<int>): (c: Config)
    ensures storageDir.Some? ==> c.storageDir == storageDir.value
    ensures storageDir.None? ==> c.storageDir == "data/papers"
    ensures maxTextLength.Some? ==> c.maxTextLength == maxTextLength.value
    ensures maxTextLength.None? ==> c.maxTextLength == 30000
  {
    Config(storageDir.GetOr(DefaultStorageDir), maxTextLength.GetOr(DefaultMaxTextLength))
  }

  // ---------------------------------------------------------------------
  // The file a paper is stored in.

  /** The id as a file name: every `:` and every `/` becomes `_`, and
      nothing else changes. */
  function SafeId(id: string): (r: string)
    ensures |r| == |id|
    ensures !HasChar(r, ':') && !HasChar(r, '/')
    ensures forall i :: 0 <= i < |id| ==> r[i] == (if id[i] == ':' || id[i] == '/' then '_' else id[i])
  {
    var once := Replace(id, ":", "_");
    ReplaceCharIsMap(id, ':', '_');
    ReplaceCharIsMap(once, '/', '_');
    Replace(once, "/", "_")
  }

  /** An id that is already a file name is kept, so sanitising twice is
      sanitising once. */
  lemma SafeIdKeeps(id: string)
    requires !HasChar(id, ':') && !HasChar(id, '/')
    ensures SafeId(id) == id
    ensures SafeId(SafeId(id)) == SafeId(id)
  {
  }

  /** `storage_dir / platform / f'{paper_id}.pdf'`, the platform defaulting
      to `unknown`. */
  function PdfPath(c: Config, p: Paper): (r: string)
    ensures StartsWith(r, c.storageDir + "/" + PlatformOrUnknown(p) + "/")
    ensures EndsWith(r, PdfSuffix)
    ensures |r| == |c.storageDir| + |PlatformOrUnknown(p)| + |p.id| + 6
  {
    var dir := c.storageDir + "/" + PlatformOrUnknown(p) + "/";
    var r := dir + SafeId(p.id) + PdfSuffix;
    assert r[..|dir|] == dir;
    assert r[|r| - |PdfSuffix|..] == PdfSuffix;
    r
  }

  /** The file sits directly in its platform's directory: cutting the path
      at its last `/` leaves the storage directory and the platform, and
      what follows that `/` is the sanitised id with the `.pdf` suffix. */
  lemma PdfPathDirectory(c: Config, p: Paper)
    ensures BeforeLast(PdfPath(c, p), '/') == c.storageDir + "/" + PlatformOrUnknown(p)
    ensures PdfPath(c, p)[|BeforeLast(PdfPath(c, p), '/')| + 1..] == SafeId(p.id) + PdfSuffix
  {
    var dir := c.storageDir + "/" + PlatformOrUnknown(p);
    var name := SafeId(p.id) + PdfSuffix;
    assert !HasChar(PdfSuffix, '/');
    HasCharConcat(SafeId(p.id), PdfSuffix, '/');
    assert PdfPath(c, p) == dir + ['/'] + name;
    BeforeLastOf(dir, '/', name);
  }

  // ---------------------------------------------------------------------
  // `download_paper`.

  /** What happened to the file: it was there already, or the request was
      made and the file written, or the request timed out, failed, or the
      file could not be saved. */
  datatype Download = AlreadyThere | Fetched | TimedOut | RequestFailed | SaveFailed

  /** `download_paper`: no URL gives `None` before any request; otherwise
      the path when the file is there or was written, and `None` on any
      failure. */
  function DownloadPaper(c: Config, p: Paper, d: Download): (r: Option<string>)
    ensures r.Some? <==> p.pdfUrl != "" && (d.AlreadyThere? || d.Fetched?)
    ensures r.Some? ==> r.value == PdfPath(c, p)
  {
    if p.pdfUrl == "" then None
    else if d.AlreadyThere? || d.Fetched? then Some(PdfPath(c, p))
    else None
  }

  // ---------------------------------------------------------------------
  // `extract_text`.

  /** The cut `extract_text` applies: with a positive limit, a longer text
      keeps its first `maxChars` characters and gains the truncation
      note. */
  function Truncate(text: string, maxChars: int): (r: string)
    ensures maxChars <= 0 || |text| <= maxChars ==> r == text
    ensures maxChars > 0 && |text| > maxChars ==>
      |r| == maxChars + |TruncationNote| && StartsWith(r, text[..maxChars]) && EndsWith(r, TruncationNote)
    ensures maxChars > 0 ==> |r| <= maxChars + |TruncationNote|
    ensures r == [] <==> text == []
  {
    if maxChars > 0 && |text| > maxChars then
      var r := text[..maxChars] + TruncationNote;
      assert r[..maxChars] == text[..maxChars];
      assert r[|r| - |TruncationNote|..] == TruncationNote;
      r
    else text
  }

  /** Cutting a cut text again changes nothing. */
  lemma TruncateIdempotent(text: string, maxChars: int)
    ensures Truncate(Truncate(text, maxChars), maxChars) == Truncate(text, maxChars)
  {
    if maxChars > 0 && |text| > maxChars {
      var r := Truncate(text, maxChars);
      assert r[..maxChars] == text[..maxChars];
    }
  }

  /** What the extractors gave: the Markdown text; or, after the Markdown
      extractor raised, the text of each page, `None` for a page whose
      extraction raised; or a failure of both. */
  datatype Extraction = Markdown(text: string) | Pages(pages: seq<Option<string>>) | BothFailed

  /** A page the plain fallback keeps: extracted, and not all white space. */
  predicate HasText(o: Option<string>) {
    o.Some? && !AllSpace(o.value)
  }

  function PageText(o: Option<string>): string {
    o.GetOr("")
  }

  /** One step of the page loop: the page's text when it was extracted and
      `page_text.strip()` is not empty. */
  function KeptPage(o: Option<string>): Option<string> {
    if o.Some? && |Strip(o.value)| > 0 then o else None
  }

  /** The pages the plain fallback keeps: those that were extracted and
      are not all white space, in order, each as often as it occurs. */
  function KeptPages(pages: seq<Option<string>>): (r: seq<string>)
    ensures |r| <= |pages|
    ensures forall t :: t in r ==> !AllSpace(t) && Some(t) in pages
    ensures forall o :: o in pages && o.Some? && !AllSpace(o.value) ==> o.value in r
    ensures r == MapSeq(Filter(pages, HasText), PageText)
  {
    forall k | 0 <= k < |pages|
      ensures KeptPage(pages[k]) == (if HasText(pages[k]) then Some(PageText(pages[k])) else None)
    {
      if pages[k].Some? {
        StripEmptyIff(pages[k].value);
      }
    }
    FilterMapSplit(pages, KeptPage, HasText, PageText);
    FilterMap(pages, KeptPage)
  }

  /** `extract_text`: `None` for the limit means the configured
      `max_text_length`; a failure of both extractors gives the empty
      text. */
  function ExtractText(c: Config, maxChars: Option<int>, e: Extraction): (r: string)
    ensures e.BothFailed? ==> r == ""
    ensures e.Markdown? ==> r == Truncate(e.text, maxChars.GetOr(c.maxTextLength))
    ensures e.Pages? ==> r == Truncate(Join(PageSeparator, KeptPages(e.pages)), maxChars.GetOr(c.maxTextLength))
  {
    var limit := if maxChars.None? then c.maxTextLength else maxChars.value;
    match e
    case Markdown(text) => Truncate(text, limit)
    case Pages(pages) => Truncate(Join(PageSeparator, KeptPages(pages)), limit)
    case BothFailed => ""
  }

  /** The plain fallback gives text exactly when some page has any. */
  lemma PagesEmptyIff(c: Config, maxChars: Option<int>, pages: seq<Option<string>>)
    ensures ExtractText(c, maxChars, Pages(pages)) == "" <==>
      forall k :: 0 <= k < |pages| && pages[k].Some? ==> AllSpace(pages[k].value)
  {
    var kept := KeptPages(pages);
    if kept != [] {
      assert kept[0] != [] by {
        if kept[0] == [] {
          assert AllSpace(kept[0]);
        }
      }
      assert Join(PageSeparator, kept)[..|kept[0]|] == kept[0] by {
        JoinStartsWith(PageSeparator, kept);
      }
      var k :| 0 <= k < |pages| && pages[k] == Some(kept[0]);
    }
  }

  // ---------------------------------------------------------------------
  // `download_and_extract`.

  /** `download_and_extract`: the text when the file is there and has any,
      and only then is the paper's `pdf_path` set; the paper is otherwise
      unchanged. */
  function DownloadAndExtract(c: Config, p: Paper, d: Download, e: Extraction): (r: (Option<string>, Paper))
    ensures r.0.Some? <==> DownloadPaper(c, p, d).Some? && ExtractText(c, None, e) != ""
    ensures r.0.Some? ==> r.0.value == ExtractText(c, None, e) && r.1.pdfPath == Some(PdfPath(c, p))
    ensures r.0.None? ==> r.1 == p
    ensures r.1.(pdfPath := p.pdfPath) == p
  {
    match DownloadPaper(c, p, d)
    case None => (None, p)
    case Some(path) =>
      var text := ExtractText(c, None, e);
      if text != "" then (Some(text), p.(pdfPath := Some(path))) else (None, p)
  }

  // ---------------------------------------------------------------------
  // `get_storage_info`.

  /** A stored PDF: the name of the directory holding it and its size in
      bytes. */
  datatype StoredFile = StoredFile(dir: string, size: nat)

  function Dir(f: StoredFile): string {
    f.dir
  }

  function SizeSum(files: seq<StoredFile>): nat {
    if files == [] then 0 else files[0].size + SizeSum(files[1..])
  }

  /** The statistics: the number of files, their total size in bytes, and
      the count per directory in the order the directories were first
      met. */
  datatype Storage = Storage(totalFiles: nat, totalSize: nat, byPlatform: seq<(string, nat)>)

  /** `get_storage_info` over the files the recursive search yields:
      nothing when the storage directory is missing; otherwise every file
      counted once, under its directory. */
  function StorageInfo(present: bool, files: seq<StoredFile>): (s: Storage)
    ensures !present ==> s == Storage(0, 0, [])
    ensures present ==> s.totalFiles == |files| && s.totalSize == SizeSum(files)
    ensures present ==> Total(s.byPlatform) == s.totalFiles
    ensures present ==> forall i :: 0 <= i < |s.byPlatform| ==> s.byPlatform[i].1 == Count(files, Dir, s.byPlatform[i].0) > 0
    ensures present ==> forall k :: Listed(s.byPlatform, k) <==> Keyed(files, Dir, k)
  {
    if !present then Storage(0, 0, [])
    else Storage(|files|, SizeSum(files), Tally.Tally(files, Dir))
  }

  /** The total size is the sum of the sizes in any split of the list, so
      each file adds its own size once. */
  lemma {:induction false} SizeSumAppend(a: seq<StoredFile>, b: seq<StoredFile>)
    ensures SizeSum(a + b) == SizeSum(a) + SizeSum(b)
    decreases |a|
  {
    if a != [] {
      assert (a + b)[0] == a[0];
      assert (a + b)[1..] == a[1..] + b;
      SizeSumAppend(a[1..], b);
    } else {
      assert a + b == b;
    }
  }
}
