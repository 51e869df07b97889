/** The PDF step of the daily run: every relevant paper with a PDF link is
    handed to `download_paper`, and a path it returns becomes the paper's
    `pdf_path`. The outcome of the download of the i-th paper is a
    parameter. */
module PdfStep {
  import opened Wrappers
  import opened Papers
  import Pdf
  import Arxiv
  import Biorxiv

  /** The loop over the relevant papers. */
  function DownloadAll(c: Pdf.Config, ps: seq<Paper>, d: int -> Pdf.Download): (r: seq<Paper>)
    ensures |r| == |ps|
    ensures forall i :: 0 <= i < |ps| ==> r[i].(pdfPath := ps[i].pdfPath) == ps[i]
    ensures forall i :: 0 <= i < |ps| ==>
      (r[i] != ps[i] <==> ps[i].pdfUrl != "" && (d(i).AlreadyThere? || d(i).Fetched?) && ps[i].pdfPath != Some(Pdf.PdfPath(c, ps[i])))
    ensures forall i :: 0 <= i < |ps| && ps[i].pdfUrl != "" && (d(i).AlreadyThere? || d(i).Fetched?) ==>
      r[i].pdfPath == Some(Pdf.PdfPath(c, ps[i]))
  {
    seq(|ps|, i requires 0 <= i < |ps| =>
      if ps[i].pdfUrl != "" then
        match Pdf.DownloadPaper(c, ps[i], d(i))
        case Some(path) => ps[i].(pdfPath := Some(path))
        case None => ps[i]
      else ps[i])
  }

  /** Papers without PDF links come out of the step unchanged, whatever
      the downloads would have done. */
  lemma NoLinkNoDownload(c: Pdf.Config, ps: seq<Paper>, d: int -> Pdf.Download)
    requires forall p :: p in ps ==> p.pdfUrl == ""
    ensures DownloadAll(c, ps, d) == ps
  {
    var r := DownloadAll(c, ps, d);
    forall i | 0 <= i < |ps|
      ensures r[i] == ps[i]
    {
      assert ps[i] in ps;
    }
  }

  /** As written, the fetchers' papers never reach `download_paper`: no
      paper is ever given a `pdf_path` when each carries the PDF link of
      some paper from the arXiv fetch or from any of the bioRxiv-family
      fetches. That covers papers mixed from several fetchers, any
      selection of them, and papers the embedding filters have scored. */
  lemma FetchedPapersNeverDownloaded(c: Pdf.Config, d: int -> Pdf.Download,
                                     enabled: bool, responses: seq<Option<seq<Arxiv.Entry>>>,
                                     request: string -> Option<Biorxiv.Page>, fs: seq<Biorxiv.Fetcher>, start: string, end: string,
                                     ps: seq<Paper>)
    requires forall p :: p in ps ==> exists q ::
      (q in Arxiv.Fetch(enabled, responses) || exists k :: 0 <= k < |fs| && q in Biorxiv.Fetch(request, fs[k], start, end)) &&
      q.pdfUrl == p.pdfUrl
    ensures DownloadAll(c, ps, d) == ps
  {
    NoLinkNoDownload(c, ps, d);
  }

  /** With the corrected normalisation, every bioRxiv or medRxiv paper that
      has a landing page reaches `download_paper` with its `.full.pdf`
      link, and a successful download stores its path. */
  lemma CorrectedPapersDownloaded(c: Pdf.Config, d: int -> Pdf.Download,
                                  request: string -> Option<Biorxiv.Page>, f: Biorxiv.Fetcher, start: string, end: string)
    ensures var ps := Biorxiv.FetchCorrected(request, f, start, end);
      forall i :: 0 <= i < |ps| && ps[i].url != "" && (d(i).AlreadyThere? || d(i).Fetched?) ==>
        ps[i].pdfUrl == ps[i].url + ".full.pdf" &&
        DownloadAll(c, ps, d)[i].pdfPath == Some(Pdf.PdfPath(c, ps[i]))
  {
    var ps := Biorxiv.FetchCorrected(request, f, start, end);
    forall i | 0 <= i < |ps| && ps[i].url != ""
      ensures ps[i].pdfUrl == ps[i].url + ".full.pdf"
    {
      assert ps[i] in ps;
    }
  }
}
