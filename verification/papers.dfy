/** The paper record that flows through the pipeline. In the Python code it is
    a dictionary; here every key the pipeline reads is a field, and a key that
    may be absent, where absence differs from the empty string, is an
    `Option`. */
module Papers {
  import opened Wrappers

  datatype Paper = Paper(
    id: string,
    title: string,
    abstractText: string,           // the `abstract` key
    authors: seq<string>,
    url: string,
    pdfUrl: string,                  // '' when the key is absent
    publishedDate: string,
    platform: Option<string>,        // `get('platform', 'unknown')` tells absent from ''
    categories: seq<string>,
    summary: Option<string>,
    summaryLanguage: Option<string>,
    similarityScore: Option<real>,   // attached only by the embedding filters
    pdfPath: Option<string>)

  /** `paper.get('platform', 'unknown')`, the key the digest counts by. */
  function PlatformOrUnknown(p: Paper): string {
    p.platform.GetOr("unknown")
  }
}
