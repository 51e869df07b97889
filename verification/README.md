# Research daily briefing — a Dafny model of the filtering core

This project models the part of the research daily briefing that turns
fetched preprint records into the day's digest. It covers:

- the arXiv, bioRxiv and medRxiv fetchers' record handling: parsing,
  deduplication, normalisation, validation, page URLs and pagination;
- the relevance filter (`AIFilter`): a case-folded keyword prefilter, a cap,
  and a judge whose free-form reply is read by a first-match-wins cascade;
- the two embedding filters (OpenAI and Zhipu), with their per-paper and
  batch paths, and the cosine similarity they share;
- the summariser's fence stripping, length cap, batch splitting and
  fallbacks, and the daily overview;
- the Feishu digest formatter;
- the PDF helper's file naming, text truncation, combined step and storage
  statistics, and the PDF step of the daily run.

Every external call becomes a parameter: the judge CLI, the summariser CLI,
the embedding providers, the HTTP requests and the PDF extractors. Each is
an abstract outcome, either a value or one of the failures the source
catches. Papers are immutable records. Where the source mutates a
dictionary in place, the model returns the updated record.

The modules follow the source files:

| file | module | source |
|---|---|---|
| `fetchers.dfy` | `Fetchers` | `src/fetchers/base.py` |
| `arxiv.dfy` | `Arxiv` | `src/fetchers/arxiv_fetcher.py` |
| `biorxiv.dfy` | `Biorxiv` | `src/fetchers/biorxiv_fetcher.py` |
| `ai_filter.dfy` | `AIFilter` | `src/processors/ai_filter.py` |
| `response_parser.dfy` | `ResponseParser` | `src/processors/ai_filter.py` |
| `embedding_filter.dfy` | `EmbeddingFilter` | `src/processors/embedding_filter.py` |
| `zhipu_filter.dfy` | `ZhipuFilter` | `src/processors/zhipu_embedding_filter.py` |
| `similarity.dfy` | `Similarity` | `src/utils/math_utils.py` |
| `summarizer.dfy` | `Summarizer` | `src/processors/summarizer.py` |
| `feishu.dfy` | `Feishu` | `src/formatters/feishu_formatter.py` |
| `pdf.dfy` | `Pdf` | `src/utils/pdf_downloader.py` |
| `pdf_step.dfy` | `PdfStep` | `src/main.py` |

`ResponseParser` holds the reply cascade inside `_check_relevance`.
`PdfStep` holds the PDF loop of the daily run.

The shared modules are:

- `Papers`: the paper record.
- `Text`: Python's string operations over `seq<char>`.
- `Seqs`: filtering, subsequences and flattening.
- `Sorting`: a stable descending insertion sort.
- `Tally`: counting by key, as in `dict.get(k, 0) + 1` followed by `sorted(...)`.
- `Wrappers`: `Option`.

The fetchers model the program as written. `_normalize_paper` drops
`pdf_url`, so no fetched paper has a PDF link, and the PDF step of the daily
run never downloads anything. The corrected normalisation, which keeps the
link, is modelled beside it and proved to differ only in that field. The
PDF step is proved to work with it. See "## Findings".

## Model

| member | source | states |
|---|---|---|
| Fetchers.NormalizeAsWritten | src/fetchers/base.py:61-71 | the id is carried over, defaulting to ""; title and abstract are stripped; `platform` is the argument; no PDF link, summary, score or path is carried over |
| Fetchers.Normalize | src/fetchers/base.py:61-71 | the corrected normalisation keeps the record's `pdf_url` and agrees with the as-written one on every other field |
| Fetchers.NormalizeIdempotent | src/fetchers/base.py:61-71 | normalising a normalised paper again changes nothing |
| Fetchers.NormalizeDropsPdfUrl | src/fetchers/base.py:61-71 | a record with a PDF link loses it under the as-written normalisation and keeps it under the corrected one |
| Fetchers.ValidAfterNormalize | src/fetchers/base.py:61-89 | a normalised record is valid exactly when its id is non-empty and its title and abstract are not all white space |
| Fetchers.Dedup | src/fetchers/base.py:101-113 | an order-preserving subsequence of the input in which every id is present and non-empty and no id repeats |
| Fetchers.DedupMember | src/fetchers/base.py:104-108 | a record is kept exactly when it is the first with its non-empty id |
| Fetchers.DedupIdempotent | src/fetchers/base.py:101-113 | deduplicating twice is deduplicating once |
| Fetchers.Collect | src/fetchers/biorxiv_fetcher.py:64-66 | the fetch pipeline keeps exactly the valid normalisations of the first record with each id: every result is valid, carries the platform and is such a normalisation, and every such normalisation is kept; ids are distinct; the papers keep the order of the deduplicated records |
| Fetchers.CollectDropsOnlyPdf | src/fetchers/base.py:61-71 | the pipeline as written gives the corrected pipeline's papers, in order, with only the PDF links blanked |
| Fetchers.FilterByDate | src/fetchers/base.py:126-132 | keeps, in order, exactly the papers whose non-empty publication date contains the target string, each as many times as it occurs in the input |
| Arxiv.ArxivId | src/fetchers/arxiv_fetcher.py:131-133 | the extracted id contains neither `/` nor `v` |
| Arxiv.ArxivIdOf | src/fetchers/arxiv_fetcher.py:131-133 | for an entry id `prefix/NUMBERvVERSION`, the extracted id is `NUMBER` |
| Arxiv.ParseEntry | src/fetchers/arxiv_fetcher.py:124-150 | an entry parses exactly when it has an id, every author has a name and every tag a term; the paper id is `arxiv:` followed by the extracted id; title, link and date are carried over (empty when missing), the authors and categories are the names and terms in order, the abstract is the cleaned summary; no PDF link is produced |
| Arxiv.Abstract | src/fetchers/arxiv_fetcher.py:142 | the abstract has no newline and no white space at either end |
| Arxiv.AbstractKeepsClean | src/fetchers/arxiv_fetcher.py:142 | a one-line summary without white space at its ends is left unchanged |
| Arxiv.AbstractJoinsLines | src/fetchers/arxiv_fetcher.py:142 | for a summary of two lines, the newline becomes a space and then the ends are stripped |
| Arxiv.ParseAll | src/fetchers/arxiv_fetcher.py:102-108 | exactly the entries that parse contribute a record, one each, in feed order; an entry that fails is dropped |
| Arxiv.Fetch | src/fetchers/arxiv_fetcher.py:39-62 | nothing when disabled; otherwise the valid `arxiv` normalisations of the first record with each id, all of them, with distinct `arxiv:` ids and no PDF link |
| Arxiv.IdQuery | src/fetchers/arxiv_fetcher.py:168 | the query contains `id:` followed by each requested id |
| Arxiv.IdQueryRoundTrip | src/fetchers/arxiv_fetcher.py:168 | splitting the query on ` OR ` gives back one `id:` term per id, in order, for ids without spaces |
| Arxiv.FetchByIds | src/fetchers/arxiv_fetcher.py:162-192 | no ids give no request and no papers; a failed request gives none; otherwise the k-th paper is the `arxiv` normalisation of the k-th parsed entry, with no deduplication or validity check |
| Biorxiv.MakeBiorxiv | src/fetchers/biorxiv_fetcher.py:20-24 | enabled unless configured off; the configured endpoint, or the bioRxiv one when none is configured; the configured sections |
| Biorxiv.MakeMedrxiv | src/fetchers/biorxiv_fetcher.py:199-203 | platform `medrxiv`; the medRxiv endpoint only when none is configured |
| Biorxiv.MedrxivIsBiorxiv | src/fetchers/biorxiv_fetcher.py:199-203 | a medRxiv fetcher is a bioRxiv fetcher with platform `medrxiv` and the medRxiv default endpoint |
| Biorxiv.Authors | src/fetchers/biorxiv_fetcher.py:160-163 | every author is non-empty, free of `;` and stripped |
| Biorxiv.AuthorsOfJoin | src/fetchers/biorxiv_fetcher.py:160-163 | joining stripped, non-empty, `;`-free names with `;` and parsing them back gives the names |
| Biorxiv.VersionSuffix | src/fetchers/biorxiv_fetcher.py:172 | the suffix is empty exactly for an empty or `1` version, and `v` followed by the version otherwise |
| Biorxiv.ParseEntry | src/fetchers/biorxiv_fetcher.py:158-190 | the id is platform `:` doi; an empty DOI gives empty URLs; otherwise the landing page is the content URL with the version suffix and the PDF link is it plus `.full.pdf`; one category; the abstract with paragraph tags removed |
| Biorxiv.LandingPageVersions | src/fetchers/biorxiv_fetcher.py:171-174 | for a DOI, version 1 or no version gives the bare content URL, another version gives the `vN` suffix, and the PDF link ends in `.full.pdf` |
| Biorxiv.UnwrapParagraph | src/fetchers/biorxiv_fetcher.py:183 | an abstract wrapped in one `<p>…</p>` pair comes back unwrapped |
| Biorxiv.PlainAbstractUnchanged | src/fetchers/biorxiv_fetcher.py:183 | an abstract without `<` is left unchanged |
| Biorxiv.ParsedWellFormed | src/fetchers/biorxiv_fetcher.py:166-187 | every parsed record has the platform id prefix and one category, and its PDF link is empty exactly when its landing page is, and is otherwise the landing page plus `.full.pdf` |
| Biorxiv.PageUrl | src/fetchers/biorxiv_fetcher.py:91-110 | the URL is the API base up to its last `/`, then server, dates, cursor and `/json`, with `?category=` and the section only for a non-empty section; its length is exactly that of these pieces |
| Biorxiv.PageUrlBase | src/fetchers/biorxiv_fetcher.py:91 | the base drops only the last path segment of the configured endpoint |
| Biorxiv.Paginate | src/fetchers/biorxiv_fetcher.py:103-146 | the loop only appends to what was collected, and everything it appends is a well-formed record |
| Biorxiv.PaginateStopsOnEmpty | src/fetchers/biorxiv_fetcher.py:117-121 | a failed request or an empty page adds nothing and ends the loop |
| Biorxiv.PaginateLastPage | src/fetchers/biorxiv_fetcher.py:130-136 | a page that is not full, or has no messages, is the last page read |
| Biorxiv.PaginateContinues | src/fetchers/biorxiv_fetcher.py:124-141 | a full page with messages is appended and, below 1000 records, the loop goes on with the page at `cursor + 100` |
| Biorxiv.PaginateStopsAtCap | src/fetchers/biorxiv_fetcher.py:124-141 | a page that brings the section to 1000 records or more is appended and is the last page read |
| Biorxiv.PaginateBound | src/fetchers/biorxiv_fetcher.py:130-141 | with pages of at most 100 entries, a section yields fewer than 1100 records |
| Biorxiv.Fetch | src/fetchers/biorxiv_fetcher.py:37-69 | nothing when disabled; otherwise the valid normalisations of the first record with each id, all of them, with the platform id prefix, distinct ids and no PDF link |
| Biorxiv.FetchCorrected | src/fetchers/biorxiv_fetcher.py:166-185 | with the corrected normalisation, every paper keeps the PDF link it was parsed with: the landing page plus `.full.pdf`, or empty with it |
| Biorxiv.FetchBlanksPdf | src/fetchers/biorxiv_fetcher.py:64-66 | the fetch as written is the corrected fetch with the PDF links blanked |
| AIFilter.MakeConfig | src/processors/ai_filter.py:26-36 | keywords default to none and the cap to 30; the judge is used exactly when its path was found |
| AIFilter.HasKeyword | src/processors/ai_filter.py:363-379 | true exactly when some lower-cased keyword occurs in the lower-cased title or abstract; false for an empty keyword list |
| AIFilter.FilterByKeywords | src/processors/ai_filter.py:157-171 | everything for an empty keyword list; otherwise each matching paper, as often as it occurs in the input, and no other paper, in input order |
| AIFilter.Candidates | src/processors/ai_filter.py:119-122 | a prefix of the prefiltered list of length min(its length, `max_papers`) |
| AIFilter.KeepMask | src/processors/ai_filter.py:125-138 | one decision per candidate: keep on a relevant verdict or on an exception that escapes the check |
| AIFilter.FilterPapers | src/processors/ai_filter.py:100-145 | nothing for no papers; without the judge, the capped list; with it, an order-preserving subsequence of the capped list that holds a candidate exactly when its check says relevant or raises, as many papers as there are kept positions; it is the selection of the candidates at the kept positions, so duplicates are placed as the loop places them |
| AIFilter.ResultFromInput | src/processors/ai_filter.py:110-145 | every returned paper was in the input and passed the prefilter |
| AIFilter.OnlyCandidatesJudged | src/processors/ai_filter.py:119-141 | two judges that agree on the capped papers give the same result |
| AIFilter.AllCallsFail | src/processors/ai_filter.py:351-361 | when every call fails in a caught way, the result is the capped list filtered by the keyword check |
| AIFilter.AllCallsFailOutcome | src/processors/ai_filter.py:157-158 | ... which is the whole capped list when there are keywords and empty when there are none |
| AIFilter.AllPromptsFail | src/processors/ai_filter.py:135-138 | when every check raises out of `_check_relevance`, every capped paper is kept |
| AIFilter.CapitalLabelGivesKeywordVerdict | src/processors/ai_filter.py:257-261 | a reply whose first line has a non-bold `Decision:` label makes the parse raise, so the verdict is the keyword check |
| AIFilter.BodyStart | src/processors/ai_filter.py:83-88 | the body starts after the first `---` line other than the first line, or at 0 when there is none |
| AIFilter.SkillBodyWhole | src/processors/ai_filter.py:83-90 | without a closing `---` line the skill body is the whole file |
| AIFilter.SkillBodyAfterFrontMatter | src/processors/ai_filter.py:83-90 | with one, the file is the front matter through its closing line, a newline, and the body |
| ResponseParser.BoldLine | src/processors/ai_filter.py:245-254 | a line decides yes exactly when it holds the bold label and `yes` is among its tokens, and no exactly when it holds it, lacks `yes` and has `no` |
| ResponseParser.BoldRuleDecidesIff | src/processors/ai_filter.py:243-254 | the bold rule decides exactly when some line holds the bold label with a `yes` or `no` token |
| ResponseParser.BoldFirstLineWins | src/processors/ai_filter.py:243-254 | a deciding bold first line is the verdict, whatever follows |
| ResponseParser.PlainLine | src/processors/ai_filter.py:259-267 | a line raises exactly when its lower case holds `decision:` but the line itself does not |
| ResponseParser.ParseRaisesIff | src/processors/ai_filter.py:257-261 | the cascade raises exactly when no bold line decides and the first line with a lower-cased `decision:` lacks the literal one |
| ResponseParser.CapitalLabelRaises | src/processors/ai_filter.py:257-261 | a first line with `Decision:` and no bold label makes the cascade raise |
| ResponseParser.FirstWordDefined | src/processors/ai_filter.py:271-272 | the first-word extraction never raises |
| ResponseParser.FirstWordOf | src/processors/ai_filter.py:271-272 | the first word of a reply that starts with a word is that word, lower-cased |
| ResponseParser.LeadingWordDecides | src/processors/ai_filter.py:271-287 | once the line rules pass, the verdict is decided by the reply's leading word |
| ResponseParser.LocalizedYes | src/processors/ai_filter.py:282-284 | a reply led by `相关` or `是` is relevant |
| ResponseParser.LocalizedNo | src/processors/ai_filter.py:285-287 | a reply led by `不相关`, `否` or `不是` is not relevant |
| ResponseParser.Loose | src/processors/ai_filter.py:293-350 | the pattern and balance rules always decide, and the default is not relevant |
| ResponseParser.NotRelevantDecides | src/processors/ai_filter.py:293-304 | a reply containing `not relevant` is decided by the analysis patterns: relevant only when an earlier listed pattern says so |
| ResponseParser.LooseYesHasEvidence | src/processors/ai_filter.py:293-346 | a relevant verdict from the pattern and balance rules needs a yes-indicator in the reply |
| ResponseParser.EmptyReplyIsNo | src/processors/ai_filter.py:337-350 | the empty reply is not relevant, by the default |
| EmbeddingFilter.MakeSettings | src/processors/embedding_filter.py:34-36 | the threshold defaults to 0.75 and the cap to 30 |
| EmbeddingFilter.ScoreText | src/processors/embedding_filter.py:106 | the embedded text is the title, a space, and the abstract |
| EmbeddingFilter.Cap | src/processors/embedding_filter.py:96-98 | a prefix of the papers of length min(length, cap); the whole list when it is short enough |
| EmbeddingFilter.Judge | src/processors/embedding_filter.py:107-122 | a paper raises exactly when its call fails or its vector cannot be scored, and is accepted, with its score attached, exactly when the score reaches the threshold |
| EmbeddingFilter.Keep | src/processors/embedding_filter.py:100-122 | every kept paper carries a score at or above the threshold |
| EmbeddingFilter.KeepMember | src/processors/embedding_filter.py:100-122 | a paper is kept exactly when some candidate is accepted as it |
| EmbeddingFilter.FilterPapers | src/processors/embedding_filter.py:90-128 | nothing for no papers; sorted by score, highest first; a permutation of the accepted capped papers that keeps the input order among equal scores |
| EmbeddingFilter.FilterPapersMember | src/processors/embedding_filter.py:96-122 | a paper is returned exactly when some capped paper is accepted as it |
| EmbeddingFilter.KeepAppend | src/processors/embedding_filter.py:102-122 | papers are judged independently: the loop over a concatenation is the concatenation of the loops |
| EmbeddingFilter.SkipRaised | src/processors/embedding_filter.py:119-122 | a paper whose call raises is skipped and the others are unaffected |
| EmbeddingFilter.OnlyCappedEmbedded | src/processors/embedding_filter.py:96-107 | providers that agree on the capped papers give the same result |
| EmbeddingFilter.ZipKeep | src/processors/embedding_filter.py:159-166 | the zip loop stops at the shorter list and keeps only papers scoring at or above the threshold |
| EmbeddingFilter.ZipKeepSomeIff | src/processors/embedding_filter.py:151-166 | the zip loop finishes exactly when no paired paper raises |
| EmbeddingFilter.ZipKeepAgrees | src/processors/embedding_filter.py:158-166 | over the vectors the single calls would return, the zip loop keeps what the per-paper loop keeps |
| EmbeddingFilter.ZipKeepStopsShort | src/processors/embedding_filter.py:160 | papers past the end of the returned vectors are never looked at |
| EmbeddingFilter.OpenAIBatchAsWritten | src/processors/embedding_filter.py:130-176 | nothing for no papers; sorted by score; a stable permutation of what the uncapped zip loop kept, or of the per-paper result after a raise |
| EmbeddingFilter.OpenAIBatchAsWrittenUncapped | src/processors/embedding_filter.py:140-176 | with a consistent provider, the batch path is `filter_papers` with the cap lifted to the whole list when the batch succeeds, and `filter_papers` itself when it falls back |
| EmbeddingFilter.OpenAIBatchIgnoresCap | src/processors/embedding_filter.py:140-150 | with cap 1 and two matching papers, `filter_papers` returns one paper and the batch path two |
| EmbeddingFilter.OpenAIBatch | src/processors/embedding_filter.py:140-176 | the capped batch path: sorted by score, a stable permutation of what the capped zip loop kept, or of the per-paper result after a raise |
| EmbeddingFilter.OpenAIBatchAgrees | src/processors/embedding_filter.py:140-176 | with a consistent provider, the capped batch path gives exactly what `filter_papers` gives |
| ZhipuFilter.GetEmbedding | src/processors/zhipu_embedding_filter.py:82-87 | an embedding exactly when the call succeeds, `data` is a non-empty list and its first item has one; it is that item's embedding |
| ZhipuFilter.EmptyDataSkips | src/processors/zhipu_embedding_filter.py:139-159 | a reply whose `data` is missing, `null` or empty skips that paper and leaves the others alone |
| ZhipuFilter.Paired | src/processors/zhipu_embedding_filter.py:217-220 | a missing `data` pairs with nothing; `null` makes `zip` raise; a list pairs item by item |
| ZhipuFilter.ZhipuBatch | src/processors/zhipu_embedding_filter.py:179-236 | nothing for no papers; sorted by score; a stable permutation of what the capped zip loop kept, or of `filter_papers` on the capped list after any raise |
| ZhipuFilter.MissingDataGivesNothing | src/processors/zhipu_embedding_filter.py:217-220 | a batch reply without `data` gives no papers and no fallback |
| ZhipuFilter.NullDataFallsBack | src/processors/zhipu_embedding_filter.py:217-236 | a batch reply with `null` `data` falls back to `filter_papers` on the capped list |
| ZhipuFilter.ZhipuBatchAgrees | src/processors/zhipu_embedding_filter.py:179-236 | with a consistent exchange and a non-negative cap, the batch path gives what `filter_papers` gives |
| Similarity.Cosine | src/utils/math_utils.py:21-31 | `None` exactly when the lengths differ; 0 when either norm is 0; otherwise the dot product over the product of the norms (the Zhipu filter's own copy in src/processors/zhipu_embedding_filter.py has the same guard and value) |
| Similarity.CosineSymmetric | src/utils/math_utils.py:24-31 | sim(a, b) = sim(b, a) |
| Similarity.CosineSelf | src/utils/math_utils.py:24-31 | a non-zero vector has similarity 1 with itself |
| Similarity.CosineZeroVector | src/utils/math_utils.py:28-29 | an all-zero vector of the same length gives exactly 0 |
| Similarity.NormZeroIff | src/utils/math_utils.py:25-29 | the norm is 0 exactly when every component is 0 |
| Similarity.CosineBounded | src/utils/math_utils.py:24-31 | for equal lengths the value lies in [-1, 1], by Cauchy–Schwarz |
| Similarity.CosineCanBeNegative | src/utils/math_utils.py:18-31 | opposite vectors give -1, so the documented range 0-1 does not hold |
| Sorting.SortDesc | src/processors/embedding_filter.py:125 | the result is sorted by key, highest first, and is a permutation of the input |
| Sorting.SortStable | src/processors/embedding_filter.py:125 | papers with equal keys keep their input order |
| Tally.SortedTally | src/processors/summarizer.py:303-315 | one entry per key that occurs, keys ascending, each with its positive count; the counts sum to the list's length |
| Summarizer.MakeConfig | src/processors/summarizer.py:29-31 | the language defaults to `zh-CN` and the length cap to 300 |
| Summarizer.StripFence | src/processors/summarizer.py:149-155 | text not starting with a fence is kept as it is |
| Summarizer.FenceRaisesIff | src/processors/summarizer.py:149-155 | stripping raises exactly for a fence with no newline, where `lines[-1]` finds no line |
| Summarizer.FenceRoundTrip | src/processors/summarizer.py:149-155 | a body wrapped in an opening fence line and a closing fence comes back stripped |
| Summarizer.Cap | src/processors/summarizer.py:157-159 | a short summary is kept; a longer one becomes its first `max_length` characters and `...`, at most `max_length` + 3 long |
| Summarizer.Fallback | src/processors/summarizer.py:162-172 | the fallback is a prefix of the abstract of at most `max_length` characters |
| Summarizer.SummaryOf | src/processors/summarizer.py:84-96 | an escaping exception gives the abstract prefix in language `original`; a failed call gives the abstract prefix in the configured language; the result is capped |
| Summarizer.PlainReplyKept | src/processors/summarizer.py:145-161 | a short unfenced reply is the summary, stripped |
| Summarizer.LoneFenceFallsBack | src/processors/summarizer.py:149-172 | a reply that is a lone fence line raises and gives the abstract prefix |
| Summarizer.SummarizePapers | src/processors/summarizer.py:84-96 | one paper out per paper in, each with its summary and language set and nothing else changed |
| Summarizer.Gather | src/processors/summarizer.py:274-288 | the non-empty cleaned parts, unless some part raised |
| Summarizer.ParseParts | src/processors/summarizer.py:272-288 | parsing raises exactly when some part raises; otherwise no more results than parts, all non-empty |
| Summarizer.ParseBatch | src/processors/summarizer.py:269-288 | no more summaries than `===` parts, all non-empty |
| Summarizer.ParseBatchRoundTrip | src/processors/summarizer.py:269-288 | joining plain summaries with `===` and parsing them gives them back |
| Summarizer.Assign | src/processors/summarizer.py:234-241 | paper i gets summary i in the configured language when there is one, and the abstract prefix in `original` otherwise |
| Summarizer.SummarizeBatch | src/processors/summarizer.py:180-256 | the empty list is returned as is; a failed call or an unparseable reply falls back to `summarize_papers`; otherwise summaries are handed out in order |
| Summarizer.BatchHandsOutInOrder | src/processors/summarizer.py:230-241 | with one plain summary per paper, each paper gets its own summary in the configured language |
| Summarizer.ShortBatchFallsBack | src/processors/summarizer.py:234-241 | with fewer summaries than papers, the last paper gets the abstract in `original` |
| Summarizer.OverviewLines | src/processors/summarizer.py:303-315 | a header with the total, then one line per platform in sorted order; the counts sum to the total |
| Summarizer.DailySummary | src/processors/summarizer.py:300-317 | the fixed sentence for no papers, and the overview lines otherwise |
| Summarizer.DailySummaryPlatforms | src/processors/summarizer.py:304-315 | every paper's platform appears in the overview with its count |
| Feishu.MakeConfig | src/formatters/feishu_formatter.py:26 | the display cap defaults to 0, meaning no cap |
| Feishu.Shown | src/formatters/feishu_formatter.py:41-45 | a prefix of the papers: all of them without a cap, else the first N; shown and hidden add up to all |
| Feishu.OverviewLines | src/formatters/feishu_formatter.py:84-97 | a header with the total count, then one line per platform, sorted |
| Feishu.OverviewPlatforms | src/formatters/feishu_formatter.py:84-97 | every paper's platform, or `unknown`, appears with its count, and the counts sum to the number of papers |
| Feishu.Icon | src/formatters/feishu_formatter.py:110-117 | one character; the default icon exactly for platforms outside the fixed map |
| Feishu.CategoriesText | src/formatters/feishu_formatter.py:128-134 | up to three categories are joined with the separator; beyond three, the first three are joined and ` ...` is appended |
| Feishu.CategoriesRoundTrip | src/formatters/feishu_formatter.py:130-131 | splitting the text of up to three comma-free categories on `, ` gives them back |
| Feishu.FormatPaper | src/formatters/feishu_formatter.py:99-136 | the head line comes first; the summary line appears when there is a summary; the category line appears when there are categories |
| Feishu.PaperLines | src/formatters/feishu_formatter.py:119-136 | the block has one head line, plus two lines for a summary and two for categories |
| Feishu.PaperRoundTrip | src/formatters/feishu_formatter.py:119-136 | for one-line fields, the block splits back into exactly those lines |
| Feishu.Numbered | src/formatters/feishu_formatter.py:56-57 | paper i is rendered with number i + 1 |
| Feishu.More | src/formatters/feishu_formatter.py:59-61 | the trailer appears exactly when there is a cap and more papers than it, with the number hidden |
| Feishu.MessageParts | src/formatters/feishu_formatter.py:47-71 | title, overview, the shown papers numbered in order, the trailer when truncated, then sources and update time |
| Feishu.BriefingPapers | src/formatters/feishu_formatter.py:47-71 | the message starts with the title and contains the overview, every shown paper and the trailer when truncated |
| Feishu.BriefingSources | src/formatters/feishu_formatter.py:64-69 | every platform of the papers appears in the message |
| Feishu.FormatBriefing | src/formatters/feishu_formatter.py:28-71 | the title first, the overview, every shown paper, the trailer when truncated, and every platform |
| Feishu.SourceListed | src/formatters/feishu_formatter.py:67 | in any order of the platform set, every platform is on the sources line |
| Feishu.ErrorNotification | src/formatters/feishu_formatter.py:149-154 | the notice holds the date line and the error line |
| Feishu.ErrorNotificationLines | src/formatters/feishu_formatter.py:149-154 | for one-line inputs, the notice splits into exactly its lines |
| Feishu.SuccessNotification | src/formatters/feishu_formatter.py:167-172 | the notice holds the date line and the count line |
| Feishu.SuccessNotificationLines | src/formatters/feishu_formatter.py:167-172 | for a one-line date, the notice splits into exactly its lines |
| Pdf.MakeConfig | src/utils/pdf_downloader.py:32-33 | storage under `data/papers` and a 30000-character limit unless configured |
| Pdf.SafeId | src/utils/pdf_downloader.py:62 | the same length as the id, every `:` and `/` turned into `_` and nothing else changed |
| Pdf.SafeIdKeeps | src/utils/pdf_downloader.py:62 | an id that is already a file name is kept, so sanitising is idempotent |
| Pdf.PdfPath | src/utils/pdf_downloader.py:61-68 | the storage directory, the platform or `unknown`, the sanitised id and `.pdf`, with the length of those parts |
| Pdf.PdfPathDirectory | src/utils/pdf_downloader.py:61-68 | cutting the path at its last `/` gives the directory and, after it, exactly the sanitised id and `.pdf` |
| Pdf.DownloadPaper | src/utils/pdf_downloader.py:45-111 | a path exactly when the paper has a PDF link and the file exists or was written; it is the paper's path |
| Pdf.Truncate | src/utils/pdf_downloader.py:133-134 | text is cut to its first `max_chars` characters plus the note only when the limit is positive and exceeded; empty exactly when the input is |
| Pdf.TruncateIdempotent | src/utils/pdf_downloader.py:133-134 | truncating twice is truncating once |
| Pdf.KeptPages | src/utils/pdf_downloader.py:145-157 | exactly the extracted pages that are not all white space, in page order, one entry per such page |
| Pdf.ExtractText | src/utils/pdf_downloader.py:113-167 | no limit means the configured one; the Markdown text or the joined pages, truncated; empty when both extractors fail |
| Pdf.PagesEmptyIff | src/utils/pdf_downloader.py:142-163 | the fallback text is empty exactly when every extracted page is all white space |
| Pdf.DownloadAndExtract | src/utils/pdf_downloader.py:169-191 | text exactly when the download gives a path and the text is non-empty; only then is `pdf_path` set, and nothing else changes |
| Pdf.StorageInfo | src/utils/pdf_downloader.py:243-266 | zeros for a missing directory; otherwise every file counted once, the total size the sum of sizes, and per-directory counts that sum to the total |
| Pdf.SizeSumAppend | src/utils/pdf_downloader.py:254-257 | each file adds its own size once |
| PdfStep.DownloadAll | src/main.py:189-194 | only a paper with a PDF link whose download succeeds is changed, and only in its `pdf_path` |
| PdfStep.NoLinkNoDownload | src/main.py:189-194 | papers without PDF links come out of the step unchanged |
| PdfStep.FetchedPapersNeverDownloaded | src/main.py:190 | as written, no paper is ever given a `pdf_path` when each has the PDF link of some paper from the arXiv fetch or from any of the bioRxiv and medRxiv fetches, so papers mixed from several fetchers, selected, or scored by the embedding filters are covered |
| PdfStep.CorrectedPapersDownloaded | src/main.py:189-194 | with the corrected normalisation, every bioRxiv or medRxiv paper with a landing page reaches the download with its `.full.pdf` link and gets the path on success |

## Left out

- Text.Lower: folds ASCII `A`–`Z` only. Python's `lower()` is full Unicode and can change a string's length: `'İ'.lower()` has two characters. So `AIFilter.KeywordHit`, `AIFilter.HasKeyword`, `AIFilter.FilterByKeywords` and the reply cascade agree with the source only on text whose upper-case letters are ASCII.
- Pdf.StorageInfo: reports the total size in bytes. The source reports `round(total / (1024 * 1024), 2)` megabytes. The float division and rounding are not modelled.
- Pdf.PdfPath: builds the path by string concatenation. `pathlib` collapses a trailing `/` of the storage directory and drops `.` segments. `mkdir` raises for a platform containing `/`, and `download_paper` does not catch that exception. None of this is modelled.
- EmbeddingFilter.OpenAIBatchAsWritten: the source writes `similarity_score` into the caller's dictionaries before a later pair can raise. After the fallback, papers that the fallback rejects still carry that stale score in the caller's list. The model returns new records and leaves the input untouched. The same holds for `ZhipuFilter.ZhipuBatch`, for `EmbeddingFilter.FilterPapers` on papers it accepts, and for the summariser, which fills in the caller's dictionaries and returns the same list.
- Similarity.Cosine: computes over exact reals, not numpy floats. The norm is carried with each vector, constrained by `norm * norm == sum of squares`, because square roots are not available. Rounding, NaN and infinity are not modelled.
- ZhipuFilter.Paired: models the reply's `data` as missing, `null` or a list of items. Other JSON values are not modelled. A number makes `zip` raise. A non-empty string passes `zip`, and then the `['embedding']` subscript on its first character raises. An empty string makes `zip` yield nothing, with no raise. An object makes `zip` iterate its keys.
- Feishu.FormatBriefing: the sources line iterates a Python `set`, whose order is not fixed. The model takes the order as a parameter, constrained to list each platform once. The date defaults to `date.today()`, so it is a parameter too.
- Dates: `strftime`, `timedelta` and `date.today()` are left out. Dates are opaque strings, and the arXiv category query that formats them is not modelled.
- Fetch requests: the arXiv and bioRxiv HTTP requests and `feedparser` are parameters. Their results are the parsed entries, or `None` where the request, status check or decoding raised. Entry fields of a type other than string, which make `_parse_biorxiv_entry` or `_parse_arxiv_entry` return `{}`, are not modelled; the arXiv parser's raises on a missing `id`, an author without `name` and a tag without `term` are.
- The `raw` key that `_normalize_paper` keeps is not modelled. Neither are the extra `arxiv_id`, `doi` and `version` keys the parsers add; normalisation drops them.
- Prompts: the wording of every prompt, the `tempfile` handling and the timeouts are left out. Building the relevance prompt can raise through `str.format`, and that is the `PromptFailed` outcome.
- `_find_claude`, the executable probing of `src/utils/claude_cli.py`, and the OpenAI/Zhipu client construction are environment I/O. Whether a judge path was found is the argument of `AIFilter.MakeConfig`.
- `cleanup_old_pdfs` and `cleanup_all_pdfs`: file deletion against the clock.
- `format_test_message`: a constant text.
- `src/utils/storage.py` (SQLite persistence), `src/utils/logger.py` (logging handlers) and the rest of `src/main.py`: CLI parsing, configuration loading, orchestration and the message send. Only the PDF loop of `src/main.py` is part of this model.
- Logging calls are side effects only and are left out everywhere.

## Findings

| source | as written | input that shows it | evidently intended | confidence | as-written member | corrected member |
|---|---|---|---|---|---|---|
| src/fetchers/base.py:61-71 | `_normalize_paper` builds a new dictionary without `pdf_url`, so the PDF loop's `if paper.get('pdf_url')` (src/main.py:190) is never true and no PDF is ever downloaded | a bioRxiv entry with DOI `10.1101/x`: it is parsed with `pdf_url` `https://www.biorxiv.org/content/10.1101/x.full.pdf`, and the fetched paper has no `pdf_url` | normalisation carries `pdf_url` over, so papers with a landing page are downloaded | not executed | PdfStep.FetchedPapersNeverDownloaded | PdfStep.CorrectedPapersDownloaded |
| src/processors/embedding_filter.py:140-150 | the OpenAI batch path embeds and may return every paper, ignoring `max_papers` | cap 1 and two papers that both match the query: `filter_papers` returns one paper and the batch path two | cap the list first, as `filter_papers` and the Zhipu batch path do | not executed | EmbeddingFilter.OpenAIBatchIgnoresCap | EmbeddingFilter.OpenAIBatchAgrees |

Both halves of the first finding are modelled:

- **As written.** `Fetchers.NormalizeAsWritten` and `Biorxiv.Fetch`.
- **Corrected.** `Fetchers.Normalize` and `Biorxiv.FetchCorrected`. `Fetchers.CollectDropsOnlyPdf` and `Biorxiv.FetchBlanksPdf` prove the two differ only in the PDF links.

The second finding is modelled the same way:

- **As written.** `EmbeddingFilter.OpenAIBatchAsWritten`, which `EmbeddingFilter.OpenAIBatchAsWrittenUncapped` characterises as `filter_papers` with the cap lifted.
- **Corrected.** `EmbeddingFilter.OpenAIBatch`, which `EmbeddingFilter.OpenAIBatchAgrees` proves equal to `filter_papers`.
