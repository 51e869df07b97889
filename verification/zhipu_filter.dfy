/** `ZhipuEmbeddingFilter`: the same per-paper pipeline as `EmbeddingFilter`,
    with the provider reached over HTTP. The HTTP exchange is a parameter
    that returns the decoded JSON reply, or `HttpFailed` for a transport
    error, a non-2xx status or a body that is not JSON. The filter's own
    `cosine_similarity` computes the same value as the shared one. */
module ZhipuFilter {
  import opened Wrappers
  import opened Papers
  import opened Similarity
  import opened Sorting
  import opened EmbeddingFilter

  /** One element of the reply's `data` list; `embedding` is `None` when the
      key is missing. */
  datatype Item = Item(embedding: Option<Embedding>)

  /** The reply's `data` value: the key is missing, or holds `null`, or
      holds a list of items. */
  datatype Data = Missing | Null | Items(items: seq<Item>)

  /** A decoded reply. */
  datatype Reply = HttpFailed | Json(data: Data)

  /** `_get_embedding`: the first item's embedding, or a raise (`None`) when
      the call fails, `data` is missing, `null` (`len` raises) or empty, or
      the first item has no `embedding` key. */
  function GetEmbedding(reply: Reply): (r: Option<Embedding>)
    ensures r.Some? <==> reply.Json? && reply.data.Items? && |reply.data.items| > 0 && reply.data.items[0].embedding.Some?
    ensures r.Some? ==> r.value == reply.data.items[0].embedding.value
  {
    match reply
    case HttpFailed => None
    case Json(data) =>
      if data.Items? && |data.items| > 0 then data.items[0].embedding else None
  }

  /** The per-paper provider built from the single-text exchange. */
  function Embedder(post: string -> Reply): string -> Option<Embedding> {
    t => GetEmbedding(post(t))
  }

  /** `ZhipuEmbeddingFilter.filter_papers`. */
  function ZhipuFilterPapers(papers: seq<Paper>, s: Settings, query: Embedding, post: string -> Reply): seq<Paper>
  {
    FilterPapers(papers, s, query, Embedder(post))
  }

  /** A reply whose `data` is missing, `null` or empty makes that paper
      raise, so it is skipped and the rest are still scored. */
  lemma EmptyDataSkips(cands: seq<Paper>, i: nat, query: Embedding, post: string -> Reply, threshold: real)
    requires i < |cands|
    requires post(ScoreText(cands[i])) == Json(Missing) || post(ScoreText(cands[i])) == Json(Null) ||
             post(ScoreText(cands[i])) == Json(Items([]))
    ensures Keep(cands, query, Embedder(post), threshold) ==
      Keep(cands[..i], query, Embedder(post), threshold) + Keep(cands[i + 1..], query, Embedder(post), threshold)
  {
    SkipRaised(cands, i, query, Embedder(post), threshold);
  }

  /** What the batch loop pairs with the papers: `result.get('data', [])`
      reads a missing key as no items, and `zip` raises (`None`) on `null`. */
  function Paired(data: Data): (es: Option<seq<Option<Embedding>>>)
    ensures es.None? <==> data.Null?
    ensures data.Missing? ==> es == Some([])
    ensures data.Items? ==> |es.value| == |data.items| && forall i :: 0 <= i < |data.items| ==> es.value[i] == data.items[i].embedding
  {
    match data
    case Missing => Some([])
    case Null => None
    case Items(items) => Some(seq(|items|, i requires 0 <= i < |items| => items[i].embedding))
  }

  /** The list the batch path sorts, for the capped papers `cands`: what the
      zip loop kept, or, after any raise, what `filter_papers` keeps from
      them. */
  function ZhipuKept(cands: seq<Paper>, s: Settings, query: Embedding, post: string -> Reply, postBatch: seq<string> -> Reply): seq<Paper>
  {
    var reply := postBatch(Texts(cands));
    if reply.Json? && Paired(reply.data).Some? && ZipKeep(cands, Paired(reply.data).value, query, s.threshold).Some? then
      ZipKeep(cands, Paired(reply.data).value, query, s.threshold).value
    else Keep(Cap(cands, s.maxPapers), query, Embedder(post), s.threshold)
  }

  /** `ZhipuEmbeddingFilter.filter_papers_batch`: the list is capped first;
      a failed exchange, a `null` `data`, a missing `embedding` key or a
      raise while scoring falls back to `filter_papers` on the capped list.
      The result is the stable descending sort of the kept papers. */
  function ZhipuBatch(papers: seq<Paper>, s: Settings, query: Embedding, post: string -> Reply, postBatch: seq<string> -> Reply): (r: seq<Paper>)
    ensures papers == [] ==> r == []
    ensures forall q :: q in r ==> q.similarityScore.Some? && q.similarityScore.value >= s.threshold
    ensures SortedDesc(r, Score)
    ensures papers != [] ==> multiset(r) == multiset(ZhipuKept(Cap(papers, s.maxPapers), s, query, post, postBatch))
    ensures papers != [] ==> StableFor(r, ZhipuKept(Cap(papers, s.maxPapers), s, query, post, postBatch), Score)
  {
    if papers == [] then []
    else
      var cands := Cap(papers, s.maxPapers);
      match postBatch(Texts(cands))
      case HttpFailed => ZhipuFilterPapers(cands, s, query, post)
      case Json(data) =>
        match Paired(data)
        case None => ZhipuFilterPapers(cands, s, query, post)
        case Some(es) =>
          match ZipKeep(cands, es, query, s.threshold)
          case None => ZhipuFilterPapers(cands, s, query, post)
          case Some(kept) =>
            Ranked(kept)
  }

  /** A batch reply without `data` is read as an empty list: nothing is
      scored, nothing falls back, and the result is empty. */
  lemma MissingDataGivesNothing(papers: seq<Paper>, s: Settings, query: Embedding, post: string -> Reply, postBatch: seq<string> -> Reply)
    requires postBatch(Texts(Cap(papers, s.maxPapers))) == Json(Missing)
    ensures ZhipuBatch(papers, s, query, post, postBatch) == []
  {
  }

  /** A batch reply whose `data` is `null` makes `zip` raise, so the capped
      list falls back to `filter_papers`. */
  lemma NullDataFallsBack(papers: seq<Paper>, s: Settings, query: Embedding, post: string -> Reply, postBatch: seq<string> -> Reply)
    requires postBatch(Texts(Cap(papers, s.maxPapers))) == Json(Null)
    ensures ZhipuBatch(papers, s, query, post, postBatch) == ZhipuFilterPapers(Cap(papers, s.maxPapers), s, query, post)
  {
  }

  /** A batch exchange that, whenever it answers, answers one item per text,
      each as the single exchange for that text would. */
  ghost predicate Consistent(post: string -> Reply, postBatch: seq<string> -> Reply) {
    forall ts: seq<string> :: postBatch(ts).Json? ==>
      postBatch(ts).data.Items? && |postBatch(ts).data.items| == |ts| &&
      forall i :: 0 <= i < |ts| ==> postBatch(ts).data.items[i].embedding == GetEmbedding(post(ts[i]))
  }

  /** With a consistent exchange and a cap that is not negative, the batch
      path gives what the per-paper path gives. A negative cap is applied
      twice on the fallback path, once here and once in `filter_papers`. */
  lemma ZhipuBatchAgrees(papers: seq<Paper>, s: Settings, query: Embedding, post: string -> Reply, postBatch: seq<string> -> Reply)
    requires Consistent(post, postBatch) && s.maxPapers >= 0
    ensures ZhipuBatch(papers, s, query, post, postBatch) == ZhipuFilterPapers(papers, s, query, post)
  {
    if papers != [] {
      var cands := Cap(papers, s.maxPapers);
      CapIdempotent(papers, s.maxPapers);
      var ts := Texts(cands);
      if postBatch(ts).Json? {
        var es := Paired(postBatch(ts).data).value;
        if ZipKeep(cands, es, query, s.threshold).Some? {
          ZipKeepAgrees(cands, es, query, Embedder(post), s.threshold);
        }
        if cands == [] {
          assert FilterPapers(papers, s, query, Embedder(post)) == [];
        }
      }
    }
  }
}
