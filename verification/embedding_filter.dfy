/** The embedding filters. Both providers share one per-paper pipeline: cap
    the list, embed "title abstract", score it against the query vector that
    was embedded once at construction, keep scores at or above the threshold
    with the score attached, and stable-sort by score, highest first. The
    provider is a parameter: `embed(text)` is `None` when the call raises.
    The module also holds the OpenAI batch path; the Zhipu one lives in
    `ZhipuFilter`. */
module EmbeddingFilter {
  import opened Wrappers
  import opened Text
  import opened Papers
  import opened Similarity
  import opened Sorting

  const DefaultThreshold := 0.75
  const DefaultMaxPapers := 30

  datatype Settings = Settings(threshold: real, maxPapers: int)

  /** Absent settings take their defaults. */
  function MakeSettings(threshold: Option<real>, maxPapers: Option<int>): (s: Settings)
    ensures s.threshold == (if threshold.Some? then threshold.value else 0.75)
    ensures s.maxPapers == (if maxPapers.Some? then maxPapers.value else 30)
  {
    Settings(threshold.GetOr(DefaultThreshold), maxPapers.GetOr(DefaultMaxPapers))
  }

  /** The text embedded for a paper. */
  function ScoreText(p: Paper): (t: string)
    ensures |t| == |p.title| + 1 + |p.abstractText|
    ensures t[..|p.title|] == p.title && t[|p.title|] == ' ' && t[|p.title| + 1..] == p.abstractText
  {
    p.title + " " + p.abstractText
  }

  function Texts(papers: seq<Paper>): (ts: seq<string>)
    ensures |ts| == |papers|
    ensures forall i :: 0 <= i < |papers| ==> ts[i] == ScoreText(papers[i])
  {
    seq(|papers|, i requires 0 <= i < |papers| => ScoreText(papers[i]))
  }

  /** `papers[:max_papers]` when the list is longer than the cap. */
  function Cap(papers: seq<Paper>, maxPapers: int): (r: seq<Paper>)
    ensures r <= papers
    ensures maxPapers >= 0 ==> |r| == Min(|papers|, maxPapers)
    ensures |papers| <= maxPapers ==> r == papers
  {
    if |papers| > maxPapers then Take(papers, maxPapers) else papers
  }

  function Min(a: int, b: int): int {
    if a <= b then a else b
  }

  /** The sort key `p.get('similarity_score', 0)`. */
  function Score(p: Paper): real {
    p.similarityScore.GetOr(0.0)
  }

  /** What happens to one paper once its embedding call has returned (or
      raised): `Raised` covers a failed call and `np.dot` raising on vectors
      of different lengths. */
  datatype Outcome = Raised | Rejected | Accepted(paper: Paper)

  function Judge(p: Paper, e: Option<Embedding>, query: Embedding, threshold: real): (o: Outcome)
    ensures o.Raised? <==> e.None? || Cosine(query, e.value).None?
    ensures o.Accepted? <==> e.Some? && Cosine(query, e.value).Some? && Cosine(query, e.value).value >= threshold
    ensures o.Accepted? ==> o.paper == p.(similarityScore := Cosine(query, e.value))
  {
    if e.None? then Raised
    else
      match Cosine(query, e.value)
      case None => Raised
      case Some(c) => if c >= threshold then Accepted(p.(similarityScore := Some(c))) else Rejected
  }

  /** The per-paper loop: a paper whose call raises is skipped and the loop
      goes on. */
  function Keep(cands: seq<Paper>, query: Embedding, embed: string -> Option<Embedding>, threshold: real): (r: seq<Paper>)
    ensures |r| <= |cands|
    ensures forall q :: q in r ==> q.similarityScore.Some? && q.similarityScore.value >= threshold
    decreases |cands|
  {
    if cands == [] then []
    else
      var rest := Keep(cands[1..], query, embed, threshold);
      match Judge(cands[0], embed(ScoreText(cands[0])), query, threshold)
      case Accepted(q) => [q] + rest
      case _ => rest
  }

  /** `filter_papers`. */
  function FilterPapers(papers: seq<Paper>, s: Settings, query: Embedding, embed: string -> Option<Embedding>): (r: seq<Paper>)
    ensures papers == [] ==> r == []
    ensures forall q :: q in r ==> q.similarityScore.Some? && q.similarityScore.value >= s.threshold
    ensures SortedDesc(r, Score)
    ensures multiset(r) == multiset(Keep(Cap(papers, s.maxPapers), query, embed, s.threshold))
    ensures StableFor(r, Keep(Cap(papers, s.maxPapers), query, embed, s.threshold), Score)
  {
    if papers == [] then []
    else
      Ranked(Keep(Cap(papers, s.maxPapers), query, embed, s.threshold))
  }

  /** The kept papers sorted by score, highest first, equal scores in the
      order they were kept. */
  function Ranked(kept: seq<Paper>): (r: seq<Paper>)
    ensures SortedDesc(r, Score)
    ensures multiset(r) == multiset(kept)
    ensures StableFor(r, kept, Score)
    ensures forall q :: q in r <==> q in kept
  {
    SortStable(kept, Score);
    var r := SortDesc(kept, Score);
    assert forall q :: q in r <==> q in multiset(kept);
    r
  }

  /** A paper is in the result exactly when it is among the capped papers,
      its call succeeds and its score reaches the threshold; it carries that
      score. */
  lemma FilterPapersMember(papers: seq<Paper>, s: Settings, query: Embedding, embed: string -> Option<Embedding>, q: Paper)
    ensures q in FilterPapers(papers, s, query, embed) <==>
      var cands := Cap(papers, s.maxPapers);
      exists i :: 0 <= i < |cands| && Judge(cands[i], embed(ScoreText(cands[i])), query, s.threshold) == Accepted(q)
  {
    var kept := Keep(Cap(papers, s.maxPapers), query, embed, s.threshold);
    KeepMember(Cap(papers, s.maxPapers), query, embed, s.threshold, q);
    assert q in FilterPapers(papers, s, query, embed) <==> q in multiset(kept);
  }

  /** A paper is kept exactly when its call succeeds and its score reaches
      the threshold; it is kept with that score attached. */
  lemma {:induction false} KeepMember(cands: seq<Paper>, query: Embedding, embed: string -> Option<Embedding>, threshold: real, q: Paper)
    ensures q in Keep(cands, query, embed, threshold) <==>
      exists i :: 0 <= i < |cands| && Judge(cands[i], embed(ScoreText(cands[i])), query, threshold) == Accepted(q)
    decreases |cands|
  {
    if cands != [] {
      KeepMember(cands[1..], query, embed, threshold, q);
      assert forall i :: 1 <= i < |cands| ==> cands[i] == cands[1..][i - 1];
      if exists i :: 0 <= i < |cands| && Judge(cands[i], embed(ScoreText(cands[i])), query, threshold) == Accepted(q) {
        var i :| 0 <= i < |cands| && Judge(cands[i], embed(ScoreText(cands[i])), query, threshold) == Accepted(q);
        if i > 0 {
          assert Judge(cands[1..][i - 1], embed(ScoreText(cands[1..][i - 1])), query, threshold) == Accepted(q);
        }
      }
    }
  }

  /** The loop treats papers independently: the result for a concatenation is
      the concatenation of the results, so a paper that raises drops only
      itself. */
  lemma {:induction false} KeepAppend(a: seq<Paper>, b: seq<Paper>, query: Embedding, embed: string -> Option<Embedding>, threshold: real)
    ensures Keep(a + b, query, embed, threshold) == Keep(a, query, embed, threshold) + Keep(b, query, embed, threshold)
    decreases |a|
  {
    if a == [] {
      assert a + b == b;
    } else {
      assert (a + b)[0] == a[0];
      assert (a + b)[1..] == a[1..] + b;
      KeepAppend(a[1..], b, query, embed, threshold);
    }
  }

  /** When every paper is accepted, the loop keeps them all. */
  lemma {:induction false} KeepAllAccepted(cands: seq<Paper>, query: Embedding, embed: string -> Option<Embedding>, threshold: real)
    requires forall i :: 0 <= i < |cands| ==> Judge(cands[i], embed(ScoreText(cands[i])), query, threshold).Accepted?
    ensures |Keep(cands, query, embed, threshold)| == |cands|
    decreases |cands|
  {
    if cands != [] {
      assert forall i :: 1 <= i < |cands| ==> cands[i] == cands[1..][i - 1];
      KeepAllAccepted(cands[1..], query, embed, threshold);
    }
  }

  /** A paper whose call raises is skipped and the others are unaffected. */
  lemma SkipRaised(cands: seq<Paper>, i: nat, query: Embedding, embed: string -> Option<Embedding>, threshold: real)
    requires i < |cands| && embed(ScoreText(cands[i])).None?
    ensures Keep(cands, query, embed, threshold) ==
      Keep(cands[..i], query, embed, threshold) + Keep(cands[i + 1..], query, embed, threshold)
  {
    assert cands == cands[..i] + ([cands[i]] + cands[i + 1..]);
    KeepAppend(cands[..i], [cands[i]] + cands[i + 1..], query, embed, threshold);
    assert ([cands[i]] + cands[i + 1..])[1..] == cands[i + 1..];
  }

  /** Only the first `max_papers` papers are ever embedded: two providers that
      agree on those give the same result. */
  lemma {:induction false} OnlyCappedEmbedded(papers: seq<Paper>, s: Settings, query: Embedding, e1: string -> Option<Embedding>, e2: string -> Option<Embedding>)
    requires forall p :: p in Cap(papers, s.maxPapers) ==> e1(ScoreText(p)) == e2(ScoreText(p))
    ensures FilterPapers(papers, s, query, e1) == FilterPapers(papers, s, query, e2)
  {
    KeepSameProvider(Cap(papers, s.maxPapers), query, e1, e2, s.threshold);
  }

  lemma {:induction false} KeepSameProvider(cands: seq<Paper>, query: Embedding, e1: string -> Option<Embedding>, e2: string -> Option<Embedding>, threshold: real)
    requires forall p :: p in cands ==> e1(ScoreText(p)) == e2(ScoreText(p))
    ensures Keep(cands, query, e1, threshold) == Keep(cands, query, e2, threshold)
    decreases |cands|
  {
    if cands != [] {
      assert cands[0] in cands;
      KeepSameProvider(cands[1..], query, e1, e2, threshold);
    }
  }

  // ---------------------------------------------------------------------
  // Batch paths.

  /** The batch loop over `zip(papers, embeddings)`: pairs stop at the
      shorter list, and any raise aborts the whole loop (`None`). An
      embedding that is itself `None` stands for a missing key. */
  function ZipKeep(papers: seq<Paper>, es: seq<Option<Embedding>>, query: Embedding, threshold: real): (r: Option<seq<Paper>>)
    ensures r.Some? ==> |r.value| <= Min(|papers|, |es|)
    ensures r.Some? ==> forall q :: q in r.value ==> q.similarityScore.Some? && q.similarityScore.value >= threshold
    decreases |papers|
  {
    if papers == [] || es == [] then Some([])
    else
      match ZipKeep(papers[1..], es[1..], query, threshold)
      case None => None
      case Some(rest) =>
        match Judge(papers[0], es[0], query, threshold)
        case Raised => None
        case Rejected => Some(rest)
        case Accepted(q) => Some([q] + rest)
  }

  /** A batch loop over embeddings the per-paper calls would also have
      returned, one per paper, keeps what the per-paper loop keeps. */
  lemma {:induction false} ZipKeepAgrees(papers: seq<Paper>, es: seq<Option<Embedding>>, query: Embedding, embed: string -> Option<Embedding>, threshold: real)
    requires |es| == |papers|
    requires forall i :: 0 <= i < |papers| ==> es[i] == embed(ScoreText(papers[i]))
    requires ZipKeep(papers, es, query, threshold).Some?
    ensures ZipKeep(papers, es, query, threshold).value == Keep(papers, query, embed, threshold)
    decreases |papers|
  {
    if papers != [] {
      assert forall i :: 1 <= i < |papers| ==> papers[i] == papers[1..][i - 1] && es[i] == es[1..][i - 1];
      ZipKeepAgrees(papers[1..], es[1..], query, embed, threshold);
    }
  }

  /** When every paired paper is accepted, the batch loop keeps them all. */
  lemma {:induction false} ZipKeepAllAccepted(papers: seq<Paper>, es: seq<Option<Embedding>>, query: Embedding, threshold: real)
    requires |es| == |papers|
    requires forall i :: 0 <= i < |papers| ==> Judge(papers[i], es[i], query, threshold).Accepted?
    ensures ZipKeep(papers, es, query, threshold).Some?
    ensures |ZipKeep(papers, es, query, threshold).value| == |papers|
    decreases |papers|
  {
    if papers != [] {
      assert forall i :: 1 <= i < |papers| ==> papers[i] == papers[1..][i - 1] && es[i] == es[1..][i - 1];
      ZipKeepAllAccepted(papers[1..], es[1..], query, threshold);
    }
  }

  /** Papers past the end of the returned list are never looked at. */
  lemma {:induction false} ZipKeepStopsShort(papers: seq<Paper>, es: seq<Option<Embedding>>, query: Embedding, threshold: real)
    requires |es| <= |papers|
    ensures ZipKeep(papers, es, query, threshold) == ZipKeep(papers[..|es|], es, query, threshold)
    decreases |es|
  {
    if es != [] {
      assert papers[..|es|][1..] == papers[1..][..|es| - 1];
      ZipKeepStopsShort(papers[1..], es[1..], query, threshold);
    }
  }

  /** The batch loop runs to the end exactly when no paired paper raises. */
  lemma {:induction false} ZipKeepSomeIff(papers: seq<Paper>, es: seq<Option<Embedding>>, query: Embedding, threshold: real)
    requires |es| == |papers|
    ensures ZipKeep(papers, es, query, threshold).Some? <==>
      forall i :: 0 <= i < |papers| ==> !Judge(papers[i], es[i], query, threshold).Raised?
    decreases |papers|
  {
    if papers != [] {
      assert forall i :: 1 <= i < |papers| ==> papers[i] == papers[1..][i - 1] && es[i] == es[1..][i - 1];
      ZipKeepSomeIff(papers[1..], es[1..], query, threshold);
    }
  }

  /** The OpenAI batch response: `None` when the call raises. */
  type BatchEmbed = seq<string> -> Option<seq<Embedding>>

  function Wrap(es: seq<Embedding>): (r: seq<Option<Embedding>>)
    ensures |r| == |es|
    ensures forall i :: 0 <= i < |es| ==> r[i] == Some(es[i])
  {
    seq(|es|, i requires 0 <= i < |es| => Some(es[i]))
  }

  /** The list a batch path sorts when `cands` are the papers it embeds:
      what the zip loop kept, or, after any raise, what the per-paper loop
      keeps from the capped list. */
  function BatchKept(cands: seq<Paper>, papers: seq<Paper>, s: Settings, query: Embedding,
                     embed: string -> Option<Embedding>, batch: BatchEmbed): seq<Paper>
  {
    if batch(Texts(cands)).Some? && ZipKeep(cands, Wrap(batch(Texts(cands)).value), query, s.threshold).Some? then
      ZipKeep(cands, Wrap(batch(Texts(cands)).value), query, s.threshold).value
    else Keep(Cap(papers, s.maxPapers), query, embed, s.threshold)
  }

  /** `EmbeddingFilter.filter_papers_batch` as written: it embeds every
      paper, with no cap, and falls back to `filter_papers` on any raise.
      The result is the stable descending sort of the kept papers. */
  function OpenAIBatchAsWritten(papers: seq<Paper>, s: Settings, query: Embedding, embed: string -> Option<Embedding>, batch: BatchEmbed): (r: seq<Paper>)
    ensures papers == [] ==> r == []
    ensures forall q :: q in r ==> q.similarityScore.Some? && q.similarityScore.value >= s.threshold
    ensures SortedDesc(r, Score)
    ensures papers != [] ==> multiset(r) == multiset(BatchKept(papers, papers, s, query, embed, batch))
    ensures papers != [] ==> StableFor(r, BatchKept(papers, papers, s, query, embed, batch), Score)
  {
    if papers == [] then []
    else
      match batch(Texts(papers))
      case None => FilterPapers(papers, s, query, embed)
      case Some(es) =>
        match ZipKeep(papers, Wrap(es), query, s.threshold)
        case None => FilterPapers(papers, s, query, embed)
        case Some(kept) =>
          Ranked(kept)
  }

  /** The batch path with the cap the per-paper path applies: only the
      capped papers are embedded, and a failure falls back to `filter_papers`
      on the list as given. */
  function OpenAIBatch(papers: seq<Paper>, s: Settings, query: Embedding, embed: string -> Option<Embedding>, batch: BatchEmbed): (r: seq<Paper>)
    ensures papers == [] ==> r == []
    ensures forall q :: q in r ==> q.similarityScore.Some? && q.similarityScore.value >= s.threshold
    ensures SortedDesc(r, Score)
    ensures papers != [] ==> multiset(r) == multiset(BatchKept(Cap(papers, s.maxPapers), papers, s, query, embed, batch))
    ensures papers != [] ==> StableFor(r, BatchKept(Cap(papers, s.maxPapers), papers, s, query, embed, batch), Score)
  {
    if papers == [] then []
    else
      var cands := Cap(papers, s.maxPapers);
      match batch(Texts(cands))
      case None => FilterPapers(papers, s, query, embed)
      case Some(es) =>
        match ZipKeep(cands, Wrap(es), query, s.threshold)
        case None => FilterPapers(papers, s, query, embed)
        case Some(kept) =>
          Ranked(kept)
  }

  /** A batch provider that returns, for every text, what the single call
      returns, whenever all single calls succeed. */
  ghost predicate Consistent(embed: string -> Option<Embedding>, batch: BatchEmbed) {
    forall ts: seq<string> :: batch(ts).Some? ==>
      |batch(ts).value| == |ts| && forall i :: 0 <= i < |ts| ==> embed(ts[i]) == Some(batch(ts).value[i])
  }

  /** Capping twice is capping once, for a cap that is not negative. A
      negative cap drops that many papers from the end each time. */
  lemma CapIdempotent(papers: seq<Paper>, maxPapers: int)
    requires maxPapers >= 0
    ensures Cap(Cap(papers, maxPapers), maxPapers) == Cap(papers, maxPapers)
  {
  }

  /** With a consistent provider the capped batch path gives exactly what
      `filter_papers` gives. */
  lemma OpenAIBatchAgrees(papers: seq<Paper>, s: Settings, query: Embedding, embed: string -> Option<Embedding>, batch: BatchEmbed)
    requires Consistent(embed, batch)
    ensures OpenAIBatch(papers, s, query, embed, batch) == FilterPapers(papers, s, query, embed)
  {
    if papers != [] {
      var cands := Cap(papers, s.maxPapers);
      var ts := Texts(cands);
      if batch(ts).Some? {
        var es := Wrap(batch(ts).value);
        if ZipKeep(cands, es, query, s.threshold).Some? {
          ZipKeepAgrees(cands, es, query, embed, s.threshold);
        }
      }
    }
  }

  /** The as-written batch path embeds papers past the cap: with a cap of one
      and two papers that both match, the per-paper path returns one paper
      and the batch path two. */
  lemma OpenAIBatchIgnoresCap(a: Paper, b: Paper, v: Embedding, threshold: real)
    requires v.norm != 0.0 && threshold <= 1.0
    ensures var embed := (t: string) => Some(v);
      var batch := (ts: seq<string>) => Some(seq(|ts|, _ => v));
      var s := Settings(threshold, 1);
      |FilterPapers([a, b], s, v, embed)| == 1 && |OpenAIBatchAsWritten([a, b], s, v, embed, batch)| == 2
  {
    var embed := (t: string) => Some(v);
    var batch := (ts: seq<string>) => Some(seq(|ts|, _ => v));
    var papers := [a, b];
    CosineSelf(v);
    assert Cap(papers, 1) == [a];
    KeepAllAccepted([a], v, embed, threshold);
    var es := Wrap(batch(Texts(papers)).value);
    ZipKeepAllAccepted(papers, es, v, threshold);
  }

  /** The batch call succeeded and every returned vector could be scored
      against the query. */
  predicate BatchSucceeds(papers: seq<Paper>, query: Embedding, batch: BatchEmbed) {
    batch(Texts(papers)).Some? &&
    forall i :: 0 <= i < |batch(Texts(papers)).value| ==> Cosine(query, batch(Texts(papers)).value[i]).Some?
  }

  /** With a consistent provider, the as-written batch path is
      `filter_papers` with the cap lifted to the whole list when the batch
      succeeds, and `filter_papers` itself when it falls back. */
  lemma OpenAIBatchAsWrittenUncapped(papers: seq<Paper>, s: Settings, query: Embedding, embed: string -> Option<Embedding>, batch: BatchEmbed)
    requires Consistent(embed, batch)
    ensures OpenAIBatchAsWritten(papers, s, query, embed, batch) ==
      FilterPapers(papers, if BatchSucceeds(papers, query, batch) then Settings(s.threshold, |papers|) else s, query, embed)
  {
    if papers != [] {
      var ts := Texts(papers);
      if batch(ts).Some? {
        var es := Wrap(batch(ts).value);
        ZipKeepSomeIff(papers, es, query, s.threshold);
        assert ZipKeep(papers, es, query, s.threshold).Some? <==> BatchSucceeds(papers, query, batch);
        if ZipKeep(papers, es, query, s.threshold).Some? {
          ZipKeepAgrees(papers, es, query, embed, s.threshold);
          assert Cap(papers, |papers|) == papers;
        }
      }
    }
  }
}
