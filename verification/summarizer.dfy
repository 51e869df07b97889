/** `PaperSummarizer`: cleaning the summariser's reply, capping its length,
    the fallbacks to the abstract, splitting a batch reply, handing batch
    summaries out to papers, and the day's overview. The external command
    is a parameter: for a single paper, the outcome of the call made for it
    (the same outcomes the relevance judge has); for a batch, the standard
    output of a zero exit, or `None` for a non-zero exit, a timeout or any
    other exception. */
module Summarizer {
  import opened Wrappers
  import opened Text
  import opened Papers
  import opened Tally
  import AIFilter

  const DefaultLanguage := "zh-CN"
  const DefaultMaxLength := 300
  const Fence := "```"
  const Ellipsis := "..."
  const BatchSeparator := "==="
  const OriginalLanguage := "original"

  datatype Config = Config(language: string, maxLength: int)

  function MakeConfig(language: Option<string>, maxLength: Option<int>): (c: Config)
    ensures language.Some? ==> c.language == language.value
    ensures language.None? ==> c.language == "zh-CN"
    ensures maxLength.Some? ==> c.maxLength == maxLength.value
    ensures maxLength.None? ==> c.maxLength == 300
  {
    Config(language.GetOr(DefaultLanguage), maxLength.GetOr(DefaultMaxLength))
  }

  // ---------------------------------------------------------------------
  // Cleaning one reply.

  /** A cleaned reply, or the `IndexError` of `lines[-1]` on an empty list. */
  datatype Cleaned = Clean(text: string) | IndexErrorRaised

  /** The code-fence removal: for text that starts with a fence, the first
      line goes, then the last line if it starts with a fence, and the rest
      is re-joined and stripped. */
  function StripFence(s: string): (r: Cleaned)
    ensures !StartsWith(s, Fence) ==> r == Clean(s)
  {
    if !StartsWith(s, Fence) then Clean(s)
    else
      var lines := Split(s, "\n");
      var body := if StartsWith(lines[0], Fence) then lines[1..] else lines;
      if body == [] then IndexErrorRaised
      else
        var kept := if StartsWith(body[|body| - 1], Fence) then body[..|body| - 1] else body;
        Clean(Strip(Join("\n", kept)))
  }

  /** The first line of a fenced text starts with the fence. */
  lemma FirstLineFenced(s: string)
    requires StartsWith(s, Fence)
    ensures StartsWith(Split(s, "\n")[0], Fence)
  {
    var lines := Split(s, "\n");
    var i := Find(s, "\n");
    if i >= 0 {
      SplitUnfold(s, "\n", i);
      forall j | 0 <= j < 3
        ensures !OccursAt(s, "\n", j)
      {
        assert s[j..j + 1][0] == s[j] == Fence[j];
      }
      assert lines[0] == s[..i];
    }
  }

  /** Cleaning raises exactly for a fence with nothing after it on other
      lines: a text that starts with a fence and has no newline. */
  lemma FenceRaisesIff(s: string)
    ensures StripFence(s) == IndexErrorRaised <==> StartsWith(s, Fence) && !Contains(s, "\n")
  {
    if StartsWith(s, Fence) {
      FirstLineFenced(s);
    }
  }

  /** The fence holds no newline, and neither does the fence's line. */
  lemma FenceLineFree(tag: string)
    requires !Contains(tag, "\n")
    ensures !Contains(Fence, "\n")
    ensures !HasChar(Fence + tag, '\n')
  {
    CharPatternIff(Fence, '\n');
    CharPatternIff(tag, '\n');
    var line := Fence + tag;
    forall i | 0 <= i < |line|
      ensures line[i] != '\n'
    {
      if i >= |Fence| {
        assert line[i] == tag[i - |Fence|];
      }
    }
  }

  /** A fenced block, language tag and closing fence included, cleans to
      its stripped body. */
  lemma FenceRoundTrip(tag: string, body: string)
    requires !Contains(tag, "\n")
    ensures StripFence(Fence + tag + "\n" + body + "\n" + Fence) == Clean(Strip(body))
  {
    var nl := "\n";
    var s := Fence + tag + nl + body + nl + Fence;
    assert StartsWith(s, Fence) by {
      assert s[..|Fence|] == Fence;
    }
    FirstLineFenced(s);
    FenceLineFree(tag);
    assert s == (Fence + tag) + nl + (body + nl + Fence);
    SplitHeadFree(Fence + tag, nl, body + nl + Fence);
    SplitAppend(body, nl, Fence);
    var lines := Split(s, nl);
    assert lines == [Fence + tag] + (Split(body, nl) + [Fence]);
    var rest := lines[1..];
    assert rest == Split(body, nl) + [Fence];
    assert rest[..|rest| - 1] == Split(body, nl);
    assert StartsWith(rest[|rest| - 1], Fence);
    JoinSplit(body, nl);
  }

  /** The length cap: a longer summary keeps its first `maxLength`
      characters and gains an ellipsis. */
  function Cap(summary: string, maxLength: int): (r: string)
    ensures |summary| <= maxLength ==> r == summary
    ensures maxLength >= 0 ==> |r| <= maxLength + 3
    ensures |summary| > maxLength ==> r == Take(summary, maxLength) + Ellipsis
  {
    if |summary| > maxLength then Take(summary, maxLength) + Ellipsis else summary
  }

  /** The fallback summary: the abstract's prefix `abstract[:max_length]`. */
  function Fallback(p: Paper, c: Config): (r: string)
    ensures r <= p.abstractText
    ensures c.maxLength >= 0 ==> |r| <= c.maxLength
  {
    Take(p.abstractText, c.maxLength)
  }

  /** What `summarize_papers` stores for one paper, as (summary, language).
      A failure inside `_summarize_paper`, the cleaning's `IndexError`
      included, gives the abstract prefix under the configured language; a
      failure while the prompt is built escapes it and gives the abstract
      prefix marked `original`. */
  function SummaryOf(p: Paper, c: Config, inv: AIFilter.Invocation): (r: (string, string))
    ensures inv.PromptFailed? ==> r == (Fallback(p, c), OriginalLanguage)
    ensures !inv.PromptFailed? ==> r.1 == c.language
    ensures inv.NonZeroExit? || inv.TimedOut? || inv.CallRaised? ==> r.0 == Fallback(p, c)
    ensures c.maxLength >= 0 ==> |r.0| <= c.maxLength + 3
  {
    match inv
    case PromptFailed => (Fallback(p, c), OriginalLanguage)
    case Completed(stdout) =>
      (match StripFence(Strip(stdout))
       case IndexErrorRaised => (Fallback(p, c), c.language)
       case Clean(t) => (Cap(t, c.maxLength), c.language))
    case _ => (Fallback(p, c), c.language)
  }

  /** A plain reply within the limit is stored stripped and unchanged. */
  lemma PlainReplyKept(p: Paper, c: Config, stdout: string)
    requires !StartsWith(Strip(stdout), Fence) && |Strip(stdout)| <= c.maxLength
    ensures SummaryOf(p, c, AIFilter.Completed(stdout)) == (Strip(stdout), c.language)
  {
  }

  /** A lone fence in the reply falls back to the abstract, under the
      configured language. */
  lemma LoneFenceFallsBack(p: Paper, c: Config, stdout: string)
    requires StartsWith(Strip(stdout), Fence) && !Contains(Strip(stdout), "\n")
    ensures SummaryOf(p, c, AIFilter.Completed(stdout)) == (Fallback(p, c), c.language)
  {
    FenceRaisesIff(Strip(stdout));
  }

  function WithSummary(p: Paper, r: (string, string)): (q: Paper)
    ensures q.summary == Some(r.0) && q.summaryLanguage == Some(r.1)
    ensures q.(summary := p.summary, summaryLanguage := p.summaryLanguage) == p
  {
    p.(summary := Some(r.0), summaryLanguage := Some(r.1))
  }

  /** `summarize_papers`: every paper gets a summary and a language, in
      place; nothing else about the papers changes. `call(i, p)` is the
      outcome for the paper at position `i`. */
  function SummarizePapers(papers: seq<Paper>, c: Config, call: (nat, Paper) -> AIFilter.Invocation): (r: seq<Paper>)
    ensures |r| == |papers|
    ensures forall i :: 0 <= i < |papers| ==>
      r[i].(summary := papers[i].summary, summaryLanguage := papers[i].summaryLanguage) == papers[i]
    ensures forall i :: 0 <= i < |papers| ==>
      r[i].summary == Some(SummaryOf(papers[i], c, call(i, papers[i])).0) &&
      r[i].summaryLanguage == Some(SummaryOf(papers[i], c, call(i, papers[i])).1)
  {
    var r := seq(|papers|, i requires 0 <= i < |papers| => WithSummary(papers[i], SummaryOf(papers[i], c, call(i, papers[i]))));
    assert forall i :: 0 <= i < |papers| ==> r[i] == WithSummary(papers[i], SummaryOf(papers[i], c, call(i, papers[i])));
    r
  }

  // ---------------------------------------------------------------------
  // The batch path.

  /** Cleaning this piece of a batch reply raises. */
  predicate Raises(part: string) {
    StripFence(Strip(part)).IndexErrorRaised?
  }

  /** Each piece of a batch reply stripped and cleaned. */
  function CleanAll(parts: seq<string>): (cs: seq<Cleaned>)
    ensures |cs| == |parts|
    ensures forall k :: 0 <= k < |parts| ==> cs[k] == StripFence(Strip(parts[k]))
  {
    seq(|parts|, k requires 0 <= k < |parts| => StripFence(Strip(parts[k])))
  }

  /** The cleaned pieces with empty ones dropped; `None` as soon as one
      raised. */
  function Gather(cs: seq<Cleaned>): (r: Option<seq<string>>)
    ensures r.Some? ==> |r.value| <= |cs| && forall k :: 0 <= k < |r.value| ==> |r.value[k]| > 0
    ensures r.None? <==> exists k :: 0 <= k < |cs| && cs[k].IndexErrorRaised?
    decreases |cs|
  {
    if cs == [] then Some([])
    else
      var tail := cs[1..];
      var rest := Gather(tail);
      assert (exists k :: 0 <= k < |cs| && cs[k].IndexErrorRaised?) <==>
        cs[0].IndexErrorRaised? || exists k :: 0 <= k < |tail| && tail[k].IndexErrorRaised? by {
        assert forall k :: 1 <= k < |cs| ==> cs[k] == tail[k - 1];
      }
      if cs[0].IndexErrorRaised? || rest.None? then None
      else Some((if |cs[0].text| > 0 then [cs[0].text] else []) + rest.value)
  }

  /** Pieces that each clean to themselves and are not empty gather to
      themselves. */
  lemma {:induction false} GatherClean(cs: seq<Cleaned>, texts: seq<string>)
    requires |cs| == |texts|
    requires forall k :: 0 <= k < |cs| ==> cs[k] == Clean(texts[k]) && |texts[k]| > 0
    ensures Gather(cs) == Some(texts)
    decreases |cs|
  {
    if cs != [] {
      GatherClean(cs[1..], texts[1..]);
      assert [texts[0]] + texts[1..] == texts;
    }
  }

  /** The pieces of a batch reply, each stripped and cleaned, empty ones
      dropped; `None` when cleaning a piece raised. */
  function ParseParts(parts: seq<string>): (r: Option<seq<string>>)
    ensures r.Some? ==> |r.value| <= |parts| && forall k :: 0 <= k < |r.value| ==> |r.value[k]| > 0
    ensures r.None? <==> exists k :: 0 <= k < |parts| && Raises(parts[k])
  {
    var cs := CleanAll(parts);
    assert (exists k :: 0 <= k < |cs| && cs[k].IndexErrorRaised?) <==> exists k :: 0 <= k < |parts| && Raises(parts[k]);
    Gather(cs)
  }

  /** `_parse_batch_summaries`: the reply split on `===`. */
  function ParseBatch(output: string): (r: Option<seq<string>>)
    ensures r.Some? ==> |r.value| <= |Split(output, BatchSeparator)|
    ensures r.Some? ==> forall k :: 0 <= k < |r.value| ==> |r.value[k]| > 0
  {
    ParseParts(Split(output, BatchSeparator))
  }

  /** A summary the batch reply can carry through unchanged. */
  predicate Plain(s: string) {
    |s| > 0 && Trimmed(s) && !HasChar(s, '=') && !StartsWith(s, Fence)
  }

  lemma ParsePlainParts(parts: seq<string>)
    requires forall k :: 0 <= k < |parts| ==> Plain(parts[k])
    ensures ParseParts(parts) == Some(parts)
  {
    var cs := CleanAll(parts);
    forall k | 0 <= k < |parts|
      ensures cs[k] == Clean(parts[k])
    {
      StripKeeps(parts[k]);
    }
    GatherClean(cs, parts);
  }

  /** Summaries joined with `===` read back as themselves. */
  lemma ParseBatchRoundTrip(sums: seq<string>)
    requires |sums| >= 1
    requires forall k :: 0 <= k < |sums| ==> Plain(sums[k])
    ensures ParseBatch(Join(BatchSeparator, sums)) == Some(sums)
  {
    SplitJoinFree(BatchSeparator, sums);
    ParsePlainParts(sums);
  }

  /** The batch assignment: paper `i` takes summary `i` under the configured
      language while there are summaries, and the abstract prefix marked
      `original` after that. The batch summaries are not length-capped. */
  function Assign(papers: seq<Paper>, sums: seq<string>, c: Config): (r: seq<Paper>)
    ensures |r| == |papers|
    ensures forall i :: 0 <= i < |papers| && i < |sums| ==> r[i] == WithSummary(papers[i], (sums[i], c.language))
    ensures forall i :: |sums| <= i < |papers| ==> r[i] == WithSummary(papers[i], (Fallback(papers[i], c), OriginalLanguage))
  {
    seq(|papers|, i requires 0 <= i < |papers| =>
      if i < |sums| then WithSummary(papers[i], (sums[i], c.language))
      else WithSummary(papers[i], (Fallback(papers[i], c), OriginalLanguage)))
  }

  /** `summarize_papers_batch`: an empty list is returned as it is; a failed
      call, or a reply whose cleaning raised, falls back to
      `summarize_papers`; otherwise the summaries are handed out in order. */
  function SummarizeBatch(papers: seq<Paper>, c: Config, batch: Option<string>, call: (nat, Paper) -> AIFilter.Invocation): (r: seq<Paper>)
    ensures papers == [] ==> r == []
    ensures |r| == |papers|
    ensures papers != [] && (batch.None? || ParseBatch(batch.value).None?) ==> r == SummarizePapers(papers, c, call)
    ensures papers != [] && batch.Some? && ParseBatch(batch.value).Some? ==> r == Assign(papers, ParseBatch(batch.value).value, c)
  {
    if papers == [] then papers
    else
      match batch
      case None => SummarizePapers(papers, c, call)
      case Some(out) =>
        match ParseBatch(out)
        case None => SummarizePapers(papers, c, call)
        case Some(sums) => Assign(papers, sums, c)
  }

  /** A reply with one plain summary per paper, joined with `===`, gives
      every paper its own summary under the configured language. */
  lemma BatchHandsOutInOrder(papers: seq<Paper>, c: Config, sums: seq<string>, call: (nat, Paper) -> AIFilter.Invocation)
    requires |sums| == |papers| >= 1
    requires forall k :: 0 <= k < |sums| ==> Plain(sums[k])
    ensures forall i :: 0 <= i < |papers| ==>
      SummarizeBatch(papers, c, Some(Join(BatchSeparator, sums)), call)[i] == WithSummary(papers[i], (sums[i], c.language))
  {
    ParseBatchRoundTrip(sums);
  }

  /** A reply with fewer summaries than papers leaves the rest with their
      abstract prefix, marked `original`. */
  lemma ShortBatchFallsBack(papers: seq<Paper>, c: Config, sums: seq<string>, call: (nat, Paper) -> AIFilter.Invocation)
    requires 1 <= |sums| < |papers|
    requires forall k :: 0 <= k < |sums| ==> Plain(sums[k])
    ensures SummarizeBatch(papers, c, Some(Join(BatchSeparator, sums)), call)[|papers| - 1].summaryLanguage == Some(OriginalLanguage)
  {
    ParseBatchRoundTrip(sums);
  }

  // ---------------------------------------------------------------------
  // `generate_daily_summary`.

  const NoPapers := "今日未发现相关论文。"

  function Header(total: int): string {
    "今日共发现 " + IntToString(total) + " 篇与「科研相关 AI Agent」的论文："
  }

  function PlatformLine(e: (string, nat)): string {
    "  - " + e.0 + ": " + NatToString(e.1) + " 篇"
  }

  /** The overview's lines: the header with the total, then one line per
      platform in sorted order; the counts add up to the total. */
  function OverviewLines(papers: seq<Paper>): (ls: seq<string>)
    ensures |ls| == 1 + |SortedTally(papers, PlatformOrUnknown)|
    ensures ls[0] == Header(|papers|)
    ensures forall i :: 0 <= i < |ls| - 1 ==> ls[i + 1] == PlatformLine(SortedTally(papers, PlatformOrUnknown)[i])
    ensures Total(SortedTally(papers, PlatformOrUnknown)) == |papers|
  {
    var es := SortedTally(papers, PlatformOrUnknown);
    [Header(|papers|)] + seq(|es|, i requires 0 <= i < |es| => PlatformLine(es[i]))
  }

  function DailySummary(papers: seq<Paper>): (r: string)
    ensures papers == [] ==> r == NoPapers
    ensures papers != [] ==> r == Join("\n", OverviewLines(papers))
  {
    if papers == [] then NoPapers else Join("\n", OverviewLines(papers))
  }

  /** Every platform of the day has its own line, papers without a platform
      counting as `unknown`, and the lines' counts add up to the total. */
  lemma DailySummaryPlatforms(papers: seq<Paper>, k: int)
    requires 0 <= k < |papers|
    ensures exists i ::
      (1 <= i < |OverviewLines(papers)| &&
       OverviewLines(papers)[i] == PlatformLine((PlatformOrUnknown(papers[k]), Count(papers, PlatformOrUnknown, PlatformOrUnknown(papers[k])))))
  {
    var es := SortedTally(papers, PlatformOrUnknown);
    assert Keyed(papers, PlatformOrUnknown, PlatformOrUnknown(papers[k]));
    var i :| 0 <= i < |es| && es[i].0 == PlatformOrUnknown(papers[k]);
    assert OverviewLines(papers)[i + 1] == PlatformLine(es[i]);
  }
}
