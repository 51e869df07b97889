/** `AIFilter`: a case-folded keyword prefilter, a cap on the number of
    papers, and a per-paper verdict from an external judge whose free-form
    reply is read by `ResponseParser.Parse`. The judge is a parameter: for the
    paper at position `i` of the capped list it gives the outcome of the call
    made for that paper. */
module AIFilter {
  import opened Wrappers
  import opened Text
  import opened Seqs
  import opened Papers
  import opened ResponseParser

  const DefaultMaxPapers := 30

  /** The part of the filter's state that decides its behaviour. `useClaude`
      is whether the judge's executable was found. */
  datatype Config = Config(keywords: seq<string>, maxPapers: int, useClaude: bool)

  /** The constructor: absent settings take their defaults, and the judge is
      used only when a non-empty path to it was found. */
  function MakeConfig(keywords: Option<seq<string>>, maxPapers: Option<int>, judgePath: Option<string>): (c: Config)
    ensures c.keywords == (if keywords.Some? then keywords.value else [])
    ensures c.maxPapers == (if maxPapers.Some? then maxPapers.value else 30)
    ensures c.useClaude <==> judgePath.Some? && |judgePath.value| > 0
  {
    Config(keywords.GetOr([]), maxPapers.GetOr(DefaultMaxPapers), judgePath.Some? && judgePath.value != "")
  }

  // ---------------------------------------------------------------------
  // Keyword tests.

  /** Keyword `k`, lower-cased, occurs in the lower-cased title or abstract. */
  predicate KeywordHit(p: Paper, k: string) {
    Contains(Lower(p.title), Lower(k)) || Contains(Lower(p.abstractText), Lower(k))
  }

  /** `_has_keyword`: the loop over the keywords that returns at the first hit. */
  function HasKeyword(p: Paper, keywords: seq<string>): (r: bool)
    ensures r <==> exists i :: 0 <= i < |keywords| && KeywordHit(p, keywords[i])
    ensures keywords == [] ==> !r
    decreases |keywords|
  {
    if keywords == [] then false
    else if KeywordHit(p, keywords[0]) then true
    else
      var r := HasKeyword(p, keywords[1..]);
      assert forall i :: 1 <= i < |keywords| ==> keywords[i] == keywords[1..][i - 1];
      r
  }

  /** `_filter_by_keywords`: everything when there are no keywords, else
      exactly the papers some keyword hits, in order, each occurrence once. */
  function FilterByKeywords(papers: seq<Paper>, keywords: seq<string>): (r: seq<Paper>)
    ensures keywords == [] ==> r == papers
    ensures keywords != [] ==> forall p :: p in r <==> p in papers && HasKeyword(p, keywords)
    ensures keywords != [] ==> forall p :: multiset(r)[p] == (if HasKeyword(p, keywords) then multiset(papers)[p] else 0)
    ensures IsSubsequence(r, papers)
  {
    if keywords == [] then
      SubsequenceRefl(papers);
      papers
    else Filter(papers, p => HasKeyword(p, keywords))
  }

  /** The prefiltered list cut to `max_papers` (a Python slice, so a
      negative cap drops papers from the end). */
  function Candidates(papers: seq<Paper>, c: Config): (r: seq<Paper>)
    ensures r <= FilterByKeywords(papers, c.keywords)
    ensures c.maxPapers >= 0 ==> |r| == Min(|FilterByKeywords(papers, c.keywords)|, c.maxPapers)
  {
    var pre := FilterByKeywords(papers, c.keywords);
    if |pre| > c.maxPapers then Take(pre, c.maxPapers) else pre
  }

  function Min(a: int, b: int): int {
    if a <= b then a else b
  }

  // ---------------------------------------------------------------------
  // One judgement.

  /** What happened when the judge was asked about one paper.
      `PromptFailed` is an exception while the prompt is built (formatting a
      configured prompt template), which happens before the protected call
      and so escapes `_check_relevance`. */
  datatype Invocation =
    | Completed(stdout: string)
    | NonZeroExit
    | TimedOut
    | CallRaised
    | PromptFailed

  /** The result of `_check_relevance`: a verdict, or an exception that
      escaped it. */
  datatype Check = Judged(relevant: bool) | Escaped

  /** `_check_relevance`. A reply is stripped and parsed; every failure
      caught inside, including the parser's own `IndexError`, gives the
      keyword verdict. */
  function CheckRelevance(p: Paper, keywords: seq<string>, inv: Invocation): (r: Check)
    ensures r.Escaped? <==> inv.PromptFailed?
    ensures inv.NonZeroExit? || inv.TimedOut? || inv.CallRaised? ==> r == Judged(HasKeyword(p, keywords))
    ensures inv.Completed? && Parse(Strip(inv.stdout)).Decided? ==>
      r == Judged(Parse(Strip(inv.stdout)).relevant)
    ensures inv.Completed? && Parse(Strip(inv.stdout)) == IndexErrorRaised ==>
      r == Judged(HasKeyword(p, keywords))
  {
    match inv
    case PromptFailed => Escaped
    case Completed(stdout) =>
      (match Parse(Strip(stdout))
       case Decided(b, _) => Judged(b)
       case IndexErrorRaised => Judged(HasKeyword(p, keywords)))
    case _ => Judged(HasKeyword(p, keywords))
  }

  /** Whether the loop in `filter_papers` appends the paper: on a verdict,
      the verdict; on an escaped exception, yes. */
  function Keeps(p: Paper, keywords: seq<string>, inv: Invocation): bool {
    match CheckRelevance(p, keywords, inv)
    case Judged(b) => b
    case Escaped => true
  }

  function KeepMask(cands: seq<Paper>, keywords: seq<string>, judge: (nat, Paper) -> Invocation): (m: seq<bool>)
    ensures |m| == |cands|
    ensures forall i :: 0 <= i < |cands| ==> m[i] == Keeps(cands[i], keywords, judge(i, cands[i]))
  {
    seq(|cands|, i requires 0 <= i < |cands| => Keeps(cands[i], keywords, judge(i, cands[i])))
  }

  // ---------------------------------------------------------------------
  // The whole filter.

  /** `filter_papers`. */
  function FilterPapers(papers: seq<Paper>, c: Config, judge: (nat, Paper) -> Invocation): (r: seq<Paper>)
    ensures papers == [] ==> r == []
    ensures !c.useClaude ==> r == Candidates(papers, c)
    ensures IsSubsequence(r, Candidates(papers, c))
    ensures c.useClaude ==> forall i :: 0 <= i < |Candidates(papers, c)| ==>
      (Keeps(Candidates(papers, c)[i], c.keywords, judge(i, Candidates(papers, c)[i])) ==>
       Candidates(papers, c)[i] in r)
    ensures c.useClaude ==> forall p :: p in r ==>
      exists i :: 0 <= i < |Candidates(papers, c)| && Candidates(papers, c)[i] == p &&
        Keeps(p, c.keywords, judge(i, p))
    ensures c.useClaude ==> forall i :: 0 <= i < |Candidates(papers, c)| ==>
      (CheckRelevance(Candidates(papers, c)[i], c.keywords, judge(i, Candidates(papers, c)[i])).Escaped? ==>
       Candidates(papers, c)[i] in r)
    ensures c.useClaude ==> |r| == CountKept(KeepMask(Candidates(papers, c), c.keywords, judge))
    ensures c.useClaude ==> r == Select(Candidates(papers, c), KeepMask(Candidates(papers, c), c.keywords, judge))
  {
    if papers == [] then []
    else
      var cands := Candidates(papers, c);
      if !c.useClaude then
        SubsequenceRefl(cands);
        cands
      else Select(cands, KeepMask(cands, c.keywords, judge))
  }

  /** Every paper the filter returns was in the input and passed the
      prefilter. */
  lemma ResultFromInput(papers: seq<Paper>, c: Config, judge: (nat, Paper) -> Invocation)
    ensures forall p :: p in FilterPapers(papers, c, judge) ==>
      p in papers && (c.keywords == [] || HasKeyword(p, c.keywords))
  {
    var r := FilterPapers(papers, c, judge);
    var cands := Candidates(papers, c);
    forall p | p in r ensures p in papers && (c.keywords == [] || HasKeyword(p, c.keywords)) {
      SubsequenceMember(r, cands, p);
      assert p in FilterByKeywords(papers, c.keywords);
    }
  }

  /** Only the papers in the capped list are ever judged: two judges that
      agree on those give the same result. */
  lemma OnlyCandidatesJudged(papers: seq<Paper>, c: Config, j1: (nat, Paper) -> Invocation, j2: (nat, Paper) -> Invocation)
    requires forall i :: 0 <= i < |Candidates(papers, c)| ==>
      j1(i, Candidates(papers, c)[i]) == j2(i, Candidates(papers, c)[i])
    ensures FilterPapers(papers, c, j1) == FilterPapers(papers, c, j2)
  {
    var cands := Candidates(papers, c);
    assert KeepMask(cands, c.keywords, j1) == KeepMask(cands, c.keywords, j2);
  }

  /** When every call fails in a caught way, the judge degenerates into the
      keyword test over the capped list. */
  lemma AllCallsFail(papers: seq<Paper>, c: Config, judge: (nat, Paper) -> Invocation)
    requires papers != [] && c.useClaude
    requires forall i, p :: judge(i, p).NonZeroExit? || judge(i, p).TimedOut? || judge(i, p).CallRaised?
    ensures FilterPapers(papers, c, judge) == Filter(Candidates(papers, c), p => HasKeyword(p, c.keywords))
  {
    var cands := Candidates(papers, c);
    SelectIsFilter(cands, KeepMask(cands, c.keywords, judge), p => HasKeyword(p, c.keywords));
  }

  /** ... which keeps the whole capped list when there are keywords, since
      each candidate already passed the same test, and keeps nothing when
      there are none, although the prefilter let everything through. */
  lemma AllCallsFailOutcome(papers: seq<Paper>, c: Config, judge: (nat, Paper) -> Invocation)
    requires papers != [] && c.useClaude
    requires forall i, p :: judge(i, p).NonZeroExit? || judge(i, p).TimedOut? || judge(i, p).CallRaised?
    ensures c.keywords != [] ==> FilterPapers(papers, c, judge) == Candidates(papers, c)
    ensures c.keywords == [] ==> FilterPapers(papers, c, judge) == []
  {
    var cands := Candidates(papers, c);
    var f := (p: Paper) => HasKeyword(p, c.keywords);
    AllCallsFail(papers, c, judge);
    if c.keywords != [] {
      forall i | 0 <= i < |cands| ensures f(cands[i]) {
        assert cands[i] in FilterByKeywords(papers, c.keywords);
      }
      FilterAll(cands, f);
    } else {
      FilterNone(cands, f);
    }
  }

  /** When every prompt fails to build, every exception escapes to the loop,
      which keeps the paper: the result is the capped list. */
  lemma AllPromptsFail(papers: seq<Paper>, c: Config, judge: (nat, Paper) -> Invocation)
    requires c.useClaude
    requires forall i, p :: judge(i, p).PromptFailed?
    ensures FilterPapers(papers, c, judge) == Candidates(papers, c)
  {
    if papers != [] {
      var cands := Candidates(papers, c);
      SelectAll(cands, KeepMask(cands, c.keywords, judge));
    }
  }

  /** A reply whose first line has a non-bold `Decision:` label with a
      capital D yields the keyword verdict, whatever the line says. */
  lemma CapitalLabelGivesKeywordVerdict(p: Paper, keywords: seq<string>, stdout: string)
    requires !Contains(Lower(Strip(stdout)), BoldMarker)
    requires Contains(Lower(Lines(Strip(stdout))[0]), PlainMarker)
    requires !Contains(Lines(Strip(stdout))[0], PlainMarker)
    ensures CheckRelevance(p, keywords, Completed(stdout)) == Judged(HasKeyword(p, keywords))
  {
    CapitalLabelRaises(Strip(stdout));
  }

  // ---------------------------------------------------------------------
  // The judge's instructions: the skill file without its front matter.

  const Delimiter := "---"

  /** A line that closes the front matter. */
  predicate IsDelimiter(line: string) {
    Strip(line) == Delimiter
  }

  /** The index after the first line, other than the first, that closes the
      front matter; 0 when there is none. */
  function BodyStart(lines: seq<string>): (start: nat)
    ensures start == 0 ==> forall j :: 1 <= j < |lines| ==> !IsDelimiter(lines[j])
    ensures start != 0 ==> 2 <= start <= |lines| && IsDelimiter(lines[start - 1])
    ensures start != 0 ==> forall j :: 1 <= j < start - 1 ==> !IsDelimiter(lines[j])
  {
    var k := FirstFrom(MapSeq(lines, Strip), Delimiter, 1);
    if k < 0 then 0 else k + 1
  }

  /** The skill text handed to the judge: the lines after the front matter's
      closing `---`, or the whole file when there is no such line. */
  function SkillBody(content: string): string {
    var lines := Lines(content);
    Join("\n", lines[BodyStart(lines)..])
  }

  /** Without a closing delimiter the body is the whole file. */
  lemma SkillBodyWhole(content: string)
    requires forall j :: 1 <= j < |Lines(content)| ==> !IsDelimiter(Lines(content)[j])
    ensures SkillBody(content) == content
  {
    var lines := Lines(content);
    assert lines[0..] == lines;
    JoinSplit(content, "\n");
  }

  /** With one, the file is the front matter up to its closing line, a line
      break, and the body: the body is exactly what follows. */
  lemma SkillBodyAfterFrontMatter(content: string)
    requires BodyStart(Lines(content)) != 0
    ensures var lines := Lines(content);
      var start := BodyStart(lines);
      start < |lines| ==> content == Join("\n", lines[..start]) + "\n" + SkillBody(content)
    ensures var lines := Lines(content);
      BodyStart(lines) == |lines| ==> SkillBody(content) == ""
  {
    var lines := Lines(content);
    var start := BodyStart(lines);
    if start < |lines| {
      JoinSplit(content, "\n");
      JoinAt("\n", lines, start);
    }
  }
}
