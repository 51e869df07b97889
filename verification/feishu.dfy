/** `FeishuFormatter`: the text of the daily briefing sent to Feishu, and the
    three fixed notifications. The date of today and the order in which a
    Python set yields the platforms of the sources line are parameters. */
module Feishu {
  import opened Wrappers
  import opened Text
  import opened Papers
  import opened Tally
  import opened Fetchers

  const TitleMark := "📅 科研早报 - "
  const Rule := "━━━━━━━━━━━━━━━━━━"
  const SourcesMark := "来源: "
  const UpdateMark := "数据更新: "
  const SummaryMark := "📝 "
  const CategoryMark := "🏷️ 分类: "
  const CategorySeparator := ", "
  const MoreCategories := " ..."
  const DefaultIcon := "📄"

  /** `max_summary_papers`, where 0, the default, means no limit. */
  datatype Config = Config(maxSummaryPapers: int)

  function MakeConfig(maxSummaryPapers: Option<int>): (c: Config)
    ensures maxSummaryPapers.Some? ==> c.maxSummaryPapers == maxSummaryPapers.value
    ensures maxSummaryPapers.None? ==> c.maxSummaryPapers == 0
  {
    Config(maxSummaryPapers.GetOr(0))
  }

  /** The briefing data: the papers and the optional `date`, `total_count`
      and `update_time` entries. */
  datatype Briefing = Briefing(
    papers: seq<Paper>,
    date: Option<string>,
    totalCount: Option<int>,
    updateTime: Option<string>)

  // ---------------------------------------------------------------------
  // Which papers are written out.

  /** More papers than the limit allows: the message ends with a count of
      the rest. */
  predicate Truncated(c: Config, papers: seq<Paper>) {
    c.maxSummaryPapers > 0 && |papers| > c.maxSummaryPapers
  }

  /** How many papers the closing count mentions. */
  function Hidden(c: Config, papers: seq<Paper>): nat {
    if Truncated(c, papers) then |papers| - c.maxSummaryPapers else 0
  }

  /** The papers written out in full: the first `max_summary_papers` of
      them, or all when the limit is not positive. Every paper is either
      written out or counted at the end, never both. */
  function Shown(c: Config, papers: seq<Paper>): (r: seq<Paper>)
    ensures r <= papers
    ensures |r| + Hidden(c, papers) == |papers|
    ensures !Truncated(c, papers) ==> r == papers
    ensures Truncated(c, papers) ==> |r| == c.maxSummaryPapers
  {
    if c.maxSummaryPapers > 0 then Take(papers, c.maxSummaryPapers) else papers
  }

  function Trailer(hidden: int): string {
    "\n... 还有 " + IntToString(hidden) + " 篇论文"
  }

  // ---------------------------------------------------------------------
  // `_format_overview`.

  function OverviewHeader(total: int): string {
    "📊 今日共发现 " + IntToString(total) + " 篇与「科研相关 AI Agent」的论文："
  }

  function CountLine(e: (string, nat)): string {
    "  • " + e.0 + ": " + NatToString(e.1) + " 篇"
  }

  /** The overview's lines: the header with the given total, then one line
      per platform, papers without one counting as `unknown`, in sorted
      order of the platform names. */
  function OverviewLines(papers: seq<Paper>, total: int): (ls: seq<string>)
    ensures |ls| == 1 + |SortedTally(papers, PlatformOrUnknown)|
    ensures ls[0] == OverviewHeader(total)
    ensures forall i :: 0 < i < |ls| ==> ls[i] == CountLine(SortedTally(papers, PlatformOrUnknown)[i - 1])
  {
    var es := SortedTally(papers, PlatformOrUnknown);
    [OverviewHeader(total)] + seq(|es|, i requires 0 <= i < |es| => CountLine(es[i]))
  }

  function Overview(papers: seq<Paper>, total: int): string {
    Join("\n", OverviewLines(papers, total))
  }

  /** Every platform of the list has its line with its count, and the
      listed counts add up to the number of papers, whatever total the
      header shows. */
  lemma OverviewPlatforms(papers: seq<Paper>, total: int, k: int)
    requires 0 <= k < |papers|
    ensures Contains(Overview(papers, total),
      CountLine((PlatformOrUnknown(papers[k]), Count(papers, PlatformOrUnknown, PlatformOrUnknown(papers[k])))))
    ensures Total(SortedTally(papers, PlatformOrUnknown)) == |papers|
  {
    var es := SortedTally(papers, PlatformOrUnknown);
    var ls := OverviewLines(papers, total);
    assert Keyed(papers, PlatformOrUnknown, PlatformOrUnknown(papers[k]));
    var i :| 0 <= i < |es| && es[i].0 == PlatformOrUnknown(papers[k]);
    assert ls[i + 1] == CountLine(es[i]);
    JoinContainsPart("\n", ls, i + 1);
  }

  // ---------------------------------------------------------------------
  // `_format_paper`.

  /** The platform icon; any other platform, or none, gets the default. */
  function Icon(platform: string): (r: string)
    ensures |r| == 1
    ensures r == DefaultIcon <==> platform != "arxiv" && platform != "biorxiv" && platform != "medrxiv" && platform != "ssrn"
  {
    if platform == "arxiv" then "📜"
    else if platform == "biorxiv" then "🧬"
    else if platform == "medrxiv" then "🏥"
    else if platform == "ssrn" then "📊"
    else DefaultIcon
  }

  /** The category text: the first three, comma-separated, and ` ...` when
      there are more. */
  function CategoriesText(cs: seq<string>): (r: string)
    ensures forall k :: 0 <= k < |cs| && k < 3 ==> Contains(r, cs[k])
    ensures |cs| > 3 ==> EndsWith(r, MoreCategories)
    ensures |cs| <= 3 ==> r == Join(CategorySeparator, cs)
    ensures |cs| > 3 ==> r == Join(CategorySeparator, cs[..3]) + MoreCategories
  {
    var first := Take(cs, 3);
    forall k | 0 <= k < |cs| && k < 3
      ensures Contains(Join(CategorySeparator, first), cs[k])
    {
      assert first[k] == cs[k];
      JoinContainsPart(CategorySeparator, first, k);
    }
    var shown := Join(CategorySeparator, first);
    if |cs| > 3 then
      assert forall k :: 0 <= k < 3 ==> Contains(shown + MoreCategories, cs[k]) by {
        forall k | 0 <= k < 3
          ensures Contains(shown + MoreCategories, cs[k])
        {
          assert (shown + MoreCategories)[..|shown|] == shown;
          ContainsSlice(shown + MoreCategories, cs[k], 0, |shown|);
        }
      }
      shown + MoreCategories
    else shown
  }

  /** Up to three categories without a comma read back from their text. */
  lemma CategoriesRoundTrip(cs: seq<string>)
    requires 1 <= |cs| <= 3
    requires forall k :: 0 <= k < |cs| ==> !HasChar(cs[k], ',')
    ensures Split(CategoriesText(cs), CategorySeparator) == cs
  {
    SplitJoinFree(CategorySeparator, cs);
  }

  /** The paper's first line: icon, number and title. */
  function Head(index: int, p: Paper): string {
    Icon(p.platform.GetOr("")) + " 【" + IntToString(index) + "】" + p.title
  }

  function SummaryLine(p: Paper): string
    requires p.summary.Some?
  {
    SummaryMark + p.summary.value
  }

  function CategoryLine(p: Paper): string {
    CategoryMark + CategoriesText(p.categories)
  }

  /** The pieces `_format_paper` joins with newlines. */
  function PaperParts(index: int, p: Paper): seq<string> {
    [Head(index, p)]
      + (if Truthy(p.summary) then ["\n" + SummaryLine(p)] else [])
      + (if p.categories != [] then ["\n" + CategoryLine(p)] else [])
  }

  /** `_format_paper`: the head first, and the summary and the category
      lines when they are there. */
  function FormatPaper(index: int, p: Paper): (r: string)
    ensures StartsWith(r, Head(index, p))
    ensures Truthy(p.summary) ==> Contains(r, SummaryLine(p))
    ensures p.categories != [] ==> Contains(r, CategoryLine(p))
  {
    var r := Join("\n", PaperParts(index, p));
    var ls := PaperLines(index, p);
    PartsAsLines(index, p);
    JoinStartsWith("\n", ls);
    assert Truthy(p.summary) ==> Contains(r, SummaryLine(p)) by {
      if Truthy(p.summary) {
        JoinContainsPart("\n", ls, 2);
      }
    }
    assert p.categories != [] ==> Contains(r, CategoryLine(p)) by {
      if p.categories != [] {
        JoinContainsPart("\n", ls, |ls| - 1);
      }
    }
    r
  }

  /** The paper's lines: the head, then a blank line and the summary when
      it is truthy, then a blank line and the categories when there are
      any. */
  function PaperLines(index: int, p: Paper): (ls: seq<string>)
    ensures |ls| == 1 + (if Truthy(p.summary) then 2 else 0) + (if p.categories != [] then 2 else 0)
    ensures ls[0] == Head(index, p)
  {
    [Head(index, p)]
      + (if Truthy(p.summary) then ["", SummaryLine(p)] else [])
      + (if p.categories != [] then ["", CategoryLine(p)] else [])
  }

  /** A piece that starts with the separator joins like an empty piece
      followed by the rest of it. */
  lemma JoinNewlinePiece(x: string, y: string, rest: seq<string>)
    ensures Join("\n", [x, "\n" + y] + rest) == Join("\n", [x, "", y] + rest)
  {
    var nl := "\n";
    assert [x, nl + y] + rest == [x] + ([nl + y] + rest);
    assert [x, "", y] + rest == [x] + ([""] + ([y] + rest));
    JoinCons(nl, x, [nl + y] + rest);
    JoinCons(nl, x, [""] + ([y] + rest));
    JoinCons(nl, "", [y] + rest);
    if rest == [] {
      assert [nl + y] + rest == [nl + y];
      assert [y] + rest == [y];
    } else {
      JoinCons(nl, nl + y, rest);
      JoinCons(nl, y, rest);
    }
  }

  /** The pieces of a paper, joined, are its lines joined. */
  lemma PartsAsLines(index: int, p: Paper)
    ensures Join("\n", PaperParts(index, p)) == Join("\n", PaperLines(index, p))
  {
    if Truthy(p.summary) && p.categories != [] {
      PartsAsLinesBoth(index, p);
    } else if Truthy(p.summary) {
      JoinNewlinePiece(Head(index, p), SummaryLine(p), []);
      assert PaperParts(index, p) == [Head(index, p), "\n" + SummaryLine(p)] + [];
      assert PaperLines(index, p) == [Head(index, p), "", SummaryLine(p)] + [];
    } else if p.categories != [] {
      JoinNewlinePiece(Head(index, p), CategoryLine(p), []);
      assert PaperParts(index, p) == [Head(index, p), "\n" + CategoryLine(p)] + [];
      assert PaperLines(index, p) == [Head(index, p), "", CategoryLine(p)] + [];
    }
  }

  /** The case with both a summary and categories. */
  lemma PartsAsLinesBoth(index: int, p: Paper)
    requires Truthy(p.summary) && p.categories != []
    ensures Join("\n", PaperParts(index, p)) == Join("\n", PaperLines(index, p))
  {
    var h, s, t := Head(index, p), SummaryLine(p), CategoryLine(p);
    assert PaperParts(index, p) == [h, "\n" + s, "\n" + t];
    assert PaperLines(index, p) == [h, "", s, "", t];
    JoinTwoNewlinePieces(h, s, t);
  }

  /** Two pieces that start with the separator join like empty pieces in
      front of their rests. */
  lemma JoinTwoNewlinePieces(h: string, s: string, t: string)
    ensures Join("\n", [h, "\n" + s, "\n" + t]) == Join("\n", [h, "", s, "", t])
  {
    var nl := "\n";
    JoinCons(nl, h, [nl + s, nl + t]);
    JoinCons(nl, nl + s, [nl + t]);
    assert Join(nl, [h, nl + s, nl + t]) == h + nl + ((nl + s) + nl + (nl + t));
    JoinCons(nl, h, ["", s, "", t]);
    JoinCons(nl, "", [s, "", t]);
    JoinCons(nl, s, ["", t]);
    JoinCons(nl, "", [t]);
    assert Join(nl, [h, "", s, "", t]) == h + nl + ("" + nl + (s + nl + ("" + nl + t)));
  }

  /** No newline in `s`. */
  predicate OneLine(s: string) {
    !HasChar(s, '\n')
  }

  lemma MarksOneLine()
    ensures OneLine(SummaryMark) && OneLine(CategoryMark)
    ensures OneLine(CategorySeparator) && OneLine(MoreCategories)
    ensures OneLine(" 【") && OneLine("】")
  {
  }

  lemma HeadOneLine(index: int, p: Paper)
    requires OneLine(p.title)
    ensures OneLine(Head(index, p))
  {
    var icon := Icon(p.platform.GetOr(""));
    var n := IntToString(index);
    assert OneLine(icon);
    assert OneLine(n);
    MarksOneLine();
    HasCharConcat(icon, " 【", '\n');
    HasCharConcat(icon + " 【", n, '\n');
    HasCharConcat(icon + " 【" + n, "】", '\n');
    HasCharConcat(icon + " 【" + n + "】", p.title, '\n');
  }

  lemma CategoryOneLine(p: Paper)
    requires forall k :: 0 <= k < |p.categories| ==> OneLine(p.categories[k])
    ensures OneLine(CategoryLine(p))
  {
    var first := Take(p.categories, 3);
    MarksOneLine();
    JoinWithoutChar(CategorySeparator, first, '\n');
    var shown := Join(CategorySeparator, first);
    HasCharConcat(shown, MoreCategories, '\n');
    HasCharConcat(CategoryMark, CategoriesText(p.categories), '\n');
  }

  /** A paper whose title, summary and categories are single lines splits
      back into its lines: the head, and each present part after a blank
      line. */
  lemma PaperRoundTrip(index: int, p: Paper)
    requires OneLine(p.title)
    requires p.summary.Some? ==> OneLine(p.summary.value)
    requires forall k :: 0 <= k < |p.categories| ==> OneLine(p.categories[k])
    ensures Lines(FormatPaper(index, p)) == PaperLines(index, p)
  {
    var ls := PaperLines(index, p);
    PartsAsLines(index, p);
    HeadOneLine(index, p);
    MarksOneLine();
    if Truthy(p.summary) {
      HasCharConcat(SummaryMark, p.summary.value, '\n');
    }
    if p.categories != [] {
      CategoryOneLine(p);
    }
    assert forall k :: 0 <= k < |ls| ==> OneLine(ls[k]);
    SplitJoinFree("\n", ls);
  }

  // ---------------------------------------------------------------------
  // `format_briefing`.

  /** The platform the sources line names: `''` for a paper without one. */
  function PlatformOrEmpty(p: Paper): string {
    p.platform.GetOr("")
  }

  /** An order the set of platform names can come out in: each name
      once. */
  ghost predicate SourceOrder(papers: seq<Paper>, sources: seq<string>) {
    Distinct(sources) && forall k :: k in sources <==> Keyed(papers, PlatformOrEmpty, k)
  }

  /** The shown papers, numbered from 1. */
  function Numbered(shown: seq<Paper>): (r: seq<string>)
    ensures |r| == |shown|
    ensures forall i :: 0 <= i < |shown| ==> r[i] == FormatPaper(i + 1, shown[i])
  {
    seq(|shown|, i requires 0 <= i < |shown| => FormatPaper(i + 1, shown[i]))
  }

  function TitleLine(b: Briefing, today: string): string {
    TitleMark + b.date.GetOr(today)
  }

  function SourcesLine(sources: seq<string>): string {
    SourcesMark + Join(CategorySeparator, sources)
  }

  function UpdateLine(b: Briefing): string {
    UpdateMark + b.updateTime.GetOr("")
  }

  /** Four lists laid end to end, each piece at its offset. */
  function Concat4<T>(w: seq<T>, x: seq<T>, y: seq<T>, z: seq<T>): (r: seq<T>)
    ensures |r| == |w| + |x| + |y| + |z|
    ensures forall i :: 0 <= i < |w| ==> r[i] == w[i]
    ensures forall i :: 0 <= i < |x| ==> r[|w| + i] == x[i]
    ensures forall i :: 0 <= i < |y| ==> r[|w| + |x| + i] == y[i]
    ensures forall i :: 0 <= i < |z| ==> r[|w| + |x| + |y| + i] == z[i]
  {
    w + x + y + z
  }

  function Opening(b: Briefing, today: string): (r: seq<string>)
    ensures |r| == 4 && r[0] == TitleLine(b, today) && r[2] == Overview(b.papers, b.totalCount.GetOr(|b.papers|))
  {
    [TitleLine(b, today), "", Overview(b.papers, b.totalCount.GetOr(|b.papers|)), ""]
  }

  function Closing(b: Briefing, sources: seq<string>): (r: seq<string>)
    ensures |r| == 4 && r[2] == SourcesLine(sources) && r[3] == UpdateLine(b)
  {
    ["", Rule, SourcesLine(sources), UpdateLine(b)]
  }

  function More(c: Config, papers: seq<Paper>): (r: seq<string>)
    ensures |r| == if Truncated(c, papers) then 1 else 0
    ensures Truncated(c, papers) ==> r[0] == Trailer(Hidden(c, papers))
  {
    if Truncated(c, papers) then [Trailer(Hidden(c, papers))] else []
  }

  /** The message's pieces: title, overview, the shown papers numbered
      from 1, the count of the rest exactly when the list was cut, and the
      closing lines. */
  function MessageParts(c: Config, b: Briefing, today: string, sources: seq<string>): (parts: seq<string>)
    ensures |parts| == 8 + |Shown(c, b.papers)| + (if Truncated(c, b.papers) then 1 else 0)
    ensures parts[0] == TitleLine(b, today)
    ensures parts[2] == Overview(b.papers, b.totalCount.GetOr(|b.papers|))
    ensures forall i :: 0 <= i < |Shown(c, b.papers)| ==> parts[4 + i] == FormatPaper(i + 1, b.papers[i])
    ensures Truncated(c, b.papers) ==> parts[4 + |Shown(c, b.papers)|] == Trailer(Hidden(c, b.papers))
    ensures parts[|parts| - 2] == SourcesLine(sources)
    ensures parts[|parts| - 1] == UpdateLine(b)
  {
    var shown := Shown(c, b.papers);
    var opening := Opening(b, today);
    var entries := Numbered(shown);
    var more := More(c, b.papers);
    var closing := Closing(b, sources);
    var parts := Concat4(opening, entries, more, closing);
    assert parts[0] == opening[0] && parts[2] == opening[2];
    forall i | 0 <= i < |shown|
      ensures parts[4 + i] == FormatPaper(i + 1, b.papers[i])
    {
      assert parts[|opening| + i] == entries[i];
    }
    assert Truncated(c, b.papers) ==> parts[4 + |shown|] == more[0] by {
      if Truncated(c, b.papers) {
        assert parts[|opening| + |entries| + 0] == more[0];
      }
    }
    assert parts[|opening| + |entries| + |more| + 2] == closing[2];
    assert parts[|opening| + |entries| + |more| + 3] == closing[3];
    parts
  }

  /** The joined message holds the title, the overview, every shown paper
      and the closing count. */
  lemma BriefingPapers(c: Config, b: Briefing, today: string, sources: seq<string>)
    ensures StartsWith(Join("\n", MessageParts(c, b, today, sources)), TitleLine(b, today))
    ensures Contains(Join("\n", MessageParts(c, b, today, sources)), Overview(b.papers, b.totalCount.GetOr(|b.papers|)))
    ensures forall i :: 0 <= i < |Shown(c, b.papers)| ==>
      Contains(Join("\n", MessageParts(c, b, today, sources)), FormatPaper(i + 1, b.papers[i]))
    ensures Truncated(c, b.papers) ==> Contains(Join("\n", MessageParts(c, b, today, sources)), Trailer(Hidden(c, b.papers)))
  {
    var parts := MessageParts(c, b, today, sources);
    JoinStartsWith("\n", parts);
    JoinContainsPart("\n", parts, 2);
    forall i | 0 <= i < |Shown(c, b.papers)|
      ensures Contains(Join("\n", parts), FormatPaper(i + 1, b.papers[i]))
    {
      BriefingPaper(c, b, today, sources, i);
    }
    if Truncated(c, b.papers) {
      JoinContainsPart("\n", parts, 4 + |Shown(c, b.papers)|);
    }
  }

  /** The joined message holds the `i`-th shown paper, numbered `i + 1`. */
  lemma BriefingPaper(c: Config, b: Briefing, today: string, sources: seq<string>, i: nat)
    requires i < |Shown(c, b.papers)|
    ensures Contains(Join("\n", MessageParts(c, b, today, sources)), FormatPaper(i + 1, b.papers[i]))
  {
    var parts := MessageParts(c, b, today, sources);
    JoinContainsEqual("\n", parts, 4 + i, FormatPaper(i + 1, b.papers[i]));
  }

  /** The joined message names every platform a paper came from. */
  lemma BriefingSources(c: Config, b: Briefing, today: string, sources: seq<string>)
    requires SourceOrder(b.papers, sources)
    ensures forall k :: Keyed(b.papers, PlatformOrEmpty, k) ==> Contains(Join("\n", MessageParts(c, b, today, sources)), k)
  {
    var parts := MessageParts(c, b, today, sources);
    JoinContainsPart("\n", parts, |parts| - 2);
    forall k | Keyed(b.papers, PlatformOrEmpty, k)
      ensures Contains(Join("\n", parts), k)
    {
      SourceListed(b.papers, sources, k);
      ContainsTransitive(Join("\n", parts), parts[|parts| - 2], k);
    }
  }

  /** `format_briefing`. */
  function FormatBriefing(c: Config, b: Briefing, today: string, sources: seq<string>): (r: string)
    requires SourceOrder(b.papers, sources)
    ensures StartsWith(r, TitleLine(b, today))
    ensures Contains(r, Overview(b.papers, b.totalCount.GetOr(|b.papers|)))
    ensures forall i :: 0 <= i < |Shown(c, b.papers)| ==> Contains(r, FormatPaper(i + 1, b.papers[i]))
    ensures Truncated(c, b.papers) ==> Contains(r, Trailer(Hidden(c, b.papers)))
    ensures forall k :: Keyed(b.papers, PlatformOrEmpty, k) ==> Contains(r, k)
  {
    BriefingPapers(c, b, today, sources);
    BriefingSources(c, b, today, sources);
    Join("\n", MessageParts(c, b, today, sources))
  }

  /** Every platform of the day is named on the sources line. */
  lemma SourceListed(papers: seq<Paper>, sources: seq<string>, k: string)
    requires SourceOrder(papers, sources)
    requires Keyed(papers, PlatformOrEmpty, k)
    ensures Contains(SourcesMark + Join(CategorySeparator, sources), k)
  {
    var i :| 0 <= i < |sources| && sources[i] == k;
    var names := Join(CategorySeparator, sources);
    var line := SourcesMark + names;
    JoinContainsPart(CategorySeparator, sources, i);
    assert line[|SourcesMark|..|line|] == names;
    ContainsSlice(line, k, |SourcesMark|, |line|);
  }

  // ---------------------------------------------------------------------
  // The fixed notifications.

  const ErrorTitle := "⚠️ 早报生成失败"
  const DateMark := "日期: "
  const ErrorMark := "错误: "
  const CheckLogs := "请检查日志获取更多信息。"
  const SuccessTitle := "✅ 早报已生成"
  const CountMark := "论文数量: "
  const Sent := "已发送到飞书。"

  function ErrorLines(message: string, date: string): seq<string> {
    [ErrorTitle, "", DateMark + date, ErrorMark + message, "", CheckLogs]
  }

  /** `format_error_notification`: names the date and the error. */
  function ErrorNotification(message: string, date: string): (r: string)
    ensures Contains(r, DateMark + date) && Contains(r, ErrorMark + message)
  {
    var ls := ErrorLines(message, date);
    JoinContainsPart("\n", ls, 2);
    JoinContainsPart("\n", ls, 3);
    Join("\n", ls)
  }

  /** A one-line error and date come back as the notification's third and
      fourth lines. */
  lemma ErrorNotificationLines(message: string, date: string)
    requires OneLine(message) && OneLine(date)
    ensures Lines(ErrorNotification(message, date)) == ErrorLines(message, date)
  {
    var ls := ErrorLines(message, date);
    assert OneLine(ErrorTitle) && OneLine(CheckLogs) && OneLine(DateMark) && OneLine(ErrorMark);
    HasCharConcat(DateMark, date, '\n');
    HasCharConcat(ErrorMark, message, '\n');
    assert forall k :: 0 <= k < |ls| ==> OneLine(ls[k]);
    SplitJoinFree("\n", ls);
  }

  function SuccessLines(date: string, count: int): seq<string> {
    [SuccessTitle, "", DateMark + date, CountMark + IntToString(count) + " 篇", "", Sent]
  }

  /** `format_success_notification`: names the date and the paper count. */
  function SuccessNotification(date: string, count: int): (r: string)
    ensures Contains(r, DateMark + date) && Contains(r, CountMark + IntToString(count) + " 篇")
  {
    var ls := SuccessLines(date, count);
    JoinContainsPart("\n", ls, 2);
    JoinContainsPart("\n", ls, 3);
    Join("\n", ls)
  }

  lemma SuccessNotificationLines(date: string, count: int)
    requires OneLine(date)
    ensures Lines(SuccessNotification(date, count)) == SuccessLines(date, count)
  {
    var ls := SuccessLines(date, count);
    var n := IntToString(count);
    assert OneLine(SuccessTitle) && OneLine(Sent) && OneLine(DateMark) && OneLine(CountMark) && OneLine(" 篇");
    assert OneLine(n);
    HasCharConcat(DateMark, date, '\n');
    HasCharConcat(CountMark, n, '\n');
    HasCharConcat(CountMark + n, " 篇", '\n');
    assert forall k :: 0 <= k < |ls| ==> OneLine(ls[k]);
    SplitJoinFree("\n", ls);
  }
}
