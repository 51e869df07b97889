/** The cascade in `AIFilter._check_relevance` that turns the judge's free-form
    reply into a relevance verdict. Each rule either decides or passes; the
    first rule that decides wins. The one exception the cascade can raise
    (`line.split('decision:')[1]` on a line whose `decision:` is not in lower
    case) is the explicit outcome `IndexErrorRaised`. */
module ResponseParser {
  import opened Wrappers
  import opened Text
  import opened Seqs

  /** Which rule decided; the source logs it and never branches on it. */
  datatype Rule =
    | BoldField | PlainField | FirstWordToken | LocalizedToken
    | AnalysisPattern | YesPattern | NoPattern | KeywordBalance | Unparseable

  datatype Parsed = Decided(relevant: bool, rule: Rule) | IndexErrorRaised

  const BoldMarker := "**decision**"
  const PlainMarker := "decision:"

  // ---------------------------------------------------------------------
  // Rule 1: a line carrying the bold `**Decision**` label.

  /** `line.replace('*', '').replace(':', ' ').lower().split()`. */
  function BoldTokens(line: string): seq<string> {
    Words(Lower(Replace(Replace(line, "*", ""), ":", " ")))
  }

  /** The verdict of one line for the bold rule: only a line whose lower case
      holds the bold label can decide, `yes` among its tokens before `no`. */
  function BoldLine(line: string): (r: Option<bool>)
    ensures r.Some? ==> Contains(Lower(line), BoldMarker)
    ensures r == Some(true) <==> Contains(Lower(line), BoldMarker) && "yes" in BoldTokens(line)
    ensures r == Some(false) <==>
      Contains(Lower(line), BoldMarker) && "yes" !in BoldTokens(line) && "no" in BoldTokens(line)
  {
    if !Contains(Lower(line), BoldMarker) then None
    else
      var ws := BoldTokens(line);
      if "yes" in ws then Some(true) else if "no" in ws then Some(false) else None
  }

  function BoldRule(content: string): Option<bool> {
    if Contains(Lower(content), BoldMarker) then FirstSome(Lines(content), BoldLine) else None
  }

  // ---------------------------------------------------------------------
  // Rule 2: a plain `decision:` line.

  datatype PlainStep = PlainVerdict(relevant: bool) | PlainRaise

  /** `decision_part` starts with `yes` or ``` ``yes ```. */
  predicate SaysYes(v: string) {
    StartsWith(v, "yes") || StartsWith(v, "``yes")
  }

  predicate SaysNo(v: string) {
    StartsWith(v, "no") || StartsWith(v, "``no")
  }

  /** The verdict of one line for the plain rule. The line is selected by its
      lower case but split on the literal lower-case label, so a line that
      only matches after lowering makes `[1]` raise. The value examined is
      the text between the first label and the next one, if any. */
  function PlainLine(line: string): (r: Option<PlainStep>)
    ensures r.Some? ==> Contains(Lower(line), PlainMarker)
    ensures r == Some(PlainRaise) <==> Contains(Lower(line), PlainMarker) && !Contains(line, PlainMarker)
  {
    if !Contains(Lower(line), PlainMarker) then None
    else
      var parts := Split(line, PlainMarker);
      if |parts| < 2 then Some(PlainRaise)
      else
        var v := Lower(Strip(parts[1]));
        if SaysYes(v) then Some(PlainVerdict(true))
        else if SaysNo(v) then Some(PlainVerdict(false))
        else None
  }

  function PlainRule(content: string): Option<PlainStep> {
    if Contains(Lower(content), PlainMarker) then FirstSome(Lines(content), PlainLine) else None
  }

  // ---------------------------------------------------------------------
  // Rules 3 and 4: the first word of the reply.

  const EnglishYes: seq<string> := ["yes", "yes", "yes.", "yes,"]
  const EnglishNo: seq<string> := ["no", "no.", "no,"]
  const ChineseYes: seq<string> := ["相关", "是"]
  const ChineseNo: seq<string> := ["不相关", "否", "不是"]

  /** `content.strip().split('\n')[0].split()[0].lower()`, with `''` for an
      empty reply; `None` where `split()[0]` would raise. */
  function FirstWord(content: string): Option<string> {
    var stripped := Strip(content);
    var firstLine := if stripped != "" then Lines(stripped)[0] else "";
    if firstLine == "" then Some("")
    else
      var ws := Words(firstLine);
      if ws == [] then None else Some(Lower(ws[0]))
  }

  /** The first-word rule can never raise: after `strip()` the first line
      starts with a non-space character, so it has a first word. */
  lemma FirstWordDefined(content: string)
    ensures FirstWord(content).Some?
  {
    var stripped := Strip(content);
    if stripped != "" {
      var line := Lines(stripped)[0];
      if line != "" {
        SplitFirstIsPrefix(stripped, "\n");
        assert line[0] == stripped[0];
        assert !AllSpace(line);
      }
    }
  }

  // ---------------------------------------------------------------------
  // Rules 5 and 6: literal patterns anywhere in the lower-cased reply.

  const AnalysisPatterns: seq<(string, bool)> := [
    ("scientific application: no", false),
    ("scientific application: yes", true),
    ("agent presence: no", false),
    ("not relevant", false),
    ("relevant for scientific", true)
  ]

  const YesPatterns: seq<string> := [
    "decision: yes", "decision:``yes", "\"decision\": yes", "**decision**: yes",
    ": yes (agent", ": yes (scientific"
  ]

  const NoPatterns: seq<string> := [
    "decision: no", "decision:``no", "\"decision\": no", "**decision**: no",
    ": no (not", ": no (focuses", "scientific application: no", "not a scientific",
    "no (focuses on"
  ]

  const YesIndicators: seq<string> := ["yes", "相关", "relevant", "pass"]
  const NoIndicators: seq<string> := ["not relevant", "不相关", "fail", "no"]

  /** The value of the first listed pattern that occurs in `text`. */
  function PatternVerdict(text: string, patterns: seq<(string, bool)>): Option<bool> {
    FirstSome(patterns, (pv: (string, bool)) => if Contains(text, pv.0) then Some(pv.1) else None)
  }

  /** `any(w in text for w in words)`. */
  predicate AnyIn(text: string, words: seq<string>) {
    exists k :: 0 <= k < |words| && Contains(text, words[k])
  }

  /** Patterns, then the indicator balance, then the default: what is left
      of the cascade once no line-oriented or first-word rule decided. */
  function Loose(lower: string): (r: Parsed)
    ensures r.Decided?
    ensures r.rule == Unparseable ==> !r.relevant
  {
    match PatternVerdict(lower, AnalysisPatterns)
    case Some(b) => Decided(b, AnalysisPattern)
    case None =>
      if AnyIn(lower, YesPatterns) then Decided(true, YesPattern)
      else if AnyIn(lower, NoPatterns) then Decided(false, NoPattern)
      else
        var yes := AnyIn(lower, YesIndicators);
        var no := AnyIn(lower, NoIndicators);
        if yes && !no then Decided(true, KeywordBalance)
        else if no && !yes then Decided(false, KeywordBalance)
        else Decided(false, Unparseable)
  }

  // ---------------------------------------------------------------------
  // The whole cascade.

  /** Rules 3 to 6 and the default, once the first word `w` is known. */
  function ByFirstWord(w: string, content: string): (r: Parsed)
    ensures r.Decided?
    ensures r.Decided? && r.rule == Unparseable ==> !r.relevant
  {
    if w in EnglishYes then Decided(true, FirstWordToken)
    else if w in EnglishNo then Decided(false, FirstWordToken)
    else if w in ChineseYes then Decided(true, LocalizedToken)
    else if w in ChineseNo then Decided(false, LocalizedToken)
    else Loose(Lower(content))
  }

  /** The verdict for a reply `content` (the judge's stdout, stripped). */
  function Parse(content: string): (r: Parsed)
    ensures r.Decided? && r.rule == Unparseable ==> !r.relevant
  {
    match BoldRule(content)
    case Some(b) => Decided(b, BoldField)
    case None =>
      match PlainRule(content)
      case Some(PlainRaise) => IndexErrorRaised
      case Some(PlainVerdict(b)) => Decided(b, PlainField)
      case None =>
        match FirstWord(content)
        case None => IndexErrorRaised
        case Some(w) => ByFirstWord(w, content)
  }

  // ---------------------------------------------------------------------
  // Properties of the cascade.

  /** The bold rule decides exactly when some line of the reply carries the
      bold label together with a `yes` or `no` token. The whole-reply
      guard never blocks such a line. */
  lemma BoldRuleDecidesIff(content: string)
    ensures BoldRule(content).Some? <==>
      exists k :: 0 <= k < |Lines(content)| && BoldLine(Lines(content)[k]).Some?
  {
    var ls := Lines(content);
    if k :| 0 <= k < |ls| && BoldLine(ls[k]).Some? {
      LineLabelInReply(content, k, BoldMarker);
      assert FirstSome(ls, BoldLine).Some?;
    }
  }

  /** A label found in the lower case of one line is found in the lower case
      of the whole reply. */
  lemma LineLabelInReply(content: string, k: int, marker: string)
    requires 0 <= k < |Lines(content)|
    requires Contains(Lower(Lines(content)[k]), marker)
    ensures Contains(Lower(content), marker)
  {
    var line := Lines(content)[k];
    var a := SplitPartSlice(content, "\n", k);
    ContainsLowerSlice(content, marker, a, a + |line|);
  }

  /** A first line that decides under the bold rule decides the reply,
      whatever follows it: a bold `no` on top beats a `yes` further down. */
  lemma BoldFirstLineWins(content: string)
    requires BoldLine(Lines(content)[0]).Some?
    ensures Parse(content) == Decided(BoldLine(Lines(content)[0]).value, BoldField)
  {
    var ls := Lines(content);
    LineLabelInReply(content, 0, BoldMarker);
    assert FirstSome(ls, BoldLine) == BoldLine(ls[0]);
    assert BoldRule(content) == BoldLine(ls[0]);
  }

  /** The only way the cascade raises: no bold verdict, and the first line
      the plain rule stops at holds `decision:` only once lower-cased. */
  lemma ParseRaisesIff(content: string)
    ensures Parse(content) == IndexErrorRaised <==>
      BoldRule(content).None? && PlainRule(content) == Some(PlainRaise)
  {
    FirstWordDefined(content);
    if BoldRule(content).None? {
      match PlainRule(content)
      case None =>
        var w := FirstWord(content).value;
        assert Parse(content) == ByFirstWord(w, content);
      case Some(PlainVerdict(_)) =>
      case Some(PlainRaise) =>
    }
  }

  /** A reply whose first line reads `Decision: ...` with a capital D and no
      bold label anywhere raises, so the caller falls back to the keyword
      test even when the line says YES. */
  lemma CapitalLabelRaises(content: string)
    requires !Contains(Lower(content), BoldMarker)
    requires Contains(Lower(Lines(content)[0]), PlainMarker)
    requires !Contains(Lines(content)[0], PlainMarker)
    ensures Parse(content) == IndexErrorRaised
  {
    var ls := Lines(content);
    LineLabelInReply(content, 0, PlainMarker);
    assert PlainLine(ls[0]) == Some(PlainRaise);
    assert FirstSome(ls, PlainLine) == Some(PlainRaise);
    assert BoldRule(content).None?;
    assert PlainRule(content) == Some(PlainRaise);
  }

  /** `strip()` keeps a leading word and cuts only trailing text after it. */
  lemma StripAfterWord(w: string, t: string) returns (m: int)
    requires w != [] && NoSpace(w)
    ensures 0 <= m <= |t|
    ensures Strip(w + t) == w + t[..m]
  {
    var content := w + t;
    LStripKeeps(content);
    var stripped := RStrip(content);
    RStripKeeps(content, |w|);
    m := |stripped| - |w|;
    assert stripped == content[..|w| + m];
    assert content[..|w| + m] == w + t[..m];
  }

  /** The first line of a text that starts with a space-free word `w` is `w`
      followed by a prefix of the rest. */
  lemma FirstLineAfterWord(w: string, t: string) returns (m: int)
    requires w != [] && NoSpace(w)
    ensures 0 <= m <= |t|
    ensures Lines(w + t)[0] == w + t[..m]
  {
    var s := w + t;
    var i := Find(s, "\n");
    if i >= 0 {
      SplitUnfold(s, "\n", i);
      forall j | 0 <= j < |w| ensures !OccursAt(s, "\n", j) {
        assert s[j..j + 1][0] == w[j];
        assert w[j] != '\n';
      }
      assert i >= |w|;
      m := i - |w|;
      assert s[..i] == w + t[..m];
    } else {
      m := |t|;
      assert t[..m] == t;
    }
  }

  /** The first word of a reply that begins with the word `w`. */
  lemma FirstWordOf(w: string, t: string)
    requires w != [] && NoSpace(w)
    requires t == [] || IsSpace(t[0])
    ensures FirstWord(w + t) == Some(Lower(w))
  {
    var m := StripAfterWord(w, t);
    var stripped := w + t[..m];
    var n := FirstLineAfterWord(w, t[..m]);
    var u := t[..m][..n];
    var line := w + u;
    assert u == [] || IsSpace(u[0]);
    WordLenOf(w, u);
    assert line[0] == w[0];
    assert line[..|w|] == w;
    assert Words(line)[0] == w;
  }

  /** When no labelled line decides, a reply that starts with the word `w`
      is judged by the lower case of `w` alone, then by the loose rules. */
  lemma LeadingWordDecides(w: string, t: string)
    requires w != [] && NoSpace(w)
    requires t == [] || IsSpace(t[0])
    requires BoldRule(w + t).None? && PlainRule(w + t).None?
    ensures Parse(w + t) == ByFirstWord(Lower(w), w + t)
  {
    FirstWordOf(w, t);
  }

  /** A reply that starts with one of the Chinese words for "relevant" is
      relevant, unless a labelled line decided first. */
  lemma LocalizedYes(w: string, t: string)
    requires w in ChineseYes
    requires t == [] || IsSpace(t[0])
    requires BoldRule(w + t).None? && PlainRule(w + t).None?
    ensures Parse(w + t) == Decided(true, LocalizedToken)
  {
    ChineseWordShape(w);
    LeadingWordDecides(w, t);
    ChineseYesVerdict(w, w + t);
  }

  /** A reply that starts with one of the Chinese words for "not relevant" is
      not relevant, although `不相关` contains the word for "relevant". */
  lemma LocalizedNo(w: string, t: string)
    requires w in ChineseNo
    requires t == [] || IsSpace(t[0])
    requires BoldRule(w + t).None? && PlainRule(w + t).None?
    ensures Parse(w + t) == Decided(false, LocalizedToken)
  {
    ChineseWordShape(w);
    LeadingWordDecides(w, t);
    ChineseNoVerdict(w, w + t);
  }

  lemma ChineseWordShape(w: string)
    requires w in ChineseYes || w in ChineseNo
    ensures w != [] && NoSpace(w) && Lower(w) == w
  {
    assert w == "相关" || w == "是" || w == "不相关" || w == "否" || w == "不是";
    assert forall i :: 0 <= i < |w| ==> w[i] > '\U{3000}';
    HighCharsShape(w);
  }

  /** A word of characters past the last white-space code point has no
      space and no ASCII capital. */
  lemma HighCharsShape(w: string)
    requires forall i :: 0 <= i < |w| ==> w[i] > '\U{3000}'
    ensures NoSpace(w) && Lower(w) == w
  {
    LowerNoCapitals(w);
  }

  lemma ChineseYesVerdict(w: string, content: string)
    requires w in ChineseYes
    ensures ByFirstWord(w, content) == Decided(true, LocalizedToken)
  {
    assert w == "相关" || w == "是";
  }

  lemma ChineseNoVerdict(w: string, content: string)
    requires w in ChineseNo
    ensures ByFirstWord(w, content) == Decided(false, LocalizedToken)
  {
    assert w == "不相关" || w == "否" || w == "不是";
  }

  /** An empty reply is judged not relevant by the default. */
  lemma EmptyReplyIsNo(content: string)
    requires |content| == 0
    ensures Parse(content) == Decided(false, Unparseable)
  {
    EmptyReachesLoose(content);
    LooseOfEmpty(content);
  }

  lemma EmptyReachesLoose(content: string)
    requires |content| == 0
    ensures Parse(content) == Loose(content)
  {
    assert Lower(content) == content;
    assert BoldRule(content).None? by {
      NotInEmpty(BoldMarker);
    }
    assert PlainRule(content).None? by {
      NotInEmpty(PlainMarker);
    }
    assert FirstWord(content) == Some(content) by {
      assert |Strip(content)| == 0;
    }
    assert ByFirstWord(content, content) == Loose(content) by {
      EmptyIsNoToken(content);
    }
  }

  lemma EmptyIsNoToken(w: string)
    requires |w| == 0
    ensures w !in EnglishYes && w !in EnglishNo && w !in ChineseYes && w !in ChineseNo
  {
    assert forall k :: 0 <= k < |EnglishYes| ==> |EnglishYes[k]| > 0;
    assert forall k :: 0 <= k < |EnglishNo| ==> |EnglishNo[k]| > 0;
    assert forall k :: 0 <= k < |ChineseYes| ==> |ChineseYes[k]| > 0;
    assert forall k :: 0 <= k < |ChineseNo| ==> |ChineseNo[k]| > 0;
  }

  lemma LooseOfEmpty(content: string)
    requires |content| == 0
    ensures Loose(content) == Decided(false, Unparseable)
  {
    forall k | 0 <= k < |AnalysisPatterns| ensures !Contains(content, AnalysisPatterns[k].0) {
      NotInEmpty(AnalysisPatterns[k].0);
    }
    assert PatternVerdict(content, AnalysisPatterns).None?;
    NoneInEmpty(YesPatterns);
    NoneInEmpty(NoPatterns);
    NoneInEmpty(YesIndicators);
    NoneInEmpty(NoIndicators);
  }

  lemma NoneInEmpty(words: seq<string>)
    requires forall k :: 0 <= k < |words| ==> |words[k]| > 0
    ensures forall content: string :: |content| == 0 ==> !AnyIn(content, words)
  {
    forall k | 0 <= k < |words| ensures !Contains("", words[k]) {
      NotInEmpty(words[k]);
    }
  }

  /** Without an earlier analysis pattern, `not relevant` anywhere in the
      reply makes the loose rules answer no. */
  lemma NotRelevantDecides(lower: string)
    requires Contains(lower, "not relevant")
    ensures Loose(lower).rule == AnalysisPattern
    ensures Loose(lower).relevant <==>
      !Contains(lower, "scientific application: no") && Contains(lower, "scientific application: yes")
  {
    var f := (pv: (string, bool)) => if Contains(lower, pv.0) then Some(pv.1) else None;
    assert f(AnalysisPatterns[3]) == Some(false);
    assert PatternVerdict(lower, AnalysisPatterns).Some?;
    if Contains(lower, "scientific application: no") {
      assert f(AnalysisPatterns[0]) == Some(false);
    } else if Contains(lower, "scientific application: yes") {
      assert f(AnalysisPatterns[0]).None?;
      assert f(AnalysisPatterns[1]) == Some(true);
    } else {
      assert f(AnalysisPatterns[0]).None? && f(AnalysisPatterns[1]).None?;
    }
  }

  /** A yes from the loose rules always rests on one of the affirmative
      indicator words occurring in the reply. */
  lemma LooseYesHasEvidence(lower: string)
    requires Loose(lower).relevant
    ensures AnyIn(lower, YesIndicators)
  {
    match PatternVerdict(lower, AnalysisPatterns)
    case Some(b) =>
      AnalysisYesHasEvidence(lower);
    case None =>
      if AnyIn(lower, YesPatterns) {
        var k :| 0 <= k < |YesPatterns| && Contains(lower, YesPatterns[k]);
        YesPatternHasYes(lower, k);
        assert Contains(lower, YesIndicators[0]);
      }
  }

  lemma AnalysisYesHasEvidence(lower: string)
    requires PatternVerdict(lower, AnalysisPatterns) == Some(true)
    ensures AnyIn(lower, YesIndicators)
  {
    var f := (pv: (string, bool)) => if Contains(lower, pv.0) then Some(pv.1) else None;
    var k :| 0 <= k < |AnalysisPatterns| && f(AnalysisPatterns[k]) == Some(true);
    AnalysisEntryHasEvidence(lower, k);
  }

  lemma AnalysisEntryHasEvidence(lower: string, k: int)
    requires 0 <= k < |AnalysisPatterns|
    requires AnalysisPatterns[k].1 && Contains(lower, AnalysisPatterns[k].0)
    ensures AnyIn(lower, YesIndicators)
  {
    if k == 1 {
      ContainsWithin(lower, AnalysisPatterns[k].0, "yes", 24);
      assert Contains(lower, YesIndicators[0]);
    } else {
      assert k == 4;
      ContainsWithin(lower, AnalysisPatterns[k].0, "relevant", 0);
      assert Contains(lower, YesIndicators[2]);
    }
  }

  lemma YesPatternHasYes(lower: string, k: int)
    requires 0 <= k < |YesPatterns| && Contains(lower, YesPatterns[k])
    ensures Contains(lower, "yes")
  {
    var p := YesPatterns[k];
    if k == 0 {
      assert p[10..13] == "yes";
      ContainsWithin(lower, p, "yes", 10);
    } else if k == 1 {
      assert p[11..14] == "yes";
      ContainsWithin(lower, p, "yes", 11);
    } else if k == 2 {
      assert p[12..15] == "yes";
      ContainsWithin(lower, p, "yes", 12);
    } else if k == 3 {
      assert p[14..17] == "yes";
      ContainsWithin(lower, p, "yes", 14);
    } else {
      assert p[2..5] == "yes";
      ContainsWithin(lower, p, "yes", 2);
    }
  }
}
