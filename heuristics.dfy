/** The heuristic detector: three deterministic scans over paragraph text
    (repeated punctuation, unbalanced brackets, whitespace between Japanese
    characters) that number their findings with one shared counter. */
module Heuristics {
  import opened JsonValues
  import opened Suggestions
  import opened Sequences

  // ---------------------------------------------------------------------
  // Character classes
  // ---------------------------------------------------------------------

  /** The class `[。、]` of rule 1. */
  predicate IsPunctuationMark(c: char) {
    c == '。' || c == '、'
  }

  /** `\s` in a Python str pattern: exactly the characters for which
      `str.isspace()` holds. */
  predicate IsSpace(c: char) {
    ('\t' <= c <= '\r') || ('\U{1C}' <= c <= '\U{1F}') || c == ' '
    || c == '\U{85}' || c == '\U{A0}' || c == '\U{1680}'
    || ('\U{2000}' <= c <= '\U{200A}') || c == '\U{2028}' || c == '\U{2029}'
    || c == '\U{202F}' || c == '\U{205F}' || c == '\U{3000}'
  }

  /** The ranges ぁ-ん, ァ-ヶ and 一-龥 shared by both classes of rule 3. */
  predicate IsJapanese(c: char) {
    ('ぁ' <= c <= 'ん') || ('ァ' <= c <= 'ヶ') || ('一' <= c <= '龥')
  }

  /** The class before the whitespace in rule 3: Japanese or closing punctuation. */
  predicate IsLeftBoundary(c: char) {
    IsJapanese(c) || c == '）' || c == '」' || c == '》' || c == '】' || c == '・'
  }

  /** The class after the whitespace in rule 3: Japanese or opening punctuation. */
  predicate IsRightBoundary(c: char) {
    IsJapanese(c) || c == '（' || c == '「' || c == '《' || c == '【' || c == '・'
  }

  /** A regex match, as `m.start()` and `m.end()` (end exclusive). */
  datatype Span = Span(start: nat, end: nat)

  /** Matches are reported left to right and never overlap. */
  predicate Ordered(spans: seq<Span>) {
    forall a, b :: 0 <= a < b < |spans| ==> spans[a].end <= spans[b].start
  }

  // ---------------------------------------------------------------------
  // Rule 1: `[。、]{2,}` with finditer
  // ---------------------------------------------------------------------

  /** The end of the run of punctuation marks that begins at j. */
  function MarkRunEnd(line: string, j: nat): (e: nat)
    requires j <= |line|
    ensures j <= e <= |line|
    ensures forall k :: j <= k < e ==> IsPunctuationMark(line[k])
    ensures e == |line| || !IsPunctuationMark(line[e])
    decreases |line| - j
  {
    if j == |line| || !IsPunctuationMark(line[j]) then j else MarkRunEnd(line, j + 1)
  }

  /** `finditer` of `[。、]{2,}` from pos: the greedy attempt at pos matches
      when it takes two marks or more; a failed attempt moves on one
      character, a match resumes the search at its end. */
  function MarkRuns(line: string, pos: nat): (r: seq<Span>)
    requires pos <= |line|
    ensures forall sp :: sp in r ==> pos <= sp.start && sp.start + 2 <= sp.end <= |line|
    decreases |line| - pos
  {
    if pos == |line| then []
    else
      var e := MarkRunEnd(line, pos);
      if e - pos >= 2 then [Span(pos, e)] + MarkRuns(line, e) else MarkRuns(line, pos + 1)
  }

  /** s..e is a maximal run of two or more punctuation marks. */
  ghost predicate IsMarkRun(line: string, s: nat, e: nat) {
    s + 2 <= e <= |line|
    && (forall k :: s <= k < e ==> IsPunctuationMark(line[k]))
    && (s == 0 || !IsPunctuationMark(line[s - 1]))
    && (e == |line| || !IsPunctuationMark(line[e]))
  }

  /** pos does not fall strictly inside a run of punctuation marks. */
  ghost predicate NotInsideMarkRun(line: string, pos: nat)
    requires pos <= |line|
  {
    pos == 0 || pos == |line| || !IsPunctuationMark(line[pos - 1]) || !IsPunctuationMark(line[pos])
  }

  /** Rule 1 reports exactly the maximal runs of two or more marks: a run
      of one mark yields nothing and a longer run is never split. */
  lemma {:induction false} MarkRunsExact(line: string, pos: nat)
    requires pos <= |line| && NotInsideMarkRun(line, pos)
    ensures forall s: nat, e: nat :: Span(s, e) in MarkRuns(line, pos) <==> pos <= s && IsMarkRun(line, s, e)
    decreases |line| - pos
  {
    if pos < |line| {
      var e := MarkRunEnd(line, pos);
      if e - pos >= 2 {
        MarkRunsExact(line, e);
        assert IsMarkRun(line, pos, e);
        forall s: nat, t: nat | pos <= s < e && IsMarkRun(line, s, t)
          ensures s == pos && t == e
        {
        }
      } else {
        MarkRunsExact(line, pos + 1);
        forall t: nat | IsMarkRun(line, pos, t)
          ensures false
        {
        }
      }
    }
  }

  /** The scan behind `patt.finditer(line)` for rule 1. */
  method FindMarkRuns(line: string) returns (spans: seq<Span>)
    ensures spans == MarkRuns(line, 0)
  {
    spans := [];
    var pos := 0;
    while pos < |line|
      invariant pos <= |line|
      invariant spans + MarkRuns(line, pos) == MarkRuns(line, 0)
      decreases |line| - pos
    {
      var e := pos;
      while e < |line| && IsPunctuationMark(line[e])
        invariant pos <= e <= |line|
        invariant MarkRunEnd(line, e) == MarkRunEnd(line, pos)
      {
        e := e + 1;
      }
      assert e == MarkRunEnd(line, pos);
      if e - pos >= 2 {
        assert MarkRuns(line, pos) == [Span(pos, e)] + MarkRuns(line, e);
        spans := spans + [Span(pos, e)];
        pos := e;
      } else {
        pos := pos + 1;
      }
    }
  }

  // ---------------------------------------------------------------------
  // Rule 3: `([L])\s+([R])` with finditer
  // ---------------------------------------------------------------------

  /** The end of the run of whitespace that begins at j. */
  function SpaceRunEnd(line: string, j: nat): (e: nat)
    requires j <= |line|
    ensures j <= e <= |line|
    decreases |line| - j
  {
    if j == |line| || !IsSpace(line[j]) then j else SpaceRunEnd(line, j + 1)
  }

  /** The run is maximal: whitespace throughout, and not followed by
      whitespace. */
  lemma {:induction false} SpaceRunEndMaximal(line: string, j: nat)
    requires j <= |line|
    ensures forall k :: j <= k < SpaceRunEnd(line, j) ==> IsSpace(line[k])
    ensures SpaceRunEnd(line, j) == |line| || !IsSpace(line[SpaceRunEnd(line, j)])
    decreases |line| - j
  {
    if j < |line| && IsSpace(line[j]) {
      SpaceRunEndMaximal(line, j + 1);
    }
  }

  /** The attempt at p succeeds: a left-boundary character, the greedy
      whitespace run after it (at least one character), then a
      right-boundary character. */
  predicate SpacingMatchAt(line: string, p: nat)
    requires p < |line|
  {
    var k := SpaceRunEnd(line, p + 1);
    IsLeftBoundary(line[p]) && k > p + 1 && k < |line| && IsRightBoundary(line[k])
  }

  /** `finditer` of the rule-3 pattern from pos: leftmost attempts, and the
      next search resumes at the end of each match. */
  function SpacingMatches(line: string, pos: nat): seq<Span>
    requires pos <= |line|
    decreases |line| - pos
  {
    if pos == |line| then []
    else if SpacingMatchAt(line, pos) then
      var e := SpaceRunEnd(line, pos + 1) + 1;
      [Span(pos, e)] + SpacingMatches(line, e)
    else
      SpacingMatches(line, pos + 1)
  }

  /** Each rule-3 match lies after the scan start, within the line, and
      spans at least three characters. */
  lemma {:induction false} SpacingMatchesBounds(line: string, pos: nat)
    requires pos <= |line|
    ensures forall sp :: sp in SpacingMatches(line, pos) ==> pos <= sp.start && sp.start + 3 <= sp.end <= |line|
    decreases |line| - pos
  {
    if pos < |line| {
      if SpacingMatchAt(line, pos) {
        SpacingMatchesBounds(line, SpaceRunEnd(line, pos + 1) + 1);
      } else {
        SpacingMatchesBounds(line, pos + 1);
      }
    }
  }

  /** The pattern read literally: p..q is a left-boundary character, one or
      more whitespace characters and a right-boundary character. */
  ghost predicate PatternMatch(line: string, p: nat, q: nat) {
    p + 3 <= q <= |line| && IsLeftBoundary(line[p]) && IsRightBoundary(line[q - 1])
    && forall k :: p < k < q - 1 ==> IsSpace(line[k])
  }

  /** No right-boundary character is whitespace, so backtracking into the
      greedy run never finds another match: the pattern matches at p with
      exactly one end, the one the greedy attempt finds. */
  lemma SpacingMatchUnique(line: string, p: nat, q: nat)
    requires p < |line|
    ensures PatternMatch(line, p, q) <==> SpacingMatchAt(line, p) && q == SpaceRunEnd(line, p + 1) + 1
  {
    var k := SpaceRunEnd(line, p + 1);
    SpaceRunEndMaximal(line, p + 1);
    if PatternMatch(line, p, q) {
      assert !IsSpace(line[q - 1]);
    }
  }

  /** The spans fall inside some reported match. */
  ghost predicate Covered(spans: seq<Span>, p: nat) {
    exists sp :: sp in spans && sp.start <= p < sp.end
  }

  /** Rule 3 reports only real matches of the pattern. */
  lemma {:induction false} SpacingMatchesSound(line: string, pos: nat)
    requires pos <= |line|
    ensures forall sp :: sp in SpacingMatches(line, pos) ==> PatternMatch(line, sp.start, sp.end)
    decreases |line| - pos
  {
    if pos < |line| {
      if SpacingMatchAt(line, pos) {
        var e := SpaceRunEnd(line, pos + 1) + 1;
        SpacingMatchesSound(line, e);
        SpacingMatchUnique(line, pos, e);
      } else {
        SpacingMatchesSound(line, pos + 1);
      }
    }
  }

  /** Every position where the pattern matches lies inside a reported
      match: it was either reported or consumed by an earlier match that
      overlaps it. */
  lemma {:induction false} SpacingMatchesComplete(line: string, pos: nat, p: nat, q: nat)
    requires pos <= p && PatternMatch(line, p, q)
    ensures Covered(SpacingMatches(line, pos), p)
    decreases |line| - pos
  {
    var r := SpacingMatches(line, pos);
    if SpacingMatchAt(line, pos) {
      var e := SpaceRunEnd(line, pos + 1) + 1;
      assert r == [Span(pos, e)] + SpacingMatches(line, e);
      if p < e {
        assert Span(pos, e) in r;
      } else {
        SpacingMatchesComplete(line, e, p, q);
        var sp :| sp in SpacingMatches(line, e) && sp.start <= p < sp.end;
        assert sp in r;
      }
    } else {
      if p == pos {
        SpacingMatchUnique(line, p, q);
        assert false;
      }
      SpacingMatchesComplete(line, pos + 1, p, q);
    }
  }

  /** One attempt of the rule-3 pattern at pos: greedy whitespace after a
      left-boundary character, then a right-boundary character. */
  method MatchSpacingAt(line: string, pos: nat) returns (matched: bool, k: nat)
    requires pos < |line|
    ensures k == SpaceRunEnd(line, pos + 1)
    ensures matched == SpacingMatchAt(line, pos)
  {
    k := pos + 1;
    while k < |line| && IsSpace(line[k])
      invariant pos + 1 <= k <= |line|
      invariant SpaceRunEnd(line, k) == SpaceRunEnd(line, pos + 1)
    {
      k := k + 1;
    }
    matched := IsLeftBoundary(line[pos]) && k > pos + 1 && k < |line| && IsRightBoundary(line[k]);
  }

  /** One step of the scan: a match at pos is reported and the scan
      resumes after it, otherwise the scan moves one character on. */
  lemma SpacingScanStep(spans: seq<Span>, line: string, pos: nat)
    requires pos < |line|
    ensures SpacingMatchAt(line, pos) ==>
              var e := SpaceRunEnd(line, pos + 1) + 1;
              pos < e <= |line| && spans + SpacingMatches(line, pos) == spans + [Span(pos, e)] + SpacingMatches(line, e)
    ensures !SpacingMatchAt(line, pos) ==> SpacingMatches(line, pos) == SpacingMatches(line, pos + 1)
  {
    if SpacingMatchAt(line, pos) {
      var e := SpaceRunEnd(line, pos + 1) + 1;
      AppendAssoc(spans, [Span(pos, e)], SpacingMatches(line, e));
    }
  }

  /** The scan behind `extra_space.finditer(line)` for rule 3. */
  method FindSpacingMatches(line: string) returns (spans: seq<Span>)
    ensures spans == SpacingMatches(line, 0)
  {
    spans := [];
    var pos := 0;
    while pos < |line|
      invariant pos <= |line|
      invariant spans + SpacingMatches(line, pos) == SpacingMatches(line, 0)
      decreases |line| - pos
    {
      var matched, k := MatchSpacingAt(line, pos);
      if matched {
        SpacingScanStep(spans, line, pos);
        spans := spans + [Span(pos, k + 1)];
        pos := k + 1;
      } else {
        SpacingScanStep(spans, line, pos);
        pos := pos + 1;
      }
    }
  }

  // ---------------------------------------------------------------------
  // Rule 2: bracket counts
  // ---------------------------------------------------------------------

  /** The four pairs, in the iteration order of the source's dict. */
  const BracketPairs: seq<(char, char)> := [('(', ')'), ('（', '）'), ('[', ']'), ('「', '」')]

  /** `line.count(c)` for a one-character c. */
  function Count(line: string, c: char): nat {
    multiset(line)[c]
  }

  // ---------------------------------------------------------------------
  // Findings and their numbering
  // ---------------------------------------------------------------------

  /** What one rule found before it is numbered: where, and what the
      suggestion is built from. */
  datatype Hit =
    | Punctuation(paragraph: nat, span: Span, mark: char)
    | Bracket(paragraph: nat, open: char, close: char, length: nat)
    | Spacing(paragraph: nat, span: Span)

  const PunctuationMessage: string := "句読点が連続しています"
  const BracketMessage: string := "括弧の数が一致しません: "
  const SpacingMessage: string := "日本語間の不自然な空白"

  /** The Suggestion each rule appends for a hit, given the identifier. */
  function ToSuggestion(h: Hit, id: string): Suggestion {
    match h
    case Punctuation(i, sp, c) =>
      Suggestion(id, "typo", "low", PunctuationMessage, PositionLocation(i, sp.start, sp.end), JStr([c]), JNull, false)
    case Bracket(i, op, cl, n) =>
      Suggestion(id, "style", "medium", BracketMessage + [op, cl], PositionLocation(i, 0, if n == 0 then 0 else n - 1), JNull, JNull, false)
    case Spacing(i, sp) =>
      Suggestion(id, "style", "low", SpacingMessage, PositionLocation(i, sp.start, sp.end), JNull, JNull, false)
  }

  /** The k-th hit (from 0) becomes the suggestion numbered k + 1. */
  function Numbered(hits: seq<Hit>): (r: seq<Suggestion>)
    ensures |r| == |hits|
  {
    seq(|hits|, k requires 0 <= k < |hits| => ToSuggestion(hits[k], HeuristicId(k + 1)))
  }

  /** sugs are the hits numbered from 1, element by element. */
  predicate NumberedAs(sugs: seq<Suggestion>, hits: seq<Hit>) {
    |sugs| == |hits| && forall k :: 0 <= k < |hits| ==> sugs[k] == ToSuggestion(hits[k], HeuristicId(k + 1))
  }

  /** Appending a hit and its suggestion with the next number keeps the
      numbering. */
  lemma NumberedAsAppend(sugs: seq<Suggestion>, hits: seq<Hit>, h: Hit)
    requires NumberedAs(sugs, hits)
    ensures NumberedAs(sugs + [ToSuggestion(h, HeuristicId(|hits| + 1))], hits + [h])
  {
  }

  lemma NumberedAsNumbered(sugs: seq<Suggestion>, hits: seq<Hit>)
    requires NumberedAs(sugs, hits)
    ensures sugs == Numbered(hits)
  {
  }

  /** Rule 1 on paragraph i. */
  function PunctuationHits(i: nat, line: string): (r: seq<Hit>)
  {
    var spans := MarkRuns(line, 0);
    seq(|spans|, k requires 0 <= k < |spans| => Punctuation(i, spans[k], line[spans[k].start]))
  }

  /** Rule 2 on paragraph i, over the first n bracket pairs. */
  function BracketHits(i: nat, line: string, n: nat): seq<Hit>
    requires n <= |BracketPairs|
  {
    if n == 0 then []
    else
      var (op, cl) := BracketPairs[n - 1];
      BracketHits(i, line, n - 1) + if Count(line, op) != Count(line, cl) then [Bracket(i, op, cl, |line|)] else []
  }

  /** Rule 3 on paragraph i. */
  function SpacingHits(i: nat, line: string): seq<Hit> {
    var spans := SpacingMatches(line, 0);
    seq(|spans|, k requires 0 <= k < |spans| => Spacing(i, spans[k]))
  }

  /** Rule 1 over the first n paragraphs, in paragraph order. */
  function RuleOneHits(lines: seq<string>, n: nat): seq<Hit>
    requires n <= |lines|
  {
    if n == 0 then [] else RuleOneHits(lines, n - 1) + PunctuationHits(n - 1, lines[n - 1])
  }

  /** Rule 2 over the first n paragraphs, in paragraph order. */
  function RuleTwoHits(lines: seq<string>, n: nat): seq<Hit>
    requires n <= |lines|
  {
    if n == 0 then [] else RuleTwoHits(lines, n - 1) + BracketHits(n - 1, lines[n - 1], |BracketPairs|)
  }

  /** Rule 3 over the first n paragraphs, in paragraph order. */
  function RuleThreeHits(lines: seq<string>, n: nat): seq<Hit>
    requires n <= |lines|
  {
    if n == 0 then [] else RuleThreeHits(lines, n - 1) + SpacingHits(n - 1, lines[n - 1])
  }

  /** Everything the detector finds: rule 1 over all paragraphs, then rule
      2, then rule 3. */
  function AllHits(lines: seq<string>): seq<Hit> {
    RuleOneHits(lines, |lines|) + RuleTwoHits(lines, |lines|) + RuleThreeHits(lines, |lines|)
  }

  /** The detector's output as a function of the paragraphs. */
  function Heuristic(lines: seq<string>): seq<Suggestion> {
    Numbered(AllHits(lines))
  }

  // ---------------------------------------------------------------------
  // heuristic_checks
  // ---------------------------------------------------------------------

  /** Rule 1 on paragraph i: its matches appended to the suggestions so
      far, numbered from the shared counter on. */
  method PunctuationLine(i: nat, line: string, before: seq<Suggestion>, sid0: nat, ghost prior: seq<Hit>)
    returns (suggestions: seq<Suggestion>, sid: nat)
    requires NumberedAs(before, prior) && sid0 == |prior| + 1
    ensures NumberedAs(suggestions, prior + PunctuationHits(i, line))
    ensures sid == |suggestions| + 1
  {
    suggestions, sid := before, sid0;
    var spans := FindMarkRuns(line);
    ghost var lineHits := PunctuationHits(i, line);
    ghost var hits := prior;
    for j := 0 to |spans|
      invariant hits == prior + lineHits[..j]
      invariant NumberedAs(suggestions, hits) && sid == |hits| + 1
    {
      var m := spans[j];
      var s := Suggestion(HeuristicId(sid), "typo", "low", PunctuationMessage,
                          PositionLocation(i, m.start, m.end), JStr([line[m.start]]), JNull, false);
      assert s == ToSuggestion(lineHits[j], HeuristicId(sid));
      NumberedAsAppend(suggestions, hits, lineHits[j]);
      assert lineHits[..j + 1] == lineHits[..j] + [lineHits[j]];
      AppendAssoc(prior, lineHits[..j], [lineHits[j]]);
      hits := hits + [lineHits[j]];
      suggestions := suggestions + [s];
      sid := sid + 1;
    }
    assert lineHits[..|spans|] == lineHits;
  }

  /** Rule 1 over every paragraph, appending to the suggestions so far
      and advancing the shared counter. */
  method PunctuationPass(lines: seq<string>, before: seq<Suggestion>, sid0: nat, ghost prior: seq<Hit>)
    returns (suggestions: seq<Suggestion>, sid: nat)
    requires NumberedAs(before, prior) && sid0 == |prior| + 1
    ensures NumberedAs(suggestions, prior + RuleOneHits(lines, |lines|))
    ensures sid == |suggestions| + 1
  {
    suggestions, sid := before, sid0;
    ghost var hits := prior;
    for i := 0 to |lines|
      invariant hits == prior + RuleOneHits(lines, i)
      invariant NumberedAs(suggestions, hits) && sid == |hits| + 1
    {
      suggestions, sid := PunctuationLine(i, lines[i], suggestions, sid, hits);
      AppendAssoc(prior, RuleOneHits(lines, i), PunctuationHits(i, lines[i]));
      hits := hits + PunctuationHits(i, lines[i]);
    }
  }

  /** Rule 2 on paragraph i, pair by pair, continuing the numbering. */
  method BracketLine(i: nat, line: string, before: seq<Suggestion>, sid0: nat, ghost prior: seq<Hit>)
    returns (suggestions: seq<Suggestion>, sid: nat)
    requires NumberedAs(before, prior) && sid0 == |prior| + 1
    ensures NumberedAs(suggestions, prior + BracketHits(i, line, |BracketPairs|))
    ensures sid == |suggestions| + 1
  {
    suggestions, sid := before, sid0;
    ghost var hits := prior;
    for p := 0 to |BracketPairs|
      invariant hits == prior + BracketHits(i, line, p)
      invariant NumberedAs(suggestions, hits) && sid == |hits| + 1
    {
      var (op, cl) := BracketPairs[p];
      var end := if |line| == 0 then 0 else |line| - 1;
      if Count(line, op) != Count(line, cl) {
        var s := Suggestion(HeuristicId(sid), "style", "medium", BracketMessage + [op, cl],
                            PositionLocation(i, 0, end), JNull, JNull, false);
        ghost var h := Bracket(i, op, cl, |line|);
        assert BracketHits(i, line, p + 1) == BracketHits(i, line, p) + [h];
        assert s == ToSuggestion(h, HeuristicId(|hits| + 1));
        NumberedAsAppend(suggestions, hits, h);
        AppendAssoc(prior, BracketHits(i, line, p), [h]);
        hits := hits + [h];
        suggestions := suggestions + [s];
        sid := sid + 1;
      } else {
        assert BracketHits(i, line, p + 1) == BracketHits(i, line, p) + [];
      }
    }
  }

  /** Rule 2 over every paragraph, continuing the numbering. */
  method BracketPass(lines: seq<string>, before: seq<Suggestion>, sid0: nat, ghost prior: seq<Hit>)
    returns (suggestions: seq<Suggestion>, sid: nat)
    requires NumberedAs(before, prior) && sid0 == |prior| + 1
    ensures NumberedAs(suggestions, prior + RuleTwoHits(lines, |lines|))
    ensures sid == |suggestions| + 1
  {
    suggestions, sid := before, sid0;
    ghost var hits := prior;
    for i := 0 to |lines|
      invariant hits == prior + RuleTwoHits(lines, i)
      invariant NumberedAs(suggestions, hits) && sid == |hits| + 1
    {
      suggestions, sid := BracketLine(i, lines[i], suggestions, sid, hits);
      AppendAssoc(prior, RuleTwoHits(lines, i), BracketHits(i, lines[i], |BracketPairs|));
      hits := hits + BracketHits(i, lines[i], |BracketPairs|);
    }
  }

  /** Rule 3 on paragraph i, continuing the numbering. */
  method SpacingLine(i: nat, line: string, before: seq<Suggestion>, sid0: nat, ghost prior: seq<Hit>)
    returns (suggestions: seq<Suggestion>, sid: nat)
    requires NumberedAs(before, prior) && sid0 == |prior| + 1
    ensures NumberedAs(suggestions, prior + SpacingHits(i, line))
    ensures sid == |suggestions| + 1
  {
    suggestions, sid := before, sid0;
    var spans := FindSpacingMatches(line);
    ghost var lineHits := SpacingHits(i, line);
    ghost var hits := prior;
    for j := 0 to |spans|
      invariant hits == prior + lineHits[..j]
      invariant NumberedAs(suggestions, hits) && sid == |hits| + 1
    {
      var m := spans[j];
      var s := Suggestion(HeuristicId(sid), "style", "low", SpacingMessage,
                          PositionLocation(i, m.start, m.end), JNull, JNull, false);
      assert s == ToSuggestion(lineHits[j], HeuristicId(sid));
      NumberedAsAppend(suggestions, hits, lineHits[j]);
      assert lineHits[..j + 1] == lineHits[..j] + [lineHits[j]];
      AppendAssoc(prior, lineHits[..j], [lineHits[j]]);
      hits := hits + [lineHits[j]];
      suggestions := suggestions + [s];
      sid := sid + 1;
    }
    assert lineHits[..|spans|] == lineHits;
  }

  /** Rule 3 over every paragraph, continuing the numbering. */
  method SpacingPass(lines: seq<string>, before: seq<Suggestion>, sid0: nat, ghost prior: seq<Hit>)
    returns (suggestions: seq<Suggestion>, sid: nat)
    requires NumberedAs(before, prior) && sid0 == |prior| + 1
    ensures NumberedAs(suggestions, prior + RuleThreeHits(lines, |lines|))
    ensures sid == |suggestions| + 1
  {
    suggestions, sid := before, sid0;
    ghost var hits := prior;
    for i := 0 to |lines|
      invariant hits == prior + RuleThreeHits(lines, i)
      invariant NumberedAs(suggestions, hits) && sid == |hits| + 1
    {
      suggestions, sid := SpacingLine(i, lines[i], suggestions, sid, hits);
      AppendAssoc(prior, RuleThreeHits(lines, i), SpacingHits(i, lines[i]));
      hits := hits + SpacingHits(i, lines[i]);
    }
  }

  /** `heuristic_checks`: the three passes in order, sharing one counter
      that starts at 1. */
  method HeuristicChecks(lines: seq<string>) returns (suggestions: seq<Suggestion>)
    ensures suggestions == Heuristic(lines)
  {
    var sid := 1;
    ghost var one, two, three := RuleOneHits(lines, |lines|), RuleTwoHits(lines, |lines|), RuleThreeHits(lines, |lines|);
    suggestions := [];
    suggestions, sid := PunctuationPass(lines, suggestions, sid, []);
    assert [] + one == one;
    suggestions, sid := BracketPass(lines, suggestions, sid, one);
    suggestions, sid := SpacingPass(lines, suggestions, sid, one + two);
    assert one + two + three == AllHits(lines);
    NumberedAsNumbered(suggestions, AllHits(lines));
  }

  // ---------------------------------------------------------------------
  // Properties of the detector
  // ---------------------------------------------------------------------

  /** What the k-th numbered suggestion takes from its hit: the number
      k + 1, the category, severity and message of the hit's rule, its
      location, and the fix (the run's first mark for rule 1, none
      otherwise). */
  lemma NumberedAt(hits: seq<Hit>, k: nat)
    requires k < |hits|
    ensures Numbered(hits)[k].id == HeuristicId(k + 1)
    ensures Numbered(hits)[k].category == if hits[k].Punctuation? then "typo" else "style"
    ensures Numbered(hits)[k].severity == if hits[k].Bracket? then "medium" else "low"
    ensures var s := Numbered(hits)[k]; var h := hits[k];
            && s.evidence == JNull && !s.autofix
            && (h.Punctuation? ==> s.message == PunctuationMessage && s.suggestedFix == JStr([h.mark])
                                   && s.location == PositionLocation(h.paragraph, h.span.start, h.span.end))
            && (h.Bracket? ==> s.message == BracketMessage + [h.open, h.close] && s.suggestedFix == JNull
                               && s.location == PositionLocation(h.paragraph, 0, if h.length == 0 then 0 else h.length - 1))
            && (h.Spacing? ==> s.message == SpacingMessage && s.suggestedFix == JNull
                               && s.location == PositionLocation(h.paragraph, h.span.start, h.span.end))
  {
    assert Numbered(hits)[k] == ToSuggestion(hits[k], HeuristicId(k + 1));
  }

  /** The k-th suggestion (from 0) carries number k + 1: one counter with
      no gaps, so no two suggestions share an identifier. */
  lemma HeuristicIds(lines: seq<string>)
    ensures forall k :: 0 <= k < |Heuristic(lines)| ==> Heuristic(lines)[k].id == HeuristicId(k + 1)
    ensures forall a, b :: 0 <= a < b < |Heuristic(lines)| ==> Heuristic(lines)[a].id != Heuristic(lines)[b].id
  {
    var hits := AllHits(lines);
    var r := Heuristic(lines);
    forall k | 0 <= k < |r|
      ensures r[k].id == HeuristicId(k + 1)
    {
      NumberedAt(hits, k);
    }
    forall a, b | 0 <= a < b < |r|
      ensures r[a].id != r[b].id
    {
      IdsDistinct(a + 1, b + 1);
    }
  }

  lemma {:induction false} RuleOneKinds(lines: seq<string>, n: nat)
    requires n <= |lines|
    ensures forall h :: h in RuleOneHits(lines, n) ==> h.Punctuation? && h.paragraph < n
  {
    if n > 0 {
      RuleOneKinds(lines, n - 1);
    }
  }

  lemma {:induction false} RuleTwoKinds(lines: seq<string>, n: nat)
    requires n <= |lines|
    ensures forall h :: h in RuleTwoHits(lines, n) ==> h.Bracket? && h.paragraph < n
  {
    if n > 0 {
      RuleTwoKinds(lines, n - 1);
      BracketHitsExact(n - 1, lines[n - 1], |BracketPairs|);
    }
  }

  lemma {:induction false} RuleThreeKinds(lines: seq<string>, n: nat)
    requires n <= |lines|
    ensures forall h :: h in RuleThreeHits(lines, n) ==> h.Spacing? && h.paragraph < n
  {
    if n > 0 {
      RuleThreeKinds(lines, n - 1);
    }
  }

  /** Emission order is rule 1, then rule 2, then rule 3: the output
      falls into three consecutive blocks, one per rule. */
  lemma HeuristicRuleOrder(lines: seq<string>)
    ensures var r := Heuristic(lines);
            var n1 := |RuleOneHits(lines, |lines|)|;
            var n2 := |RuleTwoHits(lines, |lines|)|;
            && |r| == n1 + n2 + |RuleThreeHits(lines, |lines|)|
            && (forall k :: 0 <= k < n1 ==> r[k].category == "typo" && r[k].severity == "low")
            && (forall k :: n1 <= k < n1 + n2 ==> r[k].category == "style" && r[k].severity == "medium")
            && (forall k :: n1 + n2 <= k < |r| ==> r[k].category == "style" && r[k].severity == "low")
  {
    var one, two, three := RuleOneHits(lines, |lines|), RuleTwoHits(lines, |lines|), RuleThreeHits(lines, |lines|);
    RuleOneKinds(lines, |lines|);
    RuleTwoKinds(lines, |lines|);
    RuleThreeKinds(lines, |lines|);
    var all := AllHits(lines);
    var r := Heuristic(lines);
    forall k | 0 <= k < |all|
      ensures k < |one| ==> r[k].category == "typo" && r[k].severity == "low"
      ensures |one| <= k < |one| + |two| ==> r[k].category == "style" && r[k].severity == "medium"
      ensures |one| + |two| <= k ==> r[k].category == "style" && r[k].severity == "low"
    {
      NumberedAt(all, k);
      if k < |one| {
        assert all[k] == one[k] && one[k] in one;
      } else if k < |one| + |two| {
        assert all[k] == two[k - |one|] && two[k - |one|] in two;
      } else {
        assert all[k] == three[k - |one| - |two|] && three[k - |one| - |two|] in three;
      }
    }
  }

  lemma {:induction false} MarkRunsOrdered(line: string, pos: nat)
    requires pos <= |line|
    ensures Ordered(MarkRuns(line, pos))
    decreases |line| - pos
  {
    if pos < |line| {
      var e := MarkRunEnd(line, pos);
      if e - pos >= 2 {
        MarkRunsOrdered(line, e);
        var rest := MarkRuns(line, e);
        assert forall k :: 0 <= k < |rest| ==> rest[k] in rest;
      } else {
        MarkRunsOrdered(line, pos + 1);
      }
    }
  }

  lemma {:induction false} SpacingMatchesOrdered(line: string, pos: nat)
    requires pos <= |line|
    ensures Ordered(SpacingMatches(line, pos))
    decreases |line| - pos
  {
    if pos < |line| {
      if SpacingMatchAt(line, pos) {
        var e := SpaceRunEnd(line, pos + 1) + 1;
        SpacingMatchesOrdered(line, e);
        SpacingMatchesBounds(line, e);
        var rest := SpacingMatches(line, e);
        assert forall k :: 0 <= k < |rest| ==> rest[k] in rest;
      } else {
        SpacingMatchesOrdered(line, pos + 1);
      }
    }
  }
  /** The properties finditer's result has from pos on: left to right
      without overlap, real matches only, every match position covered. */
  ghost predicate ScanResult(line: string, pos: nat, spans: seq<Span>) {
    && Ordered(spans)
    && (forall sp :: sp in spans ==> pos <= sp.start && PatternMatch(line, sp.start, sp.end))
    && (forall p, q :: pos <= p && PatternMatch(line, p, q) ==> Covered(spans, p))
  }

  /** Rule 3 is determined by those properties: a list of spans that is
      ordered, holds only real matches and covers every match is exactly
      the list the scan reports. */
  lemma {:induction false} SpacingMatchesCharacterised(line: string, pos: nat, spans: seq<Span>)
    requires pos <= |line| && ScanResult(line, pos, spans)
    ensures spans == SpacingMatches(line, pos)
    decreases |line| - pos
  {
    if pos == |line| {
      ScanEmpty(line, spans);
    } else if SpacingMatchAt(line, pos) {
      var e := SpaceRunEnd(line, pos + 1) + 1;
      SpacingMatchUnique(line, pos, e);
      ScanHead(line, pos, spans);
      ScanTail(line, pos, spans);
      SpacingMatchesCharacterised(line, e, spans[1..]);
      assert spans == [spans[0]] + spans[1..];
    } else {
      ScanSkip(line, pos, spans);
      SpacingMatchesCharacterised(line, pos + 1, spans);
    }
  }

  /** From the end of the line there is nothing left to report. */
  lemma ScanEmpty(line: string, spans: seq<Span>)
    requires ScanResult(line, |line|, spans)
    ensures spans == []
  {
    HeadIn(spans);
  }

  /** When the pattern matches at pos, the first span is that match. */
  lemma ScanHead(line: string, pos: nat, spans: seq<Span>)
    requires pos < |line| && ScanResult(line, pos, spans) && SpacingMatchAt(line, pos)
    ensures spans != [] && spans[0] == Span(pos, SpaceRunEnd(line, pos + 1) + 1)
  {
    var e := SpaceRunEnd(line, pos + 1) + 1;
    SpacingMatchUnique(line, pos, e);
    assert Covered(spans, pos);
    var sp :| sp in spans && sp.start <= pos < sp.end;
    var k :| 0 <= k < |spans| && spans[k] == sp;
    assert spans[0] in spans;
    assert pos < spans[0].end;
    assert k == 0;
    SpacingMatchUnique(line, pos, sp.end);
  }

  /** After the first match, the rest of the spans are the scan's result
      from that match's end. */
  lemma ScanTail(line: string, pos: nat, spans: seq<Span>)
    requires pos < |line| && ScanResult(line, pos, spans) && spans != []
    requires spans[0] == Span(pos, SpaceRunEnd(line, pos + 1) + 1)
    ensures SpaceRunEnd(line, pos + 1) + 1 <= |line|
    ensures ScanResult(line, SpaceRunEnd(line, pos + 1) + 1, spans[1..])
  {
    var e := SpaceRunEnd(line, pos + 1) + 1;
    assert spans[0] in spans;
    OrderedTail(spans);
    TailSound(line, spans);
    TailCovers(line, spans);
  }

  lemma OrderedTail(spans: seq<Span>)
    requires spans != [] && Ordered(spans)
    ensures Ordered(spans[1..])
    ensures forall sp :: sp in spans[1..] ==> spans[0].end <= sp.start
  {
    var tail := spans[1..];
    forall sp | sp in tail
      ensures spans[0].end <= sp.start
    {
      var k :| 0 <= k < |tail| && tail[k] == sp;
      assert spans[k + 1] == sp;
    }
  }

  lemma TailSound(line: string, spans: seq<Span>)
    requires spans != []
    requires forall sp :: sp in spans ==> PatternMatch(line, sp.start, sp.end)
    ensures forall sp :: sp in spans[1..] ==> PatternMatch(line, sp.start, sp.end)
  {
    forall sp | sp in spans[1..]
      ensures PatternMatch(line, sp.start, sp.end)
    {
      assert sp in spans;
    }
  }

  lemma TailCovers(line: string, spans: seq<Span>)
    requires spans != [] && spans[0].start <= spans[0].end
    requires forall p, q :: spans[0].start <= p && PatternMatch(line, p, q) ==> Covered(spans, p)
    ensures forall p, q :: spans[0].end <= p && PatternMatch(line, p, q) ==> Covered(spans[1..], p)
  {
    forall p, q | spans[0].end <= p && PatternMatch(line, p, q)
      ensures Covered(spans[1..], p)
    {
      assert Covered(spans, p);
      var sp :| sp in spans && sp.start <= p < sp.end;
      var k :| 0 <= k < |spans| && spans[k] == sp;
      assert k != 0;
      assert spans[1..][k - 1] == sp;
    }
  }

  /** Where the pattern does not match, no span starts. */
  lemma ScanSkip(line: string, pos: nat, spans: seq<Span>)
    requires pos < |line| && ScanResult(line, pos, spans) && !SpacingMatchAt(line, pos)
    ensures ScanResult(line, pos + 1, spans)
  {
    forall sp | sp in spans
      ensures pos + 1 <= sp.start
    {
      if sp.start == pos {
        SpacingMatchUnique(line, pos, sp.end);
        assert false;
      }
    }
  }

  /** So the scan's own result is the only one with those properties. */
  lemma SpacingMatchesScanResult(line: string)
    ensures ScanResult(line, 0, SpacingMatches(line, 0))
  {
    SpacingMatchesOrdered(line, 0);
    SpacingMatchesSound(line, 0);
    SpacingMatchesBounds(line, 0);
    forall p, q | 0 <= p && PatternMatch(line, p, q)
      ensures Covered(SpacingMatches(line, 0), p)
    {
      SpacingMatchesComplete(line, 0, p, q);
    }
  }


  /** Rule 1 reports, for every paragraph i, exactly its maximal runs of two
      or more marks, each with the run's first mark as the fix. */
  lemma {:induction false} RuleOneExact(lines: seq<string>, n: nat)
    requires n <= |lines|
    ensures forall i: nat, s: nat, e: nat, c: char ::
              Punctuation(i, Span(s, e), c) in RuleOneHits(lines, n)
              <==> i < n && IsMarkRun(lines[i], s, e) && c == lines[i][s]
  {
    if n > 0 {
      RuleOneExact(lines, n - 1);
      RuleOneKinds(lines, n - 1);
      var line := lines[n - 1];
      var spans := MarkRuns(line, 0);
      MarkRunsExact(line, 0);
      var hits := PunctuationHits(n - 1, line);
      forall i: nat, s: nat, e: nat, c: char
        ensures Punctuation(i, Span(s, e), c) in hits <==> i == n - 1 && IsMarkRun(line, s, e) && c == line[s]
      {
        if Punctuation(i, Span(s, e), c) in hits {
          var k :| 0 <= k < |hits| && hits[k] == Punctuation(i, Span(s, e), c);
          assert spans[k] in spans;
        }
        if i == n - 1 && IsMarkRun(line, s, e) && c == line[s] {
          var k :| 0 <= k < |spans| && spans[k] == Span(s, e);
          assert hits[k] == Punctuation(i, Span(s, e), c);
        }
      }
    }
  }

  /** Rule 2 on one paragraph, over the first n pairs: one hit per pair
      whose opening and closing counts differ, in pair order. */
  lemma {:induction false} BracketHitsExact(i: nat, line: string, n: nat)
    requires n <= |BracketPairs|
    ensures forall h :: h in BracketHits(i, line, n) ==> h.Bracket? && h.paragraph == i
    ensures forall op: char, cl: char, len: nat :: Bracket(i, op, cl, len) in BracketHits(i, line, n)
              <==> (op, cl) in BracketPairs[..n] && Count(line, op) != Count(line, cl) && len == |line|
    ensures forall a, b :: 0 <= a < b < |BracketHits(i, line, n)| ==>
              PairIndex(BracketHits(i, line, n)[a].open) < PairIndex(BracketHits(i, line, n)[b].open)
  {
    if n > 0 {
      BracketHitsExact(i, line, n - 1);
      assert BracketPairs[..n] == BracketPairs[..n - 1] + [BracketPairs[n - 1]];
      var prev := BracketHits(i, line, n - 1);
      assert forall h :: h in prev ==> PairIndex(h.open) < n - 1 by {
        forall h | h in prev
          ensures PairIndex(h.open) < n - 1
        {
          var k :| 0 <= k < n - 1 && BracketPairs[k] == (h.open, h.close);
        }
      }
      var cur := BracketHits(i, line, n);
      forall a, b | 0 <= a < b < |cur|
        ensures PairIndex(cur[a].open) < PairIndex(cur[b].open)
      {
        if b >= |prev| {
          assert cur[a] == prev[a] && prev[a] in prev;
        }
      }
    }
  }

  /** The position of an opening character among the four pairs. */
  function PairIndex(op: char): nat {
    if op == '(' then 0 else if op == '（' then 1 else if op == '[' then 2 else 3
  }

  /** Rule 2 reports, for every paragraph i, one hit per pair whose counts
      differ, located over the whole paragraph. */
  lemma {:induction false} RuleTwoExact(lines: seq<string>, n: nat)
    requires n <= |lines|
    ensures forall i: nat, op: char, cl: char, len: nat :: Bracket(i, op, cl, len) in RuleTwoHits(lines, n)
              <==> i < n && (op, cl) in BracketPairs && Count(lines[i], op) != Count(lines[i], cl) && len == |lines[i]|
  {
    if n > 0 {
      RuleTwoExact(lines, n - 1);
      RuleTwoKinds(lines, n - 1);
      var prev := RuleTwoHits(lines, n - 1);
      var cur := BracketHits(n - 1, lines[n - 1], |BracketPairs|);
      assert RuleTwoHits(lines, n) == prev + cur;
      BracketHitsExact(n - 1, lines[n - 1], |BracketPairs|);
      assert BracketPairs[..|BracketPairs|] == BracketPairs;
      forall i: nat, op: char, cl: char, len: nat
        ensures Bracket(i, op, cl, len) in prev + cur
                <==> i < n && (op, cl) in BracketPairs && Count(lines[i], op) != Count(lines[i], cl) && len == |lines[i]|
      {
        var h := Bracket(i, op, cl, len);
        if i == n - 1 {
          assert h !in prev;
        } else {
          assert h !in cur;
        }
      }
    }
  }

  lemma SpacingHitsSound(i: nat, line: string)
    ensures forall j: nat, sp :: Spacing(j, sp) in SpacingHits(i, line) ==> j == i && PatternMatch(line, sp.start, sp.end)
  {
    var spans := SpacingMatches(line, 0);
    var hits := SpacingHits(i, line);
    SpacingMatchesSound(line, 0);
    forall j: nat, sp | Spacing(j, sp) in hits
      ensures j == i && PatternMatch(line, sp.start, sp.end)
    {
      var k :| 0 <= k < |hits| && hits[k] == Spacing(j, sp);
      assert spans[k] in spans;
    }
  }

  /** Rule 3 reports only real matches of the pattern, each in its own
      paragraph. */
  lemma {:induction false} RuleThreeSound(lines: seq<string>, n: nat)
    requires n <= |lines|
    ensures forall i: nat, sp :: Spacing(i, sp) in RuleThreeHits(lines, n) ==> i < n && PatternMatch(lines[i], sp.start, sp.end)
  {
    if n > 0 {
      RuleThreeSound(lines, n - 1);
      SpacingHitsSound(n - 1, lines[n - 1]);
    }
  }

  /** Every position of paragraph i where the rule-3 pattern matches lies
      inside a match reported for that paragraph. */
  lemma {:induction false} RuleThreeComplete(lines: seq<string>, n: nat, i: nat, p: nat, q: nat)
    requires i < n <= |lines| && PatternMatch(lines[i], p, q)
    ensures exists sp :: Spacing(i, sp) in RuleThreeHits(lines, n) && sp.start <= p < sp.end
  {
    var all := RuleThreeHits(lines, n);
    if i == n - 1 {
      var line := lines[i];
      var spans := SpacingMatches(line, 0);
      var hits := SpacingHits(i, line);
      SpacingMatchesComplete(line, 0, p, q);
      var sp :| sp in spans && sp.start <= p < sp.end;
      var k :| 0 <= k < |spans| && spans[k] == sp;
      assert hits[k] == Spacing(i, sp);
      assert Spacing(i, sp) in all;
    } else {
      RuleThreeComplete(lines, n - 1, i, p, q);
      var sp :| Spacing(i, sp) in RuleThreeHits(lines, n - 1) && sp.start <= p < sp.end;
      assert Spacing(i, sp) in all;
    }
  }

  /** a is reported before b in reading order: an earlier paragraph; or the
      same paragraph and, for matches, earlier text, for bracket pairs, an
      earlier pair. */
  ghost predicate Precedes(a: Hit, b: Hit) {
    a.paragraph < b.paragraph
    || (a.paragraph == b.paragraph
        && ((a.Bracket? && b.Bracket? && PairIndex(a.open) < PairIndex(b.open))
            || (!a.Bracket? && !b.Bracket? && a.span.end <= b.span.start)))
  }

  ghost predicate InReadingOrder(hits: seq<Hit>) {
    forall a, b :: 0 <= a < b < |hits| ==> Precedes(hits[a], hits[b])
  }

  lemma InReadingOrderAppend(xs: seq<Hit>, ys: seq<Hit>, n: nat)
    requires InReadingOrder(xs) && InReadingOrder(ys)
    requires forall x :: x in xs ==> x.paragraph < n
    requires forall y :: y in ys ==> y.paragraph == n
    ensures InReadingOrder(xs + ys)
  {
    var zs := xs + ys;
    forall a, b | 0 <= a < b < |zs|
      ensures Precedes(zs[a], zs[b])
    {
      if a < |xs| && b >= |xs| {
        assert zs[a] == xs[a] && xs[a] in xs;
        assert zs[b] == ys[b - |xs|] && ys[b - |xs|] in ys;
      } else if a >= |xs| {
        assert zs[a] == ys[a - |xs|] && zs[b] == ys[b - |xs|];
      }
    }
  }

  /** Within rule 1, hits come in paragraph order, then in match order. */
  lemma {:induction false} RuleOneInReadingOrder(lines: seq<string>, n: nat)
    requires n <= |lines|
    ensures InReadingOrder(RuleOneHits(lines, n))
  {
    if n > 0 {
      RuleOneInReadingOrder(lines, n - 1);
      RuleOneKinds(lines, n - 1);
      var line := lines[n - 1];
      MarkRunsOrdered(line, 0);
      InReadingOrderAppend(RuleOneHits(lines, n - 1), PunctuationHits(n - 1, line), n - 1);
    }
  }

  /** Within rule 2, hits come in paragraph order, then in pair order. */
  lemma {:induction false} RuleTwoInReadingOrder(lines: seq<string>, n: nat)
    requires n <= |lines|
    ensures InReadingOrder(RuleTwoHits(lines, n))
  {
    if n > 0 {
      RuleTwoInReadingOrder(lines, n - 1);
      RuleTwoKinds(lines, n - 1);
      var line := lines[n - 1];
      var prev, cur := RuleTwoHits(lines, n - 1), BracketHits(n - 1, line, |BracketPairs|);
      assert RuleTwoHits(lines, n) == prev + cur;
      BracketHitsInReadingOrder(n - 1, line);
      InReadingOrderAppend(prev, cur, n - 1);
    }
  }

  /** Rule 2 on one paragraph reports that paragraph only, in the order of
      the pairs. */
  lemma BracketHitsInReadingOrder(i: nat, line: string)
    ensures InReadingOrder(BracketHits(i, line, |BracketPairs|))
    ensures forall h :: h in BracketHits(i, line, |BracketPairs|) ==> h.paragraph == i
  {
    BracketHitsExact(i, line, |BracketPairs|);
  }

  /** Within rule 3, hits come in paragraph order, then in match order. */
  lemma {:induction false} RuleThreeInReadingOrder(lines: seq<string>, n: nat)
    requires n <= |lines|
    ensures InReadingOrder(RuleThreeHits(lines, n))
  {
    if n > 0 {
      RuleThreeInReadingOrder(lines, n - 1);
      RuleThreeKinds(lines, n - 1);
      var line := lines[n - 1];
      SpacingMatchesOrdered(line, 0);
      InReadingOrderAppend(RuleThreeHits(lines, n - 1), SpacingHits(n - 1, line), n - 1);
    }
  }
}
