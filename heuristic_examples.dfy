/** The detector on the sample paragraphs its documentation discusses. */
module HeuristicExamples {
  import opened Decimal
  import opened Suggestions
  import opened Heuristics

  /** Identifiers are zero-padded to four digits. */
  lemma IdFormat()
    ensures HeuristicId(1) == "H-0001"
    ensures FallbackId(7) == "L-0007"
  {
    assert Digits(1) == "1";
    assert Digits(7) == "7";
  }

  /** Past four digits the number is written in full. */
  lemma LongIdFormat()
    ensures HeuristicId(12345) == "H-12345"
  {
    assert Digits(12) == "12";
    assert Digits(123) == Digits(12) + "3";
    assert Digits(1234) == Digits(123) + "4";
    assert Digits(12345) == Digits(1234) + "5";
  }

  /** A run of three full stops yields one finding over [3, 6) whose fix
      is a single full stop. */
  lemma RepeatedStopExample()
    ensures PunctuationHits(0, "これは。。。テスト") == [Punctuation(0, Span(3, 6), '。')]
    ensures ToSuggestion(Punctuation(0, Span(3, 6), '。'), HeuristicId(1)).suggestedFix == JsonValues.JStr("。")
  {
    assert MarkRuns("これは。。。テスト", 0) == [Span(3, 6)];
  }

  predicate NotOtherBracket(c: char) {
    c != '（' && c != '）' && c != '[' && c != ']' && c != '「' && c != '」'
  }

  /** In a paragraph whose only brackets are ASCII parentheses, rule 2
      depends on those alone. */
  lemma OnlyRoundBrackets(i: nat, line: string)
    requires forall k :: 0 <= k < |line| ==> NotOtherBracket(line[k])
    ensures BracketHits(i, line, |BracketPairs|)
            == if Count(line, '(') != Count(line, ')') then [Bracket(i, '(', ')', |line|)] else []
  {
    forall c | !NotOtherBracket(c)
      ensures Count(line, c) == 0
    {
      assert c !in line;
      assert c !in multiset(line);
    }
    assert BracketHits(i, line, 2) == BracketHits(i, line, 1);
    assert BracketHits(i, line, 3) == BracketHits(i, line, 1);
    assert BracketHits(i, line, 4) == BracketHits(i, line, 1);
  }

  lemma UnclosedOpenCount()
    ensures Count("これは(テストです", '(') == 1
  {
  }

  lemma UnclosedCloseCount()
    ensures Count("これは(テストです", ')') == 0
  {
  }

  lemma ClosedOpenCount()
    ensures Count("これは(テスト)です", '(') == 1
  {
  }

  lemma ClosedCloseCount()
    ensures Count("これは(テスト)です", ')') == 1
  {
  }

  /** An unclosed parenthesis yields one finding. */
  lemma UnclosedExample()
    ensures BracketHits(0, "これは(テストです", |BracketPairs|) == [Bracket(0, '(', ')', 9)]
  {
    OnlyRoundBrackets(0, "これは(テストです");
    UnclosedOpenCount();
    UnclosedCloseCount();
  }

  /** Balanced counts yield nothing. */
  lemma ClosedExample()
    ensures BracketHits(0, "これは(テスト)です", |BracketPairs|) == []
  {
    OnlyRoundBrackets(0, "これは(テスト)です");
    ClosedOpenCount();
    ClosedCloseCount();
  }

  /** One space between Japanese words is one finding. */
  lemma SpacingExample()
    ensures SpacingMatches("日本語 言葉", 0) == [Span(2, 5)]
  {
    var l := "日本語 言葉";
    assert SpaceRunEnd(l, 6) == 6;
    assert SpacingMatches(l, 5) == [];
    assert SpaceRunEnd(l, 3) == 4;
    assert SpacingMatchAt(l, 2);
    assert SpacingMatches(l, 2) == [Span(2, 5)];
    assert SpaceRunEnd(l, 2) == 2;
    assert SpacingMatches(l, 1) == [Span(2, 5)];
    assert SpaceRunEnd(l, 1) == 1;
  }

  /** The character after the first space is consumed by the first match,
      so the second space is not reported. */
  lemma OverlapExample()
    ensures SpacingMatches("日 本 語", 0) == [Span(0, 3)]
  {
    var l := "日 本 語";
    assert SpaceRunEnd(l, 5) == 5;
    assert SpacingMatches(l, 4) == [];
    assert SpaceRunEnd(l, 4) == 4;
    assert SpacingMatches(l, 3) == [];
    assert SpaceRunEnd(l, 2) == 2;
    assert SpaceRunEnd(l, 1) == 2;
    assert SpacingMatchAt(l, 0);
  }

  /** Latin text has no Japanese boundary characters: no finding. */
  lemma LatinExample()
    ensures SpacingMatches("hello world", 0) == []
  {
    var l := "hello world";
    var p := |l|;
    while p > 0
      invariant 0 <= p <= |l|
      invariant SpacingMatches(l, p) == []
    {
      p := p - 1;
      assert !IsLeftBoundary(l[p]);
    }
  }
}
