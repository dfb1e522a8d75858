/** The semantic detector on small parsed replies. */
module SemanticExamples {
  import opened JsonValues
  import opened Suggestions
  import opened SemanticDetector

  /** A complete record as the service is asked to return it. */
  function FullRecord(): Record {
    map["id" := JStr("S-1"), "category" := JStr("support"), "severity" := JStr("high"),
        "message" := JStr("根拠が不足しています"), "location" := JObj(PositionLocation(2, 0, 5)),
        "autofix" := JBool(false)]
  }

  /** A complete record keeps every field it gives. */
  lemma FullRecordConverted(sid: nat)
    ensures Convert(FullRecord(), sid)
            == Some(Suggestion("S-1", "support", "high", "根拠が不足しています", PositionLocation(2, 0, 5), JNull, JNull, false))
  {
    var r := FullRecord();
    assert "start" in PositionLocation(2, 0, 5);
    assert LocationOf(r) == Some(PositionLocation(2, 0, 5));
    assert "evidence" !in r && "suggested_fix" !in r;
  }

  /** An empty record takes every default. */
  lemma EmptyRecordConverted(sid: nat)
    ensures Convert(map[], sid)
            == Some(Suggestion(FallbackId(sid), "other", "medium", "", DefaultLocation, JNull, JNull, false))
  {
  }

  /** One complete record and one with no fields at all: both are kept, the
      second filled with the defaults and numbered by its position. */
  lemma TwoRecordReply()
    ensures ReconstructFrom(SafeJsonList(Some(JArr([JObj(FullRecord()), JObj(map[])]))), 1)
            == [Suggestion("S-1", "support", "high", "根拠が不足しています", PositionLocation(2, 0, 5), JNull, JNull, false),
                Suggestion(FallbackId(2), "other", "medium", "", DefaultLocation, JNull, JNull, false)]
  {
    var xs := [JObj(FullRecord()), JObj(map[])];
    ObjectsAllKept(xs);
    var items := SafeJsonList(Some(JArr(xs)));
    assert items == [FullRecord(), map[]];
    TwoKept(FullRecord(), map[]);
    FullRecordConverted(1);
    EmptyRecordConverted(2);
  }

  /** Two records that both survive are rebuilt in order, numbered 1 and 2. */
  lemma TwoKept(a: Record, b: Record)
    requires Keeps(a) && Keeps(b)
    ensures ReconstructFrom([a, b], 1) == [Convert(a, 1).value, Convert(b, 2).value]
  {
    assert [a, b][1..] == [b];
    assert [b][1..] == [];
    assert ReconstructFrom([b], 2) == [Convert(b, 2).value] + ReconstructFrom([], 3);
    assert ReconstructFrom([a, b], 1) == [Convert(a, 1).value] + ReconstructFrom([b], 2);
  }

  /** A record whose location is a number cannot become a mapping: it is
      dropped, and the next record takes the first fallback number. */
  lemma BadLocationSkipped()
    ensures ReconstructFrom([map["location" := JNum(5)], map[]], 1)
            == [Suggestion(FallbackId(1), "other", "medium", "", DefaultLocation, JNull, JNull, false)]
  {
    var items: seq<Record> := [map["location" := JNum(5)], map[]];
    assert !Keeps(items[0]);
    assert items[1..] == [map[]];
    assert items[1..][1..] == [];
  }

  /** A location given as a list of key/value pairs is turned into a
      mapping, a repeated key taking its last value. */
  lemma ListLocationConverted()
    ensures Convert(map["location" := JArr([JArr([JStr("start"), JNum(3)]), JArr([JStr("start"), JNum(4)])])], 1).Some?
    ensures Convert(map["location" := JArr([JArr([JStr("start"), JNum(3)]), JArr([JStr("start"), JNum(4)])])], 1).value.location
            == map["start" := JNum(4)]
  {
    var items := [JArr([JStr("start"), JNum(3)]), JArr([JStr("start"), JNum(4)])];
    assert items[1..][1..] == [];
    assert PairsToDict(items, map[]) == PairsToDict(items[1..], map["start" := JNum(3)]);
    assert map["start" := JNum(3)]["start" := JNum(4)] == map["start" := JNum(4)];
  }

  /** A reply that is not a list, or did not parse, gives nothing. */
  lemma MalformedReply()
    ensures SafeJsonList(None) == []
    ensures SafeJsonList(Some(JObj(FullRecord()))) == []
    ensures SafeJsonList(Some(JArr([JStr("x"), JNum(1)]))) == []
  {
    assert Objects([JStr("x"), JNum(1)][1..]) == [];
  }
}
