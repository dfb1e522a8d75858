/** The finding record shared by both detectors, its flat serialisation,
    and the identifier formats the detectors give it. */
module Suggestions {
  import opened Decimal
  import opened JsonValues

  /** A location mapping. The heuristic detector always fills
      `paragraph_index`, `start` and `end`; the semantic detector copies
      whatever mapping the reply holds. */
  type Location = map<string, Json>

  /** One flagged issue. `suggestedFix` and `evidence` are optional in the
      source (JNull stands for `None`) and are copied from the reply without
      coercion by the semantic detector, so they range over all values. */
  datatype Suggestion = Suggestion(
    id: string,
    category: string,
    severity: string,
    message: string,
    location: Location,
    suggestedFix: Json,
    evidence: Json,
    autofix: bool)

  function PositionLocation(paragraph: nat, start: nat, end: nat): Location {
    map["paragraph_index" := JNum(paragraph), "start" := JNum(start), "end" := JNum(end)]
  }

  const FieldNames: set<string> :=
    {"id", "category", "severity", "message", "location", "suggested_fix", "evidence", "autofix"}

  /** Reads a flat record back into a Suggestion: every one of the eight
      keys must be present, the four text fields as strings, the location
      as an object and the flag as a boolean. */
  function FromDict(d: map<string, Json>): Option<Suggestion> {
    if FieldNames <= d.Keys
       && d["id"].JStr? && d["category"].JStr? && d["severity"].JStr? && d["message"].JStr?
       && d["location"].JObj? && d["autofix"].JBool?
    then
      Some(Suggestion(d["id"].s, d["category"].s, d["severity"].s, d["message"].s,
                      d["location"].fields, d["suggested_fix"], d["evidence"], d["autofix"].b))
    else
      None
  }

  /** `Suggestion.to_dict`: exactly the eight field names as keys, from
      which the record is recovered unchanged. */
  function ToDict(s: Suggestion): (d: map<string, Json>)
    ensures d.Keys == FieldNames
    ensures FromDict(d) == Some(s)
  {
    map[
      "id" := JStr(s.id),
      "category" := JStr(s.category),
      "severity" := JStr(s.severity),
      "message" := JStr(s.message),
      "location" := JObj(s.location),
      "suggested_fix" := s.suggestedFix,
      "evidence" := s.evidence,
      "autofix" := JBool(s.autofix)
    ]
  }

  /** Two records with the same serialisation are the same record. */
  lemma ToDictInjective(a: Suggestion, b: Suggestion)
    requires ToDict(a) == ToDict(b)
    ensures a == b
  {
    assert FromDict(ToDict(a)) == Some(a);
    assert FromDict(ToDict(b)) == Some(b);
  }

  /** `f"H-{sid:04d}"`, the heuristic detector's identifiers. */
  function HeuristicId(n: nat): string {
    "H-" + Pad4(n)
  }

  /** `f"L-{sid:04d}"`, the semantic detector's fallback identifiers. */
  function FallbackId(n: nat): string {
    "L-" + Pad4(n)
  }

  /** Identifiers of one kind are distinct for distinct numbers, and the
      two kinds never coincide. */
  lemma IdsDistinct(a: nat, b: nat)
    ensures a != b ==> HeuristicId(a) != HeuristicId(b) && FallbackId(a) != FallbackId(b)
    ensures HeuristicId(a) != FallbackId(b)
  {
    Pad4Injective(a, b);
    assert HeuristicId(a)[2..] == Pad4(a) && HeuristicId(b)[2..] == Pad4(b);
    assert FallbackId(a)[2..] == Pad4(a) && FallbackId(b)[2..] == Pad4(b);
    assert HeuristicId(a)[0] == 'H' && FallbackId(b)[0] == 'L';
  }
}
