/** The semantic detector's local logic: the short-circuit when no
    credential is configured, the filtering of the parsed reply, and the
    defensive rebuilding of each returned record into a Suggestion. The
    service call itself is outside the model: its reply arrives already
    parsed, as an input. */
module SemanticDetector {
  import opened JsonValues
  import opened Suggestions
  import opened Sequences

  type Record = map<string, Json>

  /** The object elements of a list, in their order, others dropped. */
  function Objects(xs: seq<Json>): (r: seq<Record>)
    ensures |r| <= |xs|
    ensures forall m :: m in r <==> JObj(m) in xs
    decreases |xs|
  {
    if xs == [] then []
    else
      var rest := Objects(xs[1..]);
      assert forall v :: v in xs <==> v == xs[0] || v in xs[1..];
      if xs[0].JObj? then [xs[0].fields] + rest else rest
  }

  /** Filtering distributes over concatenation, so the relative order of
      the kept objects is the order of the list. */
  lemma {:induction false} ObjectsAppend(xs: seq<Json>, ys: seq<Json>)
    ensures Objects(xs + ys) == Objects(xs) + Objects(ys)
    decreases |xs|
  {
    if xs != [] {
      assert (xs + ys)[0] == xs[0];
      assert (xs + ys)[1..] == xs[1..] + ys;
      ObjectsAppend(xs[1..], ys);
    } else {
      assert xs + ys == ys;
    }
  }

  /** A list made only of objects loses nothing. */
  lemma {:induction false} ObjectsAllKept(xs: seq<Json>)
    requires forall k :: 0 <= k < |xs| ==> xs[k].JObj?
    ensures |Objects(xs)| == |xs|
    ensures forall k :: 0 <= k < |xs| ==> Objects(xs)[k] == xs[k].fields
    decreases |xs|
  {
    if xs != [] {
      ObjectsAllKept(xs[1..]);
    }
  }

  /** `_safe_json_list`: `parsed` is what `json.loads` produced, None when
      it raised. Anything but a list gives the empty list. */
  function SafeJsonList(parsed: Option<Json>): (r: seq<Record>)
    ensures parsed.None? || !parsed.value.JArr? ==> r == []
    ensures parsed.Some? && parsed.value.JArr? ==>
              forall m :: m in r <==> JObj(m) in parsed.value.items
  {
    match parsed
    case Some(JArr(items)) => Objects(items)
    case _ => []
  }

  /** The location used when a record's own is falsy. */
  const DefaultLocation: Location := PositionLocation(0, 0, 0)

  /** `dict(it.get("location") or {...})`; None where Python raises and
      the record is skipped. */
  function LocationOf(it: Record): Option<Location> {
    DictOf(Or(Get(it, "location"), JObj(DefaultLocation)))
  }

  /** Whether a record survives reconstruction. */
  predicate Keeps(it: Record) {
    LocationOf(it).Some?
  }

  /** One record, rebuilt with counter value `sid`. */
  function Convert(it: Record, sid: nat): (r: Option<Suggestion>)
    ensures r.Some? <==> Keeps(it)
  {
    match LocationOf(it)
    case None => None
    case Some(loc) =>
      Some(Suggestion(
        ToStr(Or(Get(it, "id"), JStr(FallbackId(sid)))),
        ToStr(Or(Get(it, "category"), JStr("other"))),
        ToStr(Or(Get(it, "severity"), JStr("medium"))),
        ToStr(Or(Get(it, "message"), JStr(""))),
        loc,
        Get(it, "suggested_fix"),
        Get(it, "evidence"),
        Truthy(Get(it, "autofix"))))
  }

  /** What a rebuilt record holds: the location is the converted one (the
      default when the record's own is falsy); falsy id, category, severity
      and message take their defaults and strings pass through; evidence
      and fix are copied and autofix is truthiness. */
  lemma ConvertFields(it: Record, sid: nat)
    ensures var r := Convert(it, sid);
            && (r.Some? ==> Some(r.value.location) == LocationOf(it))
            && (!Truthy(Get(it, "location")) ==> r.Some? && r.value.location == DefaultLocation)
            && (Get(it, "location").JObj? && Truthy(Get(it, "location")) ==> r.Some? && r.value.location == Get(it, "location").fields)
    ensures var r := Convert(it, sid);
            r.Some? ==>
              && (!Truthy(Get(it, "id")) ==> r.value.id == FallbackId(sid))
              && (!Truthy(Get(it, "category")) ==> r.value.category == "other")
              && (!Truthy(Get(it, "severity")) ==> r.value.severity == "medium")
              && (!Truthy(Get(it, "message")) ==> r.value.message == "")
              && (Get(it, "id").JStr? && Truthy(Get(it, "id")) ==> r.value.id == Get(it, "id").s)
              && (Get(it, "category").JStr? && Truthy(Get(it, "category")) ==> r.value.category == Get(it, "category").s)
              && (Get(it, "severity").JStr? && Truthy(Get(it, "severity")) ==> r.value.severity == Get(it, "severity").s)
              && (Get(it, "message").JStr? && Truthy(Get(it, "message")) ==> r.value.message == Get(it, "message").s)
              && r.value.id != "" && r.value.category != "" && r.value.severity != ""
              && r.value.evidence == Get(it, "evidence")
              && r.value.suggestedFix == Get(it, "suggested_fix")
              && r.value.autofix == Truthy(Get(it, "autofix"))
  {
  }

  /** The rebuilt records of `items`, the counter starting at `sid` and
      advancing only past a record that was kept. */
  function ReconstructFrom(items: seq<Record>, sid: nat): seq<Suggestion>
    decreases |items|
  {
    if items == [] then []
    else
      match Convert(items[0], sid)
      case None => ReconstructFrom(items[1..], sid)
      case Some(s) => [s] + ReconstructFrom(items[1..], sid + 1)
  }

  /** The records that survive, in their order. */
  function Survivors(items: seq<Record>): (r: seq<Record>)
    ensures |r| <= |items|
    ensures forall k :: 0 <= k < |r| ==> Keeps(r[k]) && r[k] in items
    decreases |items|
  {
    if items == [] then []
    else if Keeps(items[0]) then [items[0]] + Survivors(items[1..])
    else Survivors(items[1..])
  }

  /** Every kept record survives: a record that fails is skipped without
      taking the others with it. */
  lemma {:induction false} SurvivorsComplete(items: seq<Record>)
    ensures forall k :: 0 <= k < |items| && Keeps(items[k]) ==> items[k] in Survivors(items)
    decreases |items|
  {
    if items != [] {
      SurvivorsComplete(items[1..]);
      assert forall k :: 1 <= k < |items| ==> items[k] == items[1..][k - 1];
    }
  }

  /** Survival distributes over concatenation: kept records stay in their
      input order, whatever fails around them. */
  lemma {:induction false} SurvivorsAppend(xs: seq<Record>, ys: seq<Record>)
    ensures Survivors(xs + ys) == Survivors(xs) + Survivors(ys)
    decreases |xs|
  {
    if xs != [] {
      assert (xs + ys)[0] == xs[0];
      assert (xs + ys)[1..] == xs[1..] + ys;
      SurvivorsAppend(xs[1..], ys);
    } else {
      assert xs + ys == ys;
    }
  }

  /** The k-th output is the k-th surviving record rebuilt with counter
      sid + k: one output per survivor, in order, skipped records leaving
      no gap in the numbering. */
  lemma {:induction false} ReconstructSurvivors(items: seq<Record>, sid: nat)
    ensures |ReconstructFrom(items, sid)| == |Survivors(items)|
    ensures forall k :: 0 <= k < |Survivors(items)| ==>
              ReconstructFrom(items, sid)[k] == Convert(Survivors(items)[k], sid + k).value
    decreases |items|
  {
    if items != [] {
      if Keeps(items[0]) {
        ReconstructSurvivors(items[1..], sid + 1);
        KeptStep(items, sid);
      } else {
        ReconstructSurvivors(items[1..], sid);
      }
    }
  }

  /** The inductive step of ReconstructSurvivors when the first record is kept. */
  lemma KeptStep(items: seq<Record>, sid: nat)
    requires items != [] && Keeps(items[0])
    requires |ReconstructFrom(items[1..], sid + 1)| == |Survivors(items[1..])|
    requires forall k :: 0 <= k < |Survivors(items[1..])| ==>
               ReconstructFrom(items[1..], sid + 1)[k] == Convert(Survivors(items[1..])[k], sid + 1 + k).value
    ensures |ReconstructFrom(items, sid)| == |Survivors(items)|
    ensures forall k :: 0 <= k < |Survivors(items)| ==>
              ReconstructFrom(items, sid)[k] == Convert(Survivors(items)[k], sid + k).value
  {
    var rest := ReconstructFrom(items[1..], sid + 1);
    var tail := Survivors(items[1..]);
    var out := ReconstructFrom(items, sid);
    var surv := Survivors(items);
    assert out == [Convert(items[0], sid).value] + rest;
    assert surv == [items[0]] + tail;
    forall k | 0 <= k < |surv|
      ensures out[k] == Convert(surv[k], sid + k).value
    {
      if k > 0 {
        assert out[k] == rest[k - 1];
        assert surv[k] == tail[k - 1];
      } else {
        assert out[0] == Convert(items[0], sid).value && surv[0] == items[0];
      }
    }
  }

  /** A record without a usable id receives "L-" and its position among
      the kept records, counted from one. */
  lemma FallbackIds(items: seq<Record>, k: nat)
    requires k < |Survivors(items)|
    requires !Truthy(Get(Survivors(items)[k], "id"))
    ensures k < |ReconstructFrom(items, 1)|
    ensures ReconstructFrom(items, 1)[k].id == FallbackId(k + 1)
  {
    ReconstructSurvivors(items, 1);
    ConvertFields(Survivors(items)[k], k + 1);
  }

  /** When no location is malformed, no record is skipped. */
  lemma {:induction false} NothingSkipped(items: seq<Record>, sid: nat)
    requires forall k :: 0 <= k < |items| ==> Keeps(items[k])
    ensures |ReconstructFrom(items, sid)| == |items|
    decreases |items|
  {
    if items != [] {
      NothingSkipped(items[1..], sid + 1);
    }
  }

  /** One record of the loop: it is either dropped, the counter staying,
      or rebuilt in front of the rest, the counter advancing. */
  lemma ReconstructStep(items: seq<Record>, i: nat, sid: nat)
    requires i < |items|
    ensures Convert(items[i], sid).None? ==> ReconstructFrom(items[i..], sid) == ReconstructFrom(items[i + 1..], sid)
    ensures Convert(items[i], sid).Some? ==>
              ReconstructFrom(items[i..], sid) == [Convert(items[i], sid).value] + ReconstructFrom(items[i + 1..], sid + 1)
  {
    assert items[i..][1..] == items[i + 1..];
  }

  /** The loop of `llm_checks` over the parsed records. */
  method Reconstruct(items: seq<Record>) returns (out: seq<Suggestion>)
    ensures out == ReconstructFrom(items, 1)
  {
    out := [];
    var sid := 1;
    var i := 0;
    while i < |items|
      invariant 0 <= i <= |items|
      invariant sid == |out| + 1
      invariant out + ReconstructFrom(items[i..], sid) == ReconstructFrom(items, 1)
    {
      var s := Convert(items[i], sid);
      ReconstructStep(items, i, sid);
      if s.Some? {
        AppendAssoc(out, [s.value], ReconstructFrom(items[i + 1..], sid + 1));
        out := out + [s.value];
        sid := sid + 1;
      }
      i := i + 1;
    }
  }

  /** Python's `not api_key`. */
  predicate MissingKey(apiKey: Option<string>) {
    apiKey.None? || apiKey.value == ""
  }

  /** `llm_checks`. `reply` is the parsed reply content, supplied by the
      caller; `contacted` reports whether the service would be called. */
  method LlmChecks(apiKey: Option<string>, reply: Option<Json>) returns (out: seq<Suggestion>, contacted: bool)
    ensures contacted <==> !MissingKey(apiKey)
    ensures MissingKey(apiKey) ==> out == []
    ensures !MissingKey(apiKey) ==> out == ReconstructFrom(SafeJsonList(reply), 1)
  {
    if MissingKey(apiKey) {
      return [], false;
    }
    contacted := true;
    var items := SafeJsonList(reply);
    out := Reconstruct(items);
  }
}
