/** Values as a JSON parser hands them to Python (`None`, `bool`, `int`,
    `str`, `list`, `dict`), and the Python built-ins the detectors apply to
    them: truthiness, `dict.get`, `str(...)` and `dict(...)`. */
module JsonValues {
  import opened Decimal

  datatype Option<+T> = None | Some(value: T)

  datatype Json =
    | JNull
    | JBool(b: bool)
    | JNum(n: int)
    | JStr(s: string)
    | JArr(items: seq<Json>)
    | JObj(fields: map<string, Json>)

  /** Python truthiness: `None`, `False`, `0` and empty containers are falsy. */
  predicate Truthy(v: Json) {
    match v
    case JNull => false
    case JBool(b) => b
    case JNum(n) => n != 0
    case JStr(s) => s != ""
    case JArr(items) => items != []
    case JObj(fields) => fields != map[]
  }

  /** `d.get(key)`: the value stored under key, or `None` when it is absent. */
  function Get(d: map<string, Json>, key: string): Json {
    if key in d then d[key] else JNull
  }

  /** `x or default`: x when it is truthy, the default otherwise. */
  function Or(x: Json, default: Json): Json {
    if Truthy(x) then x else default
  }

  /** `str(v)`. Strings are returned as they are and every truthy value
      renders to a non-empty string. */
  function ToStr(v: Json): (r: string)
    ensures v.JStr? ==> r == v.s
    ensures Truthy(v) ==> r != ""
  {
    match v
    case JNull => "None"
    case JBool(b) => if b then "True" else "False"
    case JNum(n) => if n < 0 then "-" + Digits(-n) else Digits(n)
    case JStr(s) => s
    case JArr(items) => if items == [] then "[]" else "[...]"
    case JObj(fields) => if fields == map[] then "{}" else "{...}"
  }

  /** One element of the iterable given to `dict(...)`, read as a key/value
      pair: a two-element list whose first element is a string, or a
      two-character string. */
  function PairOf(v: Json): Option<(string, Json)> {
    match v
    case JArr(kv) => if |kv| == 2 && kv[0].JStr? then Some((kv[0].s, kv[1])) else None
    case JStr(s) => if |s| == 2 then Some(([s[0]], JStr([s[1]]))) else None
    case _ => None
  }

  /** The key/value pairs of a list every element of which is a pair. */
  ghost function Pairs(items: seq<Json>): (ps: seq<(string, Json)>)
    requires forall k :: 0 <= k < |items| ==> PairOf(items[k]).Some?
    ensures |ps| == |items|
  {
    seq(|items|, k requires 0 <= k < |items| => PairOf(items[k]).value)
  }

  /** m's keys are those of acc and of the pairs ps. */
  ghost predicate KeysFrom(ps: seq<(string, Json)>, acc: map<string, Json>, m: map<string, Json>) {
    forall key :: key in m <==> key in acc || exists k :: 0 <= k < |ps| && ps[k].0 == key
  }

  /** The k-th pair is the last one with its key. */
  ghost predicate LastWithKey(ps: seq<(string, Json)>, k: nat)
    requires k < |ps|
  {
    forall j :: k < j < |ps| ==> ps[j].0 != ps[k].0
  }

  /** m is what inserting the pairs ps one after another into acc gives:
      its keys are those of acc and of the pairs, a key takes the value of
      its last pair, and a key no pair names keeps its value in acc. */
  ghost predicate BuiltFrom(ps: seq<(string, Json)>, acc: map<string, Json>, m: map<string, Json>) {
    && KeysFrom(ps, acc, m)
    && (forall k :: 0 <= k < |ps| && LastWithKey(ps, k) ==> ps[k].0 in m && m[ps[k].0] == ps[k].1)
    && (forall key :: key in acc && (forall k :: 0 <= k < |ps| ==> ps[k].0 != key) ==>
          key in m && m[key] == acc[key])
  }

  /** `dict(items)` for a list: later pairs overwrite earlier ones; an
      element that is not a pair makes the whole conversion fail. */
  function PairsToDict(items: seq<Json>, acc: map<string, Json>): (r: Option<map<string, Json>>)
    ensures r.Some? ==> acc.Keys <= r.value.Keys
    ensures r.Some? <==> forall k :: 0 <= k < |items| ==> PairOf(items[k]).Some?
    decreases |items|
  {
    if items == [] then Some(acc)
    else
      match PairOf(items[0])
      case None => None
      case Some(kv) =>
        var r := PairsToDict(items[1..], acc[kv.0 := kv.1]);
        assert forall k :: 1 <= k < |items| ==> items[k] == items[1..][k - 1];
        r
  }

  /** `dict(items)` has the keys of the starting entries and of the pairs. */
  lemma {:induction false} PairsToDictKeys(items: seq<Json>, acc: map<string, Json>, key: string)
    requires PairsToDict(items, acc).Some?
    ensures key in PairsToDict(items, acc).value
            <==> key in acc || exists k :: 0 <= k < |items| && PairOf(items[k]).value.0 == key
    decreases |items|
  {
    if items != [] {
      var kv := PairOf(items[0]).value;
      var acc' := acc[kv.0 := kv.1];
      var rest := items[1..];
      assert PairsToDict(items, acc) == PairsToDict(rest, acc');
      PairsToDictKeys(rest, acc', key);
      if exists k :: 0 <= k < |rest| && PairOf(rest[k]).value.0 == key {
        var k :| 0 <= k < |rest| && PairOf(rest[k]).value.0 == key;
        assert rest[k] == items[k + 1];
      }
      if exists k :: 0 <= k < |items| && PairOf(items[k]).value.0 == key {
        var k :| 0 <= k < |items| && PairOf(items[k]).value.0 == key;
        if k > 0 {
          assert rest[k - 1] == items[k];
        }
      }
    }
  }

  /** A starting entry no pair names keeps its value. */
  lemma {:induction false} PairsToDictKeeps(items: seq<Json>, acc: map<string, Json>, key: string)
    requires PairsToDict(items, acc).Some? && key in acc
    requires forall k :: 0 <= k < |items| ==> PairOf(items[k]).value.0 != key
    ensures key in PairsToDict(items, acc).value && PairsToDict(items, acc).value[key] == acc[key]
    decreases |items|
  {
    if items != [] {
      var kv := PairOf(items[0]).value;
      var rest := items[1..];
      assert PairsToDict(items, acc) == PairsToDict(rest, acc[kv.0 := kv.1]);
      assert forall k :: 0 <= k < |rest| ==> rest[k] == items[k + 1];
      PairsToDictKeeps(rest, acc[kv.0 := kv.1], key);
    }
  }

  /** A key takes the value of its last pair. */
  lemma {:induction false} PairsToDictLastWins(items: seq<Json>, acc: map<string, Json>, k: nat)
    requires PairsToDict(items, acc).Some? && k < |items|
    requires forall j :: k < j < |items| ==> PairOf(items[j]).value.0 != PairOf(items[k]).value.0
    ensures PairOf(items[k]).value.0 in PairsToDict(items, acc).value
    ensures PairsToDict(items, acc).value[PairOf(items[k]).value.0] == PairOf(items[k]).value.1
    decreases |items|
  {
    var kv := PairOf(items[0]).value;
    var acc' := acc[kv.0 := kv.1];
    var rest := items[1..];
    assert PairsToDict(items, acc) == PairsToDict(rest, acc');
    assert forall j :: 0 <= j < |rest| ==> rest[j] == items[j + 1];
    if k > 0 {
      PairsToDictLastWins(rest, acc', k - 1);
    } else {
      PairsToDictKeeps(rest, acc', kv.0);
    }
  }

  /** What `dict(items)` builds: each key bound to the value of its last
      pair, the starting entries kept where no pair names them. */
  lemma PairsToDictBuilds(items: seq<Json>, acc: map<string, Json>)
    ensures PairsToDict(items, acc).Some? ==> BuiltFrom(Pairs(items), acc, PairsToDict(items, acc).value)
  {
    if PairsToDict(items, acc).Some? {
      var ps, m := Pairs(items), PairsToDict(items, acc).value;
      assert forall j :: 0 <= j < |ps| ==> ps[j] == PairOf(items[j]).value;
      forall key
        ensures key in m <==> key in acc || exists k :: 0 <= k < |ps| && ps[k].0 == key
      {
        PairsToDictKeys(items, acc, key);
      }
      forall k | 0 <= k < |ps| && LastWithKey(ps, k)
        ensures ps[k].0 in m && m[ps[k].0] == ps[k].1
      {
        PairsToDictLastWins(items, acc, k);
      }
      forall key | key in acc && (forall k :: 0 <= k < |ps| ==> ps[k].0 != key)
        ensures key in m && m[key] == acc[key]
      {
        PairsToDictKeeps(items, acc, key);
      }
    }
  }

  /** `dict(v)`: Some(mapping) when Python builds one, None where it raises. */
  function DictOf(v: Json): (r: Option<map<string, Json>>)
    ensures r.Some? <==> v.JObj? || v == JStr("")
                         || (v.JArr? && forall k :: 0 <= k < |v.items| ==> PairOf(v.items[k]).Some?)
    ensures v.JObj? ==> r == Some(v.fields)
    ensures v == JStr("") ==> r == Some(map[])
    ensures v.JArr? && r.Some? ==> BuiltFrom(Pairs(v.items), map[], r.value)
  {
    match v
    case JObj(fields) => Some(fields)
    case JArr(items) => PairsToDictBuilds(items, map[]); PairsToDict(items, map[])
    case JStr(s) => if s == "" then Some(map[]) else None
    case _ => None
  }
}
