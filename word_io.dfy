/** The text transforms of the Word document reader and writer: literal
    substring replacement as `str.replace` performs it, the replacement
    mapping applied entry by entry, the newline join of paragraph texts,
    and the writer's rule that only a paragraph whose text changes is
    rewritten. A paragraph is the sequence of the texts of its runs; the
    document library itself is outside the model. */
module WordIo {

  /** The key occurs in s at position i. */
  predicate OccursAt(s: string, k: string, i: nat) {
    i + |k| <= |s| && s[i..i + |k|] == k
  }

  predicate Occurs(s: string, k: string) {
    exists i: nat :: i <= |s| && OccursAt(s, k, i)
  }

  /** `s.replace(k, v)` for a non-empty key: scanning from the left, each
      occurrence is replaced and scanning resumes after it, so occurrences
      do not overlap and inserted text is never scanned again. */
  function ReplaceAll(s: string, k: string, v: string): string
    requires k != ""
    decreases |s|
  {
    if |s| < |k| then s
    else if s[..|k|] == k then v + ReplaceAll(s[|k|..], k, v)
    else [s[0]] + ReplaceAll(s[1..], k, v)
  }

  /** A value at least as long as the key never shortens the text, and one
      at most as long never lengthens it. */
  lemma {:induction false} ReplaceAllLengthOrder(s: string, k: string, v: string)
    requires k != ""
    ensures |v| >= |k| ==> |ReplaceAll(s, k, v)| >= |s|
    ensures |v| <= |k| ==> |ReplaceAll(s, k, v)| <= |s|
    decreases |s|
  {
    if |s| >= |k| {
      if s[..|k|] == k {
        ReplaceAllLengthOrder(s[|k|..], k, v);
      } else {
        ReplaceAllLengthOrder(s[1..], k, v);
      }
    }
  }

  /** When the key occurs, a value of another length changes the length of
      the text. */
  lemma {:induction false} ReplaceAllLengthChanges(s: string, k: string, v: string, i: nat)
    requires k != "" && |v| != |k| && OccursAt(s, k, i)
    ensures |ReplaceAll(s, k, v)| != |s|
    ensures |v| > |k| ==> |ReplaceAll(s, k, v)| > |s|
    decreases |s|
  {
    if s[..|k|] == k {
      ReplaceAllLengthOrder(s[|k|..], k, v);
    } else {
      assert i > 0;
      assert s[1..][i - 1..i - 1 + |k|] == s[i..i + |k|];
      ReplaceAllLengthChanges(s[1..], k, v, i - 1);
    }
  }

  /** A key that does not occur leaves the text as it is. */
  lemma {:induction false} AbsentKeyUnchanged(s: string, k: string, v: string)
    requires k != "" && !Occurs(s, k)
    ensures ReplaceAll(s, k, v) == s
    decreases |s|
  {
    if |s| >= |k| {
      assert !OccursAt(s, k, 0);
      assert s[..|k|] != k;
      forall i: nat
        ensures !OccursAt(s[1..], k, i)
      {
        if OccursAt(s[1..], k, i) {
          assert s[i + 1..i + 1 + |k|] == s[1..][i..i + |k|];
          assert OccursAt(s, k, i + 1);
        }
      }
      AbsentKeyUnchanged(s[1..], k, v);
      assert [s[0]] + s[1..] == s;
    }
  }

  /** Replacing a key by itself changes nothing. */
  lemma {:induction false} SelfReplaceUnchanged(s: string, k: string)
    requires k != ""
    ensures ReplaceAll(s, k, k) == s
    decreases |s|
  {
    if |s| >= |k| {
      if s[..|k|] == k {
        SelfReplaceUnchanged(s[|k|..], k);
        assert s[..|k|] + s[|k|..] == s;
      } else {
        SelfReplaceUnchanged(s[1..], k);
        assert [s[0]] + s[1..] == s;
      }
    }
  }

  /** A same-length replacement of an occurring key by a different value
      changes the text. */
  lemma {:induction false} SameLengthReplaceChanges(s: string, k: string, v: string, i: nat)
    requires k != "" && |v| == |k| && v != k && OccursAt(s, k, i)
    ensures ReplaceAll(s, k, v) != s
    decreases |s|
  {
    var r := ReplaceAll(s, k, v);
    if s[..|k|] == k {
      assert r[..|k|] == v;
      assert r[..|k|] != s[..|k|];
    } else {
      assert i > 0;
      assert s[1..][i - 1..i - 1 + |k|] == s[i..i + |k|];
      SameLengthReplaceChanges(s[1..], k, v, i - 1);
      assert r[1..] == ReplaceAll(s[1..], k, v);
    }
  }

  /** `s.replace(k, v) == s` exactly when the key does not occur or the
      value is the key itself. */
  lemma ReplaceUnchangedIff(s: string, k: string, v: string)
    requires k != ""
    ensures ReplaceAll(s, k, v) == s <==> !Occurs(s, k) || v == k
  {
    if Occurs(s, k) && v != k {
      var i: nat :| OccursAt(s, k, i);
      if |v| == |k| {
        SameLengthReplaceChanges(s, k, v, i);
      } else {
        ReplaceAllLengthChanges(s, k, v, i);
      }
    } else if v == k {
      SelfReplaceUnchanged(s, k);
    } else {
      AbsentKeyUnchanged(s, k, v);
    }
  }

  /** A whole-text occurrence is replaced once, even when the value holds
      the key again: the inserted text is not rescanned. */
  lemma ReplaceWhole(k: string, v: string)
    requires k != ""
    ensures ReplaceAll(k, k, v) == v
  {
    assert k[..|k|] == k;
    assert k[|k|..] == [];
  }

  /** One entry of the mapping: an empty key is skipped. */
  function Step(text: string, entry: (string, string)): string {
    if entry.0 == "" then text else ReplaceAll(text, entry.0, entry.1)
  }

  /** `_apply_replacements`: the entries of the mapping, in its iteration
      order, applied one after another to the text. */
  function Replaced(text: string, repl: seq<(string, string)>): string
    decreases |repl|
  {
    if repl == [] then text else Step(Replaced(text, repl[..|repl| - 1]), repl[|repl| - 1])
  }

  /** Later entries see the output of earlier ones. */
  lemma {:induction false} ReplacedAppend(text: string, r1: seq<(string, string)>, r2: seq<(string, string)>)
    ensures Replaced(text, r1 + r2) == Replaced(Replaced(text, r1), r2)
    decreases |r2|
  {
    if r2 == [] {
      assert r1 + r2 == r1;
    } else {
      var r2' := r2[..|r2| - 1];
      assert (r1 + r2)[..|r1 + r2| - 1] == r1 + r2';
      ReplacedAppend(text, r1, r2');
    }
  }

  /** When no non-empty key occurs in the text, nothing is replaced; in
      particular an empty mapping leaves the text unchanged. */
  lemma {:induction false} ReplacedUnchanged(text: string, repl: seq<(string, string)>)
    requires forall j :: 0 <= j < |repl| ==> repl[j].0 == "" || !Occurs(text, repl[j].0)
    ensures Replaced(text, repl) == text
    decreases |repl|
  {
    if repl != [] {
      ReplacedUnchanged(text, repl[..|repl| - 1]);
      var e := repl[|repl| - 1];
      if e.0 != "" {
        AbsentKeyUnchanged(text, e.0, e.1);
      }
    }
  }

  /** The loop of `_apply_replacements`. */
  method ApplyReplacements(text: string, repl: seq<(string, string)>) returns (r: string)
    ensures r == Replaced(text, repl)
  {
    r := text;
    for i := 0 to |repl|
      invariant r == Replaced(text, repl[..i])
    {
      assert repl[..i + 1][..i] == repl[..i];
      var (k, v) := repl[i];
      if k != "" {
        r := ReplaceAll(r, k, v);
      }
    }
    assert repl[..|repl|] == repl;
  }

  // ---------------------------------------------------------------------
  // Reading: the full text
  // ---------------------------------------------------------------------

  /** `"\n".join(texts)`. */
  function Join(texts: seq<string>): string
    decreases |texts|
  {
    if texts == [] then ""
    else if |texts| == 1 then texts[0]
    else texts[0] + "\n" + Join(texts[1..])
  }

  /** `s.split("\n")`: never empty, one more piece than newlines. */
  function Split(s: string): (r: seq<string>)
    ensures |r| >= 1
    decreases |s|
  {
    if s == [] then [""]
    else
      var rest := Split(s[1..]);
      if s[0] == '\n' then [""] + rest else [[s[0]] + rest[0]] + rest[1..]
  }

  predicate NoNewline(s: string) {
    forall j :: 0 <= j < |s| ==> s[j] != '\n'
  }

  /** A text without newlines glues onto the first piece. */
  lemma {:induction false} SplitPrefix(p: string, s: string)
    requires NoNewline(p)
    ensures Split(p + s) == [p + Split(s)[0]] + Split(s)[1..]
    decreases |p|
  {
    if p != [] {
      assert (p + s)[0] == p[0];
      assert (p + s)[1..] == p[1..] + s;
      SplitPrefix(p[1..], s);
      assert [p[0]] + (p[1..] + Split(s)[0]) == p + Split(s)[0];
    } else {
      assert p + s == s;
      assert p + Split(s)[0] == Split(s)[0];
      assert Split(s) == [Split(s)[0]] + Split(s)[1..];
    }
  }

  /** Splitting the full text at newlines recovers the paragraphs, empty
      ones included, as long as no paragraph holds a newline itself. */
  lemma {:induction false} SplitJoin(texts: seq<string>)
    requires |texts| >= 1
    requires forall i :: 0 <= i < |texts| ==> NoNewline(texts[i])
    ensures Split(Join(texts)) == texts
    decreases |texts|
  {
    if |texts| == 1 {
      SplitPrefix(texts[0], "");
      assert texts[0] + "" == texts[0];
    } else {
      var rest := Join(texts[1..]);
      SplitJoin(texts[1..]);
      assert texts[0] + "\n" + rest == texts[0] + ("\n" + rest);
      SplitPrefix(texts[0], "\n" + rest);
      assert ("\n" + rest)[1..] == rest;
      assert Split("\n" + rest) == [""] + texts[1..];
      assert texts[0] + "" == texts[0];
    }
  }

  /** The full text is as long as the paragraphs plus one separator
      between each two. */
  lemma {:induction false} JoinLength(texts: seq<string>)
    requires |texts| >= 1
    ensures |Join(texts)| == TotalLength(texts) + |texts| - 1
    decreases |texts|
  {
    if |texts| > 1 {
      JoinLength(texts[1..]);
    }
  }

  function TotalLength(texts: seq<string>): nat
    decreases |texts|
  {
    if texts == [] then 0 else |texts[0]| + TotalLength(texts[1..])
  }

  /** The text of a paragraph: its runs' texts concatenated. */
  function Text(runs: seq<string>): string
    decreases |runs|
  {
    if runs == [] then "" else Text(runs[..|runs| - 1]) + runs[|runs| - 1]
  }

  /** `read_docx_text`: each paragraph's text collected in document order,
      then joined. */
  method ReadDocxText(doc: seq<seq<string>>) returns (text: string)
    ensures text == Join(Texts(doc))
    ensures |doc| >= 1 && (forall i :: 0 <= i < |doc| ==> NoNewline(Text(doc[i]))) ==> Split(text) == Texts(doc)
  {
    var texts: seq<string> := [];
    for i := 0 to |doc|
      invariant texts == Texts(doc[..i])
    {
      assert doc[..i + 1][..i] == doc[..i];
      texts := texts + [Text(doc[i])];
    }
    assert doc[..|doc|] == doc;
    text := Join(texts);
    if |doc| >= 1 && forall i :: 0 <= i < |doc| ==> NoNewline(Text(doc[i])) {
      SplitJoin(texts);
    }
  }

  /** The paragraph texts of a document. */
  function Texts(doc: seq<seq<string>>): (r: seq<string>)
    ensures |r| == |doc|
    ensures forall i :: 0 <= i < |doc| ==> r[i] == Text(doc[i])
    decreases |doc|
  {
    if doc == [] then [] else Texts(doc[..|doc| - 1]) + [Text(doc[|doc| - 1])]
  }

  // ---------------------------------------------------------------------
  // Writing: rewrite only the paragraphs whose text changes
  // ---------------------------------------------------------------------

  /** n empty runs. */
  function Blanks(n: nat): (r: seq<string>)
    ensures |r| == n && Text(r) == ""
    ensures forall m :: 0 <= m < n ==> r[m] == ""
  {
    if n == 0 then [] else Blanks(n - 1) + [""]
  }

  /** The runs of a paragraph after its text is set to `newText`: every run
      emptied and the first given the text, or one new run when there was
      none. */
  function Rewritten(runs: seq<string>, newText: string): (r: seq<string>)
    ensures Text(r) == newText
    ensures |r| == if runs == [] then 1 else |runs|
  {
    var r := if runs == [] then [newText] else [newText] + Blanks(|runs| - 1);
    TextPrepend(newText, Blanks(|r| - 1));
    assert r == [newText] + Blanks(|r| - 1);
    r
  }

  lemma {:induction false} TextPrepend(a: string, runs: seq<string>)
    ensures Text([a] + runs) == a + Text(runs)
    decreases |runs|
  {
    if runs == [] {
      assert [a] + runs == [a];
      assert [a][..0] == [];
    } else {
      var init := runs[..|runs| - 1];
      TextPrepend(a, init);
      assert ([a] + runs)[..|runs|] == [a] + init;
    }
  }

  /** The body of the writer's loop for one paragraph. */
  method RewriteParagraph(runs: seq<string>, repl: seq<(string, string)>) returns (out: seq<string>)
    ensures Text(out) == Replaced(Text(runs), repl)
    ensures Replaced(Text(runs), repl) == Text(runs) ==> out == runs
    ensures Replaced(Text(runs), repl) != Text(runs) ==> out == Rewritten(runs, Replaced(Text(runs), repl))
  {
    var text := Text(runs);
    var newText := ApplyReplacements(text, repl);
    if newText == text {
      return runs;
    }
    out := runs;
    for j := 0 to |out|
      invariant |out| == |runs|
      invariant forall m :: 0 <= m < j ==> out[m] == ""
      invariant forall m :: j <= m < |out| ==> out[m] == runs[m]
    {
      out := out[j := ""];
    }
    if out != [] {
      out := out[0 := newText];
      assert out == [newText] + Blanks(|runs| - 1);
    } else {
      out := out + [newText];
    }
    assert out == Rewritten(runs, newText);
  }

  /** `write_docx_with_replacements` on the paragraphs of the document. */
  method WriteWithReplacements(doc: seq<seq<string>>, repl: seq<(string, string)>) returns (out: seq<seq<string>>)
    ensures |out| == |doc|
    ensures forall i :: 0 <= i < |doc| ==> Text(out[i]) == Replaced(Text(doc[i]), repl)
    ensures forall i :: 0 <= i < |doc| && Replaced(Text(doc[i]), repl) == Text(doc[i]) ==> out[i] == doc[i]
    ensures (forall i, j :: 0 <= i < |doc| && 0 <= j < |repl| ==> repl[j].0 == "" || !Occurs(Text(doc[i]), repl[j].0))
            ==> out == doc
  {
    out := [];
    for i := 0 to |doc|
      invariant |out| == i
      invariant forall m :: 0 <= m < i ==> Text(out[m]) == Replaced(Text(doc[m]), repl)
      invariant forall m :: 0 <= m < i && Replaced(Text(doc[m]), repl) == Text(doc[m]) ==> out[m] == doc[m]
    {
      var runs := RewriteParagraph(doc[i], repl);
      out := out + [runs];
    }
    if forall i, j :: 0 <= i < |doc| && 0 <= j < |repl| ==> repl[j].0 == "" || !Occurs(Text(doc[i]), repl[j].0) {
      NoMatchKeepsDocument(doc, repl, out);
    }
  }

  /** An empty mapping, or one none of whose keys occurs, leaves the
      document exactly as it was. */
  lemma NoMatchKeepsDocument(doc: seq<seq<string>>, repl: seq<(string, string)>, out: seq<seq<string>>)
    requires forall i, j :: 0 <= i < |doc| && 0 <= j < |repl| ==> repl[j].0 == "" || !Occurs(Text(doc[i]), repl[j].0)
    requires |out| == |doc|
    requires forall i :: 0 <= i < |doc| && Replaced(Text(doc[i]), repl) == Text(doc[i]) ==> out[i] == doc[i]
    ensures out == doc
  {
    forall i | 0 <= i < |doc|
      ensures out[i] == doc[i]
    {
      ReplacedUnchanged(Text(doc[i]), repl);
    }
  }
}
