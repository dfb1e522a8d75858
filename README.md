# meisai_checker — a verified model of its checking core

meisai_checker reviews a Japanese patent specification (明細書) held in a
Word document. Two detectors flag issues as `Suggestion` records:

- a heuristic detector with three pattern rules over each paragraph;
- a semantic detector that sends the text to a language-model service and
  rebuilds its reply into records.

A small document layer reads paragraph texts and writes a copy with
literal replacements applied.

This project models that core in Dafny and proves what it promises:

| file | module | what it holds |
|---|---|---|
| `sequences.dfy` | `Sequences` | regrouping of concatenations, used by the loop proofs |
| `decimal.dfy` | `Decimal` | decimal rendering, the `{:04d}` zero padding of identifiers, and the parse that reads them back |
| `json_values.dfy` | `JsonValues` | the values a JSON parser hands to Python; truthiness, `dict.get`, `x or default`, `str(...)`, `dict(...)` |
| `suggestions.dfy` | `Suggestions` | the `Suggestion` record, `to_dict` and its inverse, the `H-`/`L-` identifiers |
| `heuristics.dfy` | `Heuristics` | the three rules, as scanning methods proved against functional specifications, and `heuristic_checks` |
| `semantic.dfy` | `SemanticDetector` | `_safe_json_list`, the per-record reconstruction loop and the missing-key short-circuit of `llm_checks` |
| `word_io.dfy` | `WordIo` | `str.replace`, `_apply_replacements`, the paragraph join of the reader, the writer's change-only rewrite |
| `*_examples.dfy` | | the documented sample inputs, worked through the definitions |

The three heuristic rules are:

- Rule 1 flags runs of two or more `。`/`、`.
- Rule 2 flags a paragraph whose count of an opening bracket differs from the count of its closing partner.
- Rule 3 flags whitespace between Japanese characters.

Regular-expression matching is not taken from a library. Each pattern is
written out as the scan `re.finditer` performs: leftmost match, resume at its
end, otherwise advance one character. Rule 1 is proved equal to the maximal
runs. Rule 3 is proved sound, ordered left to right without overlap, and
covering every match of the pattern; it is also proved to be the only list of
spans with those three properties.

The `Suggestion` record has eight fields (`id`, `category`, `severity`,
`message`, `location`, `suggested_fix`, `evidence`, `autofix`). The
serialisation round trip covers all eight.

## Model

| member | source | states |
|---|---|---|
| Decimal.Digits | meisai_checker/analyzers.py:43 | the decimal rendering of a number is non-empty, all digits, with no leading zero |
| Decimal.Pad4 | meisai_checker/analyzers.py:43 | `{:04d}` yields only digits |
| Decimal.ParsePad4 | meisai_checker/analyzers.py:43 | the padded number reads back as itself, is exactly four characters below four digits, and is unpadded once it has four digits |
| Decimal.Pad4Injective | meisai_checker/analyzers.py:43 | distinct counter values give distinct padded renderings |
| Decimal.ParseDigitsOfDigits | meisai_checker/analyzers.py:43 | the decimal rendering reads back as the number |
| Decimal.ParseIgnoresLeadingZeros | meisai_checker/analyzers.py:43 | zero padding does not change the value read back |
| JsonValues.ToStr | meisai_checker/analyzers.py:130-133 | `str()` returns a string unchanged and renders every truthy value non-empty |
| JsonValues.PairsToDict | meisai_checker/analyzers.py:135 | `dict()` of a list succeeds exactly when every element is a string-keyed pair: a two-element list whose first element is a string, or a two-character string |
| JsonValues.PairsToDictKeys | meisai_checker/analyzers.py:135 | the keys of `dict()` of a list are the starting keys and the keys of its pairs |
| JsonValues.PairsToDictLastWins | meisai_checker/analyzers.py:135 | a key repeated in the list takes the value of its last pair |
| JsonValues.PairsToDictKeeps | meisai_checker/analyzers.py:135 | a starting entry that no pair names keeps its value |
| JsonValues.PairsToDictBuilds | meisai_checker/analyzers.py:135 | the built mapping is exactly the pairs inserted in order: the keys of the pairs, each with the value of its last pair |
| JsonValues.DictOf | meisai_checker/analyzers.py:135 | `dict()` succeeds exactly on a mapping, the empty string and a list of pairs; it copies a mapping, gives `{}` for the empty string, and builds a list's mapping pair by pair with the last value winning |
| Suggestions.ToDict | meisai_checker/analyzers.py:21-31 | `to_dict` has exactly the eight field names as keys, and reading it back returns the record unchanged |
| Suggestions.ToDictInjective | meisai_checker/analyzers.py:21-31 | two records with the same serialisation are equal |
| Suggestions.IdsDistinct | meisai_checker/analyzers.py:43 | `H-` identifiers of distinct numbers differ, `L-` identifiers of distinct numbers differ, and an `H-` identifier never equals an `L-` one |
| Heuristics.MarkRunEnd | meisai_checker/analyzers.py:39 | the greedy `[。、]` run from j ends at the first non-mark character |
| Heuristics.MarkRuns | meisai_checker/analyzers.py:39-41 | each rule-1 match lies after the scan start, within the line, and is at least two characters long |
| Heuristics.MarkRunsExact | meisai_checker/analyzers.py:39-41 | `finditer` of `[。、]{2,}` reports a span exactly when it is a maximal run of two or more marks |
| Heuristics.MarkRunsOrdered | meisai_checker/analyzers.py:41 | rule-1 matches come left to right and do not overlap |
| Heuristics.FindMarkRuns | meisai_checker/analyzers.py:41 | the scanning loop returns exactly the rule-1 matches |
| Heuristics.SpaceRunEndMaximal | meisai_checker/analyzers.py:71 | the greedy `\s+` run is whitespace throughout and ends at the first non-whitespace character |
| Heuristics.SpacingMatchesBounds | meisai_checker/analyzers.py:71-73 | each rule-3 match lies after the scan start, within the line, and is at least three characters long |
| Heuristics.SpacingMatchUnique | meisai_checker/analyzers.py:71 | the rule-3 pattern matches at p with end q exactly when the greedy attempt succeeds there with that end |
| Heuristics.SpacingMatchesSound | meisai_checker/analyzers.py:71-73 | every reported rule-3 span is a match of the pattern |
| Heuristics.SpacingMatchesComplete | meisai_checker/analyzers.py:71-73 | every position where the pattern matches is covered by a reported span |
| Heuristics.SpacingMatchesOrdered | meisai_checker/analyzers.py:73 | rule-3 matches come left to right and do not overlap |
| Heuristics.SpacingMatchesScanResult | meisai_checker/analyzers.py:71-73 | the rule-3 matches from the start of a line are ordered, sound and cover every match |
| Heuristics.SpacingMatchesCharacterised | meisai_checker/analyzers.py:71-73 | any ordered list of genuine matches that covers every match is exactly the list the rule-3 scan reports |
| Heuristics.MatchSpacingAt | meisai_checker/analyzers.py:71 | one match attempt returns whether the pattern matches at pos and where its whitespace run ends |
| Heuristics.SpacingScanStep | meisai_checker/analyzers.py:73 | after a match the scan resumes at its end; after a failed attempt it moves one character on |
| Heuristics.FindSpacingMatches | meisai_checker/analyzers.py:73 | the scanning loop returns exactly the rule-3 matches |
| Heuristics.NumberedAsAppend | meisai_checker/analyzers.py:51-52 | appending a finding together with its suggestion numbered by the next counter value keeps the suggestions numbered from 1 |
| Heuristics.NumberedAsNumbered | meisai_checker/analyzers.py:36-52 | suggestions numbered element by element are the numbered list of the findings |
| Heuristics.PunctuationLine | meisai_checker/analyzers.py:41-52 | the inner rule-1 loop over one paragraph appends a suggestion per match, in match order, numbered on from the shared counter, and leaves the counter one past the last |
| Heuristics.BracketLine | meisai_checker/analyzers.py:57-68 | the inner rule-2 loop over the four pairs appends a suggestion per pair whose counts differ, numbered on from the counter |
| Heuristics.SpacingLine | meisai_checker/analyzers.py:73-83 | the inner rule-3 loop appends a suggestion per spacing match, numbered on from the counter |
| Heuristics.PunctuationPass | meisai_checker/analyzers.py:39-52 | the rule-1 loop appends the rule-1 suggestions of every paragraph, in paragraph order, numbered from the counter on, and leaves the counter one past the last |
| Heuristics.BracketPass | meisai_checker/analyzers.py:55-68 | the rule-2 loop does the same for the bracket-pair findings |
| Heuristics.SpacingPass | meisai_checker/analyzers.py:71-83 | the rule-3 loop does the same for the spacing findings |
| Heuristics.HeuristicChecks | meisai_checker/analyzers.py:34-85 | `heuristic_checks` returns rule 1, then rule 2, then rule 3 over all paragraphs, numbered by one shared counter |
| Heuristics.NumberedAt | meisai_checker/analyzers.py:42-81 | the k-th suggestion has id `H-` k+1, and the category, severity, message, location and fix of its rule; evidence is None and autofix false |
| Heuristics.HeuristicIds | meisai_checker/analyzers.py:36-83 | identifiers run from `H-0001` with no gap, so they are pairwise distinct |
| Heuristics.HeuristicRuleOrder | meisai_checker/analyzers.py:38-83 | the output is three consecutive blocks: typo/low, then style/medium, then style/low |
| Heuristics.RuleOneKinds | meisai_checker/analyzers.py:40-51 | rule 1 yields only punctuation findings, in the paragraphs scanned |
| Heuristics.RuleTwoKinds | meisai_checker/analyzers.py:56-68 | rule 2 yields only bracket findings, in the paragraphs scanned |
| Heuristics.RuleThreeKinds | meisai_checker/analyzers.py:72-83 | rule 3 yields only spacing findings, in the paragraphs scanned |
| Heuristics.RuleOneExact | meisai_checker/analyzers.py:39-51 | rule 1 reports (paragraph, span, mark) exactly for the maximal runs of two or more marks, the fix being the run's first mark |
| Heuristics.BracketHitsExact | meisai_checker/analyzers.py:55-68 | rule 2 reports a pair in a paragraph exactly when its opening and closing counts differ, in the pairs' order |
| Heuristics.RuleTwoExact | meisai_checker/analyzers.py:56-68 | over all paragraphs, a bracket finding exists exactly for each pair whose counts differ, spanning the whole paragraph |
| Heuristics.SpacingHitsSound | meisai_checker/analyzers.py:73-81 | each spacing finding of a paragraph is a match of the pattern in it |
| Heuristics.RuleThreeSound | meisai_checker/analyzers.py:72-83 | over all paragraphs, every spacing finding is a real match in its own paragraph |
| Heuristics.RuleThreeComplete | meisai_checker/analyzers.py:72-83 | every match of the pattern in any paragraph is covered by a spacing finding of that paragraph |
| Heuristics.InReadingOrderAppend | meisai_checker/analyzers.py:40-41 | findings of a later paragraph appended after earlier ones keep reading order |
| Heuristics.RuleOneInReadingOrder | meisai_checker/analyzers.py:40-51 | rule-1 findings come in paragraph order, then left to right without overlap |
| Heuristics.RuleTwoInReadingOrder | meisai_checker/analyzers.py:56-68 | rule-2 findings come in paragraph order, then in the order of the bracket pairs |
| Heuristics.BracketHitsInReadingOrder | meisai_checker/analyzers.py:57-68 | rule 2 on one paragraph reports only that paragraph, in the order of the pairs |
| Heuristics.RuleThreeInReadingOrder | meisai_checker/analyzers.py:72-83 | rule-3 findings come in paragraph order, then left to right without overlap |
| HeuristicExamples.IdFormat | meisai_checker/analyzers.py:43 | the first identifier is `H-0001`, and the seventh fallback identifier is `L-0007` |
| HeuristicExamples.LongIdFormat | meisai_checker/analyzers.py:43 | a counter past four digits is not truncated: `H-12345` |
| HeuristicExamples.RepeatedStopExample | meisai_checker/analyzers.py:39-51 | `これは。。。テスト` gives one finding over [3, 6) whose fix is `。` |
| HeuristicExamples.OnlyRoundBrackets | meisai_checker/analyzers.py:55-68 | in a paragraph whose only brackets are ASCII parentheses, rule 2 reports at most the `()` pair, exactly when its counts differ |
| HeuristicExamples.UnclosedExample | meisai_checker/analyzers.py:55-68 | `これは(テストです` gives one `()` finding |
| HeuristicExamples.ClosedExample | meisai_checker/analyzers.py:55-68 | `これは(テスト)です` gives none |
| HeuristicExamples.SpacingExample | meisai_checker/analyzers.py:71-83 | `日本語 言葉` gives one finding over [2, 5) |
| HeuristicExamples.OverlapExample | meisai_checker/analyzers.py:71-83 | `日 本 語` gives one finding, because the character after the first space is consumed |
| HeuristicExamples.LatinExample | meisai_checker/analyzers.py:71-83 | `hello world` gives none |
| SemanticDetector.Objects | meisai_checker/analyzers.py:150 | the comprehension keeps exactly the mapping elements and never lengthens the list |
| SemanticDetector.ObjectsAppend | meisai_checker/analyzers.py:150 | the filter distributes over concatenation, so kept elements keep their relative order |
| SemanticDetector.ObjectsAllKept | meisai_checker/analyzers.py:150 | a list of mappings is kept whole, element by element |
| SemanticDetector.SafeJsonList | meisai_checker/analyzers.py:146-153 | a failed parse or a non-list gives `[]`; a list gives exactly its mapping elements |
| SemanticDetector.Convert | meisai_checker/analyzers.py:128-142 | a record is rebuilt exactly when its location converts to a dict; otherwise it is skipped |
| SemanticDetector.ConvertFields | meisai_checker/analyzers.py:128-138 | the rebuilt location is that conversion (the default `{0,0,0}` for a falsy one); falsy id, category, severity and message take their defaults, string values pass through, evidence and fix are copied, autofix is the value's truthiness |
| SemanticDetector.Survivors | meisai_checker/analyzers.py:126-142 | the records that survive are kept records of the input |
| SemanticDetector.SurvivorsComplete | meisai_checker/analyzers.py:126-142 | every record whose location converts survives: a malformed record is skipped without dropping the others |
| SemanticDetector.SurvivorsAppend | meisai_checker/analyzers.py:126-142 | survival distributes over concatenation, so survivors keep their input order |
| SemanticDetector.ReconstructSurvivors | meisai_checker/analyzers.py:124-143 | the k-th output is the k-th surviving record rebuilt with counter value k+1, so skipped records leave no gap |
| SemanticDetector.KeptStep | meisai_checker/analyzers.py:126-140 | a kept first record is output first, and the rest follows with the counter advanced |
| SemanticDetector.FallbackIds | meisai_checker/analyzers.py:130 | a kept record without a usable id gets `L-` and its position among the kept records |
| SemanticDetector.NothingSkipped | meisai_checker/analyzers.py:126-142 | when every location converts, every record yields a suggestion |
| SemanticDetector.ReconstructStep | meisai_checker/analyzers.py:126-142 | a skipped record leaves the counter as it is; a kept one is output before the rest, which continues with the counter advanced |
| SemanticDetector.Reconstruct | meisai_checker/analyzers.py:124-143 | the loop over the records returns exactly the specified reconstruction |
| SemanticDetector.LlmChecks | meisai_checker/analyzers.py:92-93 | with no key or an empty key the result is `[]` and the service is not contacted; otherwise the reconstruction of the parsed reply |
| SemanticExamples.FullRecordConverted | meisai_checker/analyzers.py:128-138 | a complete record keeps every field it gives |
| SemanticExamples.EmptyRecordConverted | meisai_checker/analyzers.py:128-138 | an empty record takes every default |
| SemanticExamples.TwoRecordReply | meisai_checker/analyzers.py:122-143 | a complete record and an empty one give two suggestions, the second being `L-0002`/other/medium with location {0,0,0} and autofix false |
| SemanticExamples.ListLocationConverted | meisai_checker/analyzers.py:135 | a location given as a list of pairs becomes a mapping, a repeated key taking its last value |
| SemanticExamples.BadLocationSkipped | meisai_checker/analyzers.py:135-142 | a record whose location is a number is dropped, and the next record takes `L-0001` |
| SemanticExamples.MalformedReply | meisai_checker/analyzers.py:146-153 | a failed parse, an object reply, and a list without objects all give `[]` |
| WordIo.ReplaceAllLengthOrder | meisai_checker/word_io.py:41 | a value no shorter than the key never shortens the text, and one no longer never lengthens it |
| WordIo.ReplaceAllLengthChanges | meisai_checker/word_io.py:41 | when the key occurs, a value of another length changes the text's length |
| WordIo.AbsentKeyUnchanged | meisai_checker/word_io.py:41 | a key that does not occur leaves the text unchanged |
| WordIo.SelfReplaceUnchanged | meisai_checker/word_io.py:41 | replacing a key by itself leaves the text unchanged |
| WordIo.SameLengthReplaceChanges | meisai_checker/word_io.py:41 | an occurring key replaced by a different value of the same length changes the text |
| WordIo.ReplaceUnchangedIff | meisai_checker/word_io.py:41 | one replacement leaves the text unchanged exactly when the key does not occur or the value is the key |
| WordIo.ReplaceWhole | meisai_checker/word_io.py:41 | inserted text is not rescanned: the key as the whole text becomes the value once, even when the value contains the key |
| WordIo.ReplacedAppend | meisai_checker/word_io.py:39-41 | applying two mappings in sequence is applying their entries one after another, later entries seeing earlier output |
| WordIo.ReplacedUnchanged | meisai_checker/word_io.py:38-42 | when no non-empty key occurs (in particular for an empty mapping) the text is returned unchanged |
| WordIo.ApplyReplacements | meisai_checker/word_io.py:38-42 | the loop applies each non-empty entry in order, skipping empty keys |
| WordIo.Split | meisai_checker/word_io.py:14 | the newline split, the inverse of the paragraph join used to state its round trip, yields at least one piece |
| WordIo.SplitPrefix | meisai_checker/word_io.py:14 | a newline-free prefix joins the first piece of the split |
| WordIo.SplitJoin | meisai_checker/word_io.py:11-14 | splitting the full text at newlines recovers every paragraph, empty ones included, when no paragraph holds a newline |
| WordIo.JoinLength | meisai_checker/word_io.py:14 | the full text has the paragraphs' length plus one separator between each two |
| WordIo.Texts | meisai_checker/word_io.py:12-13 | one text per paragraph, in document order |
| WordIo.ReadDocxText | meisai_checker/word_io.py:7-14 | the full text is the newline join of the paragraph texts, and splits back into them |
| WordIo.Blanks | meisai_checker/word_io.py:28-29 | cleared runs have empty text |
| WordIo.TextPrepend | meisai_checker/word_io.py:30-31 | the paragraph text is the first run's text followed by the others' |
| WordIo.Rewritten | meisai_checker/word_io.py:28-33 | a rewritten paragraph has the new text, in the same number of runs, or in one new run when there were none |
| WordIo.RewriteParagraph | meisai_checker/word_io.py:23-33 | a paragraph's text becomes the replaced text; its runs are untouched when the text does not change |
| WordIo.WriteWithReplacements | meisai_checker/word_io.py:17-33 | every paragraph's text becomes its replaced text, and paragraphs whose text does not change keep their runs; a mapping with no occurring non-empty key leaves the whole document as it was |
| WordIo.NoMatchKeepsDocument | meisai_checker/word_io.py:23-33 | when no key occurs (in particular for an empty mapping) the written document is identical to the input |
| WordIoExamples.NoRescan | meisai_checker/word_io.py:41 | replacing `a` by `aa` in `a` gives `aa` and in `ab` gives `aab` |
| WordIoExamples.NonOverlapping | meisai_checker/word_io.py:41 | replacing `aa` by `b` in `aaa` gives `ba` |
| WordIoExamples.EmptyKeySkipped | meisai_checker/word_io.py:40 | an entry with an empty key does nothing |
| WordIoExamples.OrderMatters | meisai_checker/word_io.py:39-41 | the same two entries in opposite orders give `cc` and `bc` from `ab` |
| WordIoExamples.EmptyParagraphKept | meisai_checker/word_io.py:14 | an empty paragraph stays as an empty line of the full text |

## Left out

- The language-model call: client construction, prompts, the truncation of the inputs to 4000 and 8000 characters, and the request itself (`meisai_checker/analyzers.py:95-121`). These are a foreign network API. `SemanticDetector.LlmChecks` takes the parsed reply as an input and reports through `contacted` whether the call would be made.
- `json.loads`: its result is an input `Option<Json>`, where None stands for a parse error. A reply whose content is None or empty becomes `"[]"`, which gives the same empty result as a parse error.
- Floating-point JSON numbers: the model's numbers are integers.
- JsonValues.ToStr: `str()` of a non-empty list or dict is rendered as `[...]`/`{...}` rather than its full repr. Only non-emptiness matters to the callers, and that is proved.
- JsonValues.PairsToDict: `dict()` of a list whose pairs have integer, boolean or None keys (`[[1, "x"]]`), or whose elements are two-key objects, succeeds in Python but fails in the model, because a location is a map from strings.
- JsonValues.DictOf: the same gap for a list-valued argument, through `JsonValues.PairsToDict`.
- SemanticDetector.Convert: through `JsonValues.DictOf`, a record whose list-valued location has such pairs is skipped here but kept by Python.
- python-docx: loading and saving documents, creating the output directory, and updating runs in place (`meisai_checker/word_io.py:8-10`, `20-22`, `34-35`). Paragraphs are sequences of run texts and are rewritten as values, so aliasing between run objects is not modelled.
- WordIo.Text: a paragraph's text is the concatenation of its runs. python-docx also counts text inside hyperlinks and other inline content, which the model does not have.
- The dict iteration order of the replacement mapping is taken as the given sequence of entries. Distinct keys are not required, since nothing depends on them.
- `meisai_checker/main.py` is not part of this model: argument parsing, file checks, the report writer, and the concatenation of heuristic and semantic results. The same goes for `meisai_checker/guidelines_loader.py` (file-system walk and PDF/Word extraction), `meisai_checker/config.py` (environment loading) and `app/streamlit_app.py` (user interface).
- Rule 2 counts brackets only. It does not check their order: `)(` is balanced. This is as the source does it.
