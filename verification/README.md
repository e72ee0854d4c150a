# Text cleaning, idea parsing and payload extraction of procesador-pdf-inteligente

This Dafny project models the three pieces of pure string logic in the PDF study helper:

- **`clean_text`** (`limpieza_texto.py`). It runs four passes in a fixed order: squeeze runs of `\n`, delete characters outside the allowed alphabet, squeeze runs of spaces, and `strip()`.
- **The parsing tail of `call_gemini`** (`gemini_client.py`). It splits the model's reply into lines and keeps every line matching `^\s*\d+\.\s*(.+)`. From each match it takes the captured text, stripped. Empty and repeated ideas are dropped, and at most eight ideas are returned.
- **The tail of `call_deepseek`** (`deepseek_client.py`). The payload is the body of the first ```` ```json ```` or ```` ``` ```` fenced block, or the whole reply when there is no such block, stripped in both cases. The payload is decoded and its `"questions"` entry returned. Every failure gives `[]`.

The regular expressions are modelled directly as recursive functions over `string`, following Python's `re` semantics:

- greedy and lazy quantifiers;
- the backtracking of `\s*(.+)`;
- leftmost match for `re.search`.

The Python character classes are explicit predicates:

- `IsSpace` is `str.isspace`, which is also what `\s` and `strip()` use.
- `IsDigit` is Unicode category Nd, taken from Unicode 15.1, which is what `\d` uses.
- `IsLineBreak` holds the boundaries of `str.splitlines`. The pair `\r\n` counts as one boundary.

Modules:

- `CharClasses`: the character predicates.
- `PyStrings`: `strip`, `splitlines` and the subsequence relation.
- `Cleaner`: `clean_text`.
- `Ideas`: the idea parser.
- `Payload`: the fence search and result selection.
- `Wrappers`: `Option`.

These operations are each paired with an independent reference reading, with the lemma that connects the two:

- `CollapseRuns` with `DropRepeats`.
- The parsing loop `Collect` with `Dedup` of `Candidates`.
- `SearchFrom` with the declarative `MatchesAt` and `OpensBlock`, whose opening fence is pinned by the contract of `OpenAt`: a fence followed by `\n` or by `json\n` opens a block, and nothing else does.
- `Strip` with its uniqueness characterisation `StripUnique`.

## Model

| member | source | states |
|---|---|---|
| CharClasses.IsSpace | limpieza_texto.py:9-11 | `str.isspace`, the class of `\s` and of argument-less `strip()`: tab to carriage return, the separators `\x1c`-`\x1f`, space, `\x85`, no-break space, the Unicode space separators, and the line and paragraph separators U+2028 and U+2029 |
| CharClasses.IsLineBreak | gemini_client.py:34 | the characters at which `splitlines()` cuts: `\n`, `\v`, `\f`, `\r`, `\x1c`-`\x1e`, `\x85`, line and paragraph separators |
| CharClasses.IsDigit | gemini_client.py:36 | `\d` on `str` patterns: every decimal digit of Unicode category Nd |
| CharClasses.LineBreakIsSpace | gemini_client.py:34-39 | every line boundary is whitespace, so `strip()` also removes a boundary at either end |
| CharClasses.MarkerClassesDisjoint | gemini_client.py:36 | `\d`, `\s` and the literal dot `\.` are pairwise disjoint, so the leading whitespace and the digits of a marker are each fixed by the line |
| PyStrings.LeadingCount | gemini_client.py:36 | the count is the length of the longest prefix satisfying the predicate: everything before it satisfies it, and the character at it does not |
| PyStrings.Strip | limpieza_texto.py:11 | `strip()` returns a contiguous piece of its argument, with no whitespace at either end, removing only whitespace on both sides |
| PyStrings.StripUnique | limpieza_texto.py:11 | for any whitespace `w1`, `w2` and stripped `t`, `strip(w1 + t + w2) == t` |
| PyStrings.StripIgnoresLeadingSpace | gemini_client.py:36-39 | leading whitespace never changes the result of `strip()` |
| PyStrings.StrippedIsFixed | limpieza_texto.py:11 | `strip()` leaves text with no edge whitespace unchanged |
| PyStrings.StripIsInfix | deepseek_client.py:50 | `raw.strip()` is a substring of `raw` |
| PyStrings.StripIsSubseq | limpieza_texto.py:11 | the final `strip()` only deletes characters |
| PyStrings.SubseqTrans | limpieza_texto.py:8-11 | deletions compose: a subsequence of a subsequence is a subsequence, which chains the four passes |
| PyStrings.SubseqLength | limpieza_texto.py:8-11 | a subsequence is never longer than the text it is taken from |
| PyStrings.SplitLines | gemini_client.py:34 | `splitlines()` yields pieces that hold no line boundary, never more pieces than characters |
| PyStrings.SingleLine | gemini_client.py:34 | non-empty text without a boundary is one line |
| PyStrings.SplitLinesCons | gemini_client.py:34 | for any line, any boundary (`\r\n` as one) and any rest, `splitlines` yields the line followed by the lines of the rest; this covers empty lines and a trailing boundary |
| PyStrings.SplitCrLf | gemini_client.py:34 | `"a\r\nb"` splits into `"a"` and `"b"` |
| PyStrings.SplitEmptyLine | gemini_client.py:34 | `"a\n\n"` splits into `"a"` and `""` |
| PyStrings.SplitLoneCr | gemini_client.py:34 | `"\r"` is one empty line |
| PyStrings.SplitJoin | gemini_client.py:34 | splitting undoes joining with `\n` when no line holds a boundary and the last line is non-empty |
| Cleaner.CollapseRuns | limpieza_texto.py:8 | `re.sub(c{2,}, c, s)` leaves no two adjacent `c`; it returns `s` unchanged exactly when `s` had none, and otherwise something strictly shorter |
| Cleaner.CollapseRunsIsDropRepeats | limpieza_texto.py:8-10 | the run-by-run substitution equals the per-character reading: drop a `c` exactly when the next character is also `c` |
| Cleaner.CollapseRunsOnlyTouches | limpieza_texto.py:10 | with every `c` removed, input and output agree: squeezing touches only `c`, so tabs and `\r` runs stay |
| Cleaner.CollapseRunsKeepsNoRepeat | limpieza_texto.py:10 | squeezing spaces never puts two copies of another character side by side |
| Cleaner.CollapseRunsIsSubseq | limpieza_texto.py:8-10 | each squeezing pass only deletes characters |
| Cleaner.IsKept | limpieza_texto.py:9 | the complement of the deleted class: ASCII, `¡`, `¿` and `\s` |
| Cleaner.RemoveDisallowed | limpieza_texto.py:9 | the deletion pass leaves only ASCII, `¡`, `¿` and whitespace, only deletes, and leaves allowed text untouched |
| Cleaner.RemoveDisallowedIsMaximal | limpieza_texto.py:9 | every all-allowed subsequence of the input survives: only disallowed characters are deleted |
| Cleaner.StripKeepsNoRepeat | limpieza_texto.py:10-11 | the final `strip()` cannot bring two spaces (or two newlines) together |
| Cleaner.Squeezed | limpieza_texto.py:8-10 | after the first three passes the text is a subsequence of the input, inside the allowed alphabet, and never has two spaces in a row |
| Cleaner.CleanText | limpieza_texto.py:8-11 | the output is a subsequence of the input, has only allowed characters, never two spaces in a row, and no edge whitespace |
| Cleaner.CleanFixpoint | limpieza_texto.py:8-11 | `clean_text(s) == s` if and only if `s` is allowed-alphabet, has no `\n\n`, no two spaces and no edge whitespace |
| Cleaner.CleanOfClean | limpieza_texto.py:8-11 | text that is already clean comes back unchanged |
| Cleaner.FixedHasNoNewlineRepeat | limpieza_texto.py:8-11 | text that cleaning leaves unchanged has no `\n\n`: the newline pass would have shortened it |
| Cleaner.CleanTwiceIff | limpieza_texto.py:8-11 | a second cleaning changes the text exactly when the first left `\n\n` behind |
| Cleaner.SqueezedAllowedHasNoNewlineRepeat | limpieza_texto.py:8-10 | on allowed-alphabet input, no `\n\n` is left before the `strip()` |
| Cleaner.CleanAllowedHasNoNewlineRepeat | limpieza_texto.py:8-11 | on allowed-alphabet input, the output has no `\n\n` |
| Cleaner.CleanIdempotentOnAllowed | limpieza_texto.py:8-11 | on allowed-alphabet input, cleaning is idempotent |
| Cleaner.ExampleDeletion | limpieza_texto.py:9 | the accented `é` of `"a\né\nb"` is deleted |
| Cleaner.DeletionJoinsNewlines | limpieza_texto.py:8-11 | `clean_text("a\né\nb") == "a\n\nb"`: deletion runs after squeezing, so newlines can end up doubled |
| Cleaner.CleanNotIdempotent | limpieza_texto.py:8-11 | cleaning `"a\né\nb"` twice gives `"a\nb"`, not the `"a\n\nb"` of one cleaning |
| Cleaner.CleanKeepsTabRuns | limpieza_texto.py:10 | a run of tabs survives cleaning |
| Ideas.LastNonNewline | gemini_client.py:36 | the last position `.` can match, with only `\n` after it, or None when every character is `\n` |
| Ideas.RemainderGroup | gemini_client.py:36 | when `\s*(.+)` matches the remainder, the group is non-empty |
| Ideas.MarkerMatch | gemini_client.py:36 | when `re.match` succeeds, the line has a marker (whitespace, digits, dot, remainder) and the group is non-empty |
| Ideas.MarkerWitness | gemini_client.py:36 | the whitespace run, digit run and dot that the match consumes witness a marker when a remainder follows |
| Ideas.MarkerPrefix | gemini_client.py:36 | on a numbered line, `^\s*` and `\d+` end exactly at the marker's digits and dot |
| Ideas.MarkerMatchIff | gemini_client.py:36 | within one line, the pattern matches if and only if the line has a marker |
| Ideas.GroupAfterSpace | gemini_client.py:36 | without newlines, `(.+)` takes everything after the leading whitespace |
| Ideas.WholeLineRun | gemini_client.py:36 | in text without `\n`, `.+` from any position runs to the end |
| Ideas.GroupOfAllSpace | gemini_client.py:36 | when the remainder is all whitespace, `\s*` gives back the last character for `(.+)` |
| Ideas.RemainderGroupStrip | gemini_client.py:36-39 | any non-empty newline-free remainder matches, and its stripped group is the stripped remainder |
| Ideas.Idea | gemini_client.py:36-39 | an idea offered by a line has no edge whitespace |
| Ideas.MarkedLineIdea | gemini_client.py:36-39 | a numbered line offers exactly its text after the first dot, stripped |
| Ideas.BlankRemainder | gemini_client.py:36-39 | a marker followed only by whitespace offers the empty idea |
| Ideas.Offers | gemini_client.py:34-39 | one offer per line, in line order: the stripped group of that line's match, or None when it does not match |
| Ideas.Step | gemini_client.py:40-41 | one loop step keeps the list as a prefix and grows it by one exactly when the idea is non-empty and new, appending that idea; distinct lists stay distinct |
| Ideas.Collect | gemini_client.py:34-41 | the loop only appends, at most one idea per line, and keeps the list repetition-free |
| Ideas.Take | gemini_client.py:43 | `ideas[:n]` is the prefix of length `n`, or the whole list when it is no longer than `n` |
| Ideas.TakeOfDistinct | gemini_client.py:43 | the cut keeps the list repetition-free, and loses nothing when fewer than `n` remain |
| Ideas.Dedup | gemini_client.py:40-41 | the reference deduplication is repetition-free and has the same members as its input |
| Ideas.StepIsDedup | gemini_client.py:40-41 | one loop step extends the deduplicated candidates by the next offer |
| Ideas.CollectIsDedup | gemini_client.py:34-41 | the loop computes the deduplication of the non-empty offered ideas |
| Ideas.CollectFromEmpty | gemini_client.py:32-41 | the loop started from `ideas = []` equals the reference deduplication of the non-empty offered ideas |
| Ideas.DedupOfStripped | gemini_client.py:39-41 | every kept idea is non-empty and stripped |
| Ideas.CandidatesStripped | gemini_client.py:39 | if every offer is stripped, so is every candidate |
| Ideas.CandidatesComplete | gemini_client.py:38-41 | every non-empty offered idea is a candidate |
| Ideas.CandidatesSound | gemini_client.py:38-41 | every candidate is a non-empty offered idea |
| Ideas.FirstIndexAppend | gemini_client.py:40-41 | appending never moves a first occurrence |
| Ideas.DedupOrder | gemini_client.py:40-41 | deduplication lists values in order of first occurrence |
| Ideas.ParseIdeas | gemini_client.py:32-43 | at most 8 ideas, pairwise distinct, each non-empty and stripped; a prefix of the deduplicated offered ideas; and every offered idea when fewer than 8 are returned |
| Ideas.Select | gemini_client.py:38-43 | over the offers of the lines: at most 8 ideas, pairwise distinct, non-empty and stripped, a prefix of the deduplicated candidates, and all of them when fewer than 8 are returned |
| Ideas.ParseIdeasOrder | gemini_client.py:34-43 | returned ideas appear in the order of their first occurrence in the reply |
| Ideas.ParseIdeasEmptyIff | gemini_client.py:34-43 | the result is empty if and only if no line offers a non-empty idea |
| Ideas.UnnumberedTextHasNoIdeas | gemini_client.py:34-38 | content in which no line has a marker yields `[]` |
| Ideas.IdeaEdgesNotBreaks | gemini_client.py:34-43 | no returned idea starts or ends with a line boundary, because `strip()` removed it |
| Ideas.CallGemini | gemini_client.py:23-43 | a failed request gives `[]`; a reply gives at most 8 distinct, non-empty, stripped ideas forming a prefix of the deduplicated offered ideas, and all of them when fewer than 8 are returned |
| Ideas.FirstMarkerOnly | gemini_client.py:36-39 | only the first marker is consumed: `"1.2. foo"` offers `"2. foo"` |
| Ideas.SingleLineContent | gemini_client.py:34-43 | a one-line reply yields that line's idea when non-empty, and nothing otherwise |
| Ideas.ParseFirstMarkerOnly | gemini_client.py:34-43 | `ParseIdeas("1.2. foo") == ["2. foo"]` |
| Ideas.BlankIdeaDropped | gemini_client.py:36-40 | `"1.   "` contributes nothing |
| Ideas.UnnumberedLinesIgnored | gemini_client.py:36 | `"- foo"` and `"Idea 1: foo"` are not numbered lines |
| Payload.OpenAt | deepseek_client.py:49 | a block opens at `p` exactly when three backticks there are followed by `json\n` or by `\n`; the body starts right after that `\n` |
| Payload.OtherTagDoesNotOpen | deepseek_client.py:49 | a fence with any other tag, such as ```` ```python ````, opens no block |
| Payload.FenceFrom | deepseek_client.py:49 | the lazy body stops at the first closing fence |
| Payload.SearchFrom | deepseek_client.py:49 | `re.search` returns a match at the leftmost position where a block opens, and None when none opens |
| Payload.MatchOpensBlock | deepseek_client.py:49 | a match at a position means a block opens there |
| Payload.StripOfInfix | deepseek_client.py:50 | the stripped body of a block is a substring of the reply |
| Payload.ExtractPayload | deepseek_client.py:49-50 | the payload is stripped and a substring of the reply; with no block it is the stripped reply |
| Payload.PayloadOfLeftmostBlock | deepseek_client.py:49-50 | with a block matching at `p` and none opening earlier, the payload is that block's body, stripped |
| Payload.PayloadWithoutBlock | deepseek_client.py:50 | a reply without three backticks anywhere gives the stripped reply |
| Payload.CallDeepseek | deepseek_client.py:41-56 | the result is the decoded object's `"questions"` value when there is one, and `[]` on every failure |
| Payload.JsonFencePayload | deepseek_client.py:49-50 | ```` ```json\n{}\n``` ```` gives the payload `{}` |
| Payload.LazyBodyPayload | deepseek_client.py:49-50 | ```` ```\nab```cd``` ```` gives `ab`: the body ends at the first closing fence |
| Payload.PythonFencePayload | deepseek_client.py:49-50 | a ```` ```python ```` fence is not unwrapped: the payload is the whole reply, stripped |

## Left out

- The remote calls are parameters, not modelled code: for the Gemini model, `response` is the reply text, or None when the call raised (gemini_client.py:23-29); for DeepSeek, `response` is the reply content, or None when the request or `choices[0].message.content` failed (deepseek_client.py:42-47). This covers prompt construction, API-key loading, client set-up, the `num_questions` argument and the `json.dumps` of the request.
- The `print` of each error message is left out, because it is output only.
- `json.loads` is an abstract partial function `decode: string -> Option<Json>`, with None standing for any exception. The decoder's grammar is not modelled. JSON numbers are kept as their literal text.
- `IsDigit` follows the Unicode 15.1 digit table. A Python built on another Unicode version may classify a few characters differently.
- `metricas.py` (similarity scores from sentence embeddings, TF-IDF and `difflib`) is not modelled, because it is floating-point library numerics.
- `app.py` (the Streamlit UI), `extraer_pdf.py`, `extraer_tabla.py` (PDF and table extraction, CSV writing) and `gemini_client_analyser.py` are not modelled. They are file and UI I/O, plus remote calls; the table extractor only applies `clean_text` to each cell.
- Strings are sequences of Unicode scalar values. A reply or text containing lone surrogates, which Python strings allow, cannot be represented.
