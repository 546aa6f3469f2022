# Natural-language filter pipeline: a Dafny model

The application lets a user filter a table of vehicle import records by
typing a condition in plain words. `app.py` builds a prompt around the
request, sends it to a text-generation backend, and cleans the reply into
Python code. It then drops the code's comment lines, prefixes `result = `
and runs the program with `exec` against the dataframe. Any `Exception`
raised while running the code becomes a `ValueError` with a fixed message
prefix; an exception outside `Exception` passes through unchanged.

This project models the four string-level steps of that pipeline as pure
functions over `seq<char>`. It proves what each step guarantees:

- `Strings`: the Python `str` operations the steps are built from. These
  are `strip()` (over CPython's exact `isspace` set), `in`/`find`,
  `split(sep)`, `sep.join`, `replace(p, '')` and `splitlines()` (with all of
  Python's line boundaries, `\r\n` counting as one).
- `Prompt`: `apply_prompt_template`, the fixed Spanish instruction text
  with the request spliced in.
- `Extract`: the clean-up in `get_gemini_code`. It trims the reply. When
  the trimmed reply holds a ```` ``` ````, it keeps only the text between the
  first and second fence, or from the first fence to the end when there is
  no second. Then it deletes every `python` and trims again.
- `Program`: the comment-line filter and the `result = ` prefix in
  `execute_python_code`.
- `Execution`: the `except` chain of `execute_python_code`, and the whole
  function with `exec` supplied as a parameter.

The backend call and `exec` are parameters. `get_gemini_code` takes the
backend as a function `generate: string -> string`. `execute_python_code`
takes `run: string -> RunOutcome<V>`. A run either finishes with its local
bindings or raises an exception of a given kind with a given text.

Three behaviours of the code are easy to misread. The model follows the
code in each:

- The code does not strip only a leading language tag from the fenced
  block. It deletes every `python` anywhere in the block, in one
  left-to-right pass. `Strings.RemoveAllSinglePass` shows that this pass can
  create a new `python`.
- There are three `ValueError` messages, one per `except` clause. A
  `BaseException` that is not an `Exception` (such as `SystemExit`) is not
  caught and propagates. The model keeps it as `Execution.NotAnException`.
- A run that finishes without binding `result` fails on the lookup
  `local_vars['result']` inside the same `try`. It is reported as
  `KeyError in the generated code: 'result'`.

## Model

| member | source | states |
|---|---|---|
| Strings.SkipSpace | app.py:78 | scanning forward from `i` stops at the first character that is not whitespace, or at the end, and everything passed over is whitespace |
| Strings.SkipSpaceBack | app.py:78 | scanning backward stops after the last character that is not whitespace, never before `lo`, and everything passed over is whitespace |
| Strings.SkipSpaceIs | app.py:78 | any position reached over whitespace only and standing on a non-space character (or the end) is where the forward scan stops |
| Strings.SkipSpaceBackIs | app.py:78 | any position reached backward over whitespace only and standing after a non-space character (or at `lo`) is where the backward scan stops |
| Strings.IsSpace | app.py:78 | the characters `str.isspace()` accepts, which are the ones `strip()` removes; `Strings.Strip` and `Strings.StripUnique` state what trimming over them yields |
| Strings.StartsWith | app.py:88 | `str.startswith(prefix)`: the prefix is no longer than the text and equals its first characters |
| Strings.Strip | app.py:78 | `strip()` returns a contiguous piece of the input with no whitespace at either end, and only whitespace is removed on either side |
| Strings.StripUnique | app.py:78 | any split of a string into whitespace, a stripped core and whitespace has `Strip` as its core, so `strip()` is fully determined |
| Strings.StripIdempotent | app.py:82 | trimming an already trimmed string changes nothing |
| Strings.StripKeepsFirst | app.py:88 | a line starting with a non-space character keeps that character first after `strip()` |
| Strings.FindFromSpec | app.py:80-81 | a search from index `k` reports an occurrence with none between `k` and it, and reports none only when nothing occurs from `k` on |
| Strings.FindSpec | app.py:80-81 | `find` reports the leftmost occurrence when one exists, and reports none exactly when the pattern is not `in` the string |
| Strings.FindReportsFirst | app.py:80-81 | the leftmost occurrence is unique and `find` reports it |
| Strings.AroundOccurrence | app.py:81 | a string is the text before an occurrence, the occurrence itself, and the text after it |
| Strings.NothingBeforeFirst | app.py:81 | the text before the leftmost occurrence does not contain the pattern |
| Strings.Contains | app.py:80 | `p in s`, given meaning by `Strings.FindSpec` (no match is reported exactly when it does not hold) and by `Strings.SplitSpec` (a second piece exists exactly when it holds) |
| Strings.ContainsOfStrip | app.py:78-80 | whatever the trimmed reply contains, the raw reply contains |
| Strings.StripKeepsOccurrence | app.py:78-80 | for a pattern that neither starts nor ends with whitespace, the trimmed text contains it exactly when the raw text does |
| Strings.Join | app.py:88 | `sep.join(parts)`, pinned by `Strings.SplitSpec` (joining the pieces of `split` gives the input back), `Strings.SplitLinesOfJoin` and `Strings.JoinOfSplitLines` |
| Strings.JoinLength | app.py:81 | a joined text is at least as long as its first piece |
| Strings.Split | app.py:81 | `split(sep)` always yields at least one piece |
| Strings.SplitSpec | app.py:81 | no piece of `split(sep)` contains `sep`, joining the pieces with `sep` gives the input back, and there is a second piece exactly when `sep` occurs |
| Strings.FirstPiece | app.py:81 | the first piece of `split` is the text before the leftmost separator, or the whole string when there is none |
| Strings.SplitStep | app.py:81 | `split` cuts off the text before the leftmost separator and carries on after the separator |
| Strings.RemoveAll | app.py:82 | `replace(p, '')` never lengthens the string |
| Strings.RemoveAllWithout | app.py:82 | `replace(p, '')` leaves a string without `p` untouched |
| Strings.RemoveAllStep | app.py:82 | `replace(p, '')` keeps the text before the leftmost `p`, drops that `p`, and carries on after it |
| Strings.RemoveAllLength | app.py:82 | each removal shortens the string by exactly `len(p)`, once per separator `split` finds |
| Strings.RemoveAllIsJoinOfSplit | app.py:82 | `s.replace(p, '')` equals `''.join(s.split(p))` |
| Strings.RemoveAllSinglePass | app.py:82 | removal is a single pass: `"pypythonthon"` becomes `"python"` |
| Strings.LineEnd | app.py:88 | the end of the current line is at or after its start, and it is either the end of the text or a line-break character |
| Strings.LineEndSpec | app.py:88 | no line-break character lies inside the current line |
| Strings.LineEndIs | app.py:88 | the first line-break character (or the end) is where the line ends, and nowhere else |
| Strings.SplitLines | app.py:88 | `splitlines()`, pinned by `Strings.SplitLinesAreLines`, `Strings.SplitLinesAtBreak`, `Strings.SplitLinesOfJoin` and `Strings.JoinOfSplitLines` |
| Strings.SplitLinesAreLines | app.py:88 | `splitlines()` yields line-break-free lines, and no lines at all exactly for the empty string |
| Strings.DropTrailingEmptyMembers | app.py:88 | dropping a final empty line loses no other line and invents none |
| Strings.SplitLinesOfLine | app.py:88 | a single line splits into itself, or into nothing when empty |
| Strings.SplitLinesAfterNewline | app.py:88 | a line followed by `\n` is the first line whatever follows |
| Strings.SplitLinesAtBreak | app.py:88 | at any line break, including a two-character `\r\n`, the first line is cut off and splitting carries on after the break |
| Strings.SplitLinesOfJoin | app.py:88 | splitting the `"\n"`-join of lines gives the lines back, except a final empty line |
| Strings.JoinOfSplitLines | app.py:88 | when `\n` is the only line break, joining the lines of `s` with `"\n"` rebuilds `s` up to a final `\n` |
| Strings.PrependBeforeBreak | app.py:89 | text without line breaks put before a string that has one joins its first line, and the other lines are unchanged |
| Strings.PrependToFirstLine | app.py:89 | prefixing a non-empty line extends the first line and leaves the other lines alone |
| Prompt.Frame | app.py:48-72 | a request framed by fixed text starts with the text before it, ends with the text after it, holds the request verbatim in between, and is as long as the three |
| Prompt.FrameOfUnframe | app.py:48-72 | any text that starts with the fixed front and ends with the fixed back, the two not overlapping, is the frame of what lies between them |
| Prompt.ApplyPromptTemplate | app.py:47-72 | the prompt is defined for every request, including the empty one; it starts with the fixed preamble, ends with the fixed closing, holds the request verbatim between them, and its length is the sum of the three |
| Prompt.RequestRoundTrip | app.py:70 | the request can be read back out of its prompt |
| Prompt.PromptRoundTrip | app.py:47-72 | every text framed by the preamble and the closing is the prompt of the request between them |
| Prompt.TemplateInjective | app.py:70 | different requests give different prompts |
| Extract.FencedSegment | app.py:81 | `split('```')[1]` exists once a fence occurs, contains no fence, and is shorter than the reply by at least the fence |
| Extract.FenceSurvivesStrip | app.py:78-80 | the trimmed reply holds a fence exactly when the raw reply does, since a backtick is not whitespace |
| Extract.ExtractCode | app.py:78-83 | extraction never fails, its result has no whitespace at either end, and a reply whose trimmed form has no fence (equivalently, a reply with no fence) is only trimmed |
| Extract.SegmentBetweenFences | app.py:80-81 | the kept segment is the text between the first and second fence, or from the first fence to the end |
| Extract.FencedReplyIsSegment | app.py:78-83 | for a fenced reply the code is that segment with every `python` deleted, then trimmed |
| Extract.PlainCodeIsFixed | app.py:78-83 | trimmed code without a fence passes through extraction unchanged |
| Extract.GetGeminiCode | app.py:74-83 | the code for any backend reply is trimmed, and a reply whose trimmed form has no fence is only trimmed |
| Program.IsComment | app.py:88 | `line.strip().startswith("#")`; `Program.CodeLineIsNotComment` and `Program.KeepCode` state what it decides |
| Program.KeepCode | app.py:88 | a line is kept if and only if its trimmed text does not start with `#`; the kept lines are a subsequence of the input lines |
| Program.CodeLineIsNotComment | app.py:88 | a line starting with neither whitespace nor `#` is never dropped |
| Program.KeepCodeAppend | app.py:88 | filtering a concatenation is concatenating the filtered parts |
| Program.KeepCodeIdempotent | app.py:88 | filtering the kept lines again drops nothing |
| Program.KeepCodeUnchanged | app.py:88 | the filter changes the lines exactly when one of them is a comment |
| Program.FilterComments | app.py:88 | the whole `clean_code` expression; `Program.FilteredLines` and `Program.FilteredCodeHasNoComments` state what it yields |
| Program.FilteredLines | app.py:88 | the lines of the filtered code are the kept lines, minus a final empty one |
| Program.FilteredCodeHasNoComments | app.py:88 | no line of the filtered code is a comment, and every non-empty non-comment input line survives |
| Program.FilterNotIdempotent | app.py:88 | filtering twice can differ from filtering once at the string level (`"x\n\n"`, then `"x\n"`, then `"x"`) |
| Program.AssembleProgram | app.py:89 | the program handed to `exec` always starts with the literal `result = ` |
| Program.ProgramLines | app.py:88-89 | the program's lines are the filtered lines with `result = ` glued to the first, or `result = ` alone |
| Program.ProgramHasNoComments | app.py:88-90 | no line of the program `exec` runs is a full-line comment |
| Execution.PrefixesDiffer | app.py:94-98 | no message can carry two of the three prefixes |
| Execution.ReportFailure | app.py:93-98 | `SyntaxError`, `KeyError` and any other `Exception` each become a `ValueError` with its own prefix followed by the exception's text; only a non-`Exception` is passed through |
| Execution.ReportRoundTrip | app.py:93-98 | the kind and the text of a reported failure can be read back from its message |
| Execution.ReportInjective | app.py:93-98 | different failures give different reports |
| Execution.ExecutePythonCode | app.py:85-98 | the program run is `result = ` plus the filtered code; the caller gets `result` when the run bound it; a missing `result` is a `KeyError` report; every `Exception` becomes a prefixed `ValueError`; only a non-`Exception` escapes |

## Left out

- The Streamlit page, its widgets and the `st.cache_data` memoisation
  (app.py:11-13, 31-34, 121-158) are user-interface plumbing. So is the
  `Error: ` that the page puts before a `ValueError` when it shows it
  (app.py:154-155).
- Writing the credentials file and setting `GOOGLE_APPLICATION_CREDENTIALS`
  and the API key (app.py:37-45) are file I/O and process-wide state.
- The Gemini call (app.py:75-77) goes over the network and is not
  deterministic. It is the parameter `generate` of `Extract.GetGeminiCode`,
  and the reply is the input of `Extract.ExtractCode`. `generate` is a
  total function, so a failing backend call is not modelled. Neither is
  `response.text` raising on a blocked reply.
- `exec` and the dataframe it produces (app.py:90-91) are arbitrary Python
  evaluation. It is the parameter `run` of `Execution.ExecutePythonCode`,
  and the value bound to `result` is an opaque type parameter.
- `load_data` (app.py:101-119) uses cloud storage, parquet, pandas date
  coercion and Unicode upper-casing, all foreign libraries.
- `download_compressed_xlsx` (app.py:17-28) uses the spreadsheet and zip
  writers.
- Strings.Split: requires a non-empty separator. Python raises `ValueError`
  on an empty one, and the code only ever splits on ```` ``` ````.
- Strings.RemoveAll: requires a non-empty pattern. The code only removes
  `python`, and `replace` with an empty pattern is never used.
- Characters are Unicode scalar values. A Python string holding a lone
  surrogate cannot be represented.
