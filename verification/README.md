# text-to-cad: the string layer between the model and `exec`

The text-to-cad back end asks a language model for CadQuery code, runs that
code and serves the STEP file it exports. Two revisions of the back end
exist, `text-to-cad/app.py` and `text-to-cad/app2.py`. Between the untrusted
text (the model's reply, the ID in a download URL) and the dangerous calls
(`exec`, opening a file), both revisions have a small layer of deterministic
string handling. This project models that layer in Dafny and proves what it
guarantees.

- `wrappers.dfy` (`Wrappers`): the `Option` type.
- `text.dfy` (`Text`): the Python `str` operations the layer uses, written
  out as sequence functions. They are `isspace`, `strip`, `lstrip`,
  `lower`, `in`, `find`, `split` and `join`. It also holds the lemmas that
  relate them, such as the `split`/`join` round trips and the fact that
  each line of a stripped text, once stripped, equals some stripped line of
  the original (`strip` may also drop whole blank lines at either end).
- `markdown.dfy` (`Markdown`): the "```" and "```python" markers.
- `fence.dfy` (`FenceExtraction`): the first revision's fence extraction in
  `text_to_cadquery`. It keeps the body of the first markdown fence of the
  reply, preferring a "```python" fence, and trims it.
- `cleaning.dfy` (`Cleaning`): the second revision's `clean_llm_code`.
  - It deletes every "```python" or "```" marker, together with the
    whitespace after it.
  - It drops every line that starts with a conversational opener once
    trimmed and lower-cased.
  - It joins the remaining lines and trims the result.
  - The line loop is a method with a `for` loop. The function `Cleaned`
    specifies it.
- `gate.dfy` (`SafetyGate`): the second revision's denylist `is_safe_code`.
- `stepids.dfy` (`StepIds`): the two download-ID checks of `get_step`, and
  the path built from an accepted ID with POSIX `os.path.join`.
- `execution.dfy` (`Execution`): the result contract of `execute_cadquery`
  in both revisions. Running the code, exporting the STEP file and the
  fresh UUID are parameters.

Two facts about `clean_llm_code` are worth stating plainly:
- it drops a conversational line wherever it occurs, not only among the
  leading lines;
- it deletes only the markers and keeps the text outside the fences.

Python's `$` in `re.match(r'^[a-f0-9\-]+$', ...)` also matches before one
final newline. The model keeps this: `IdCheck2TrailingNewline` shows "0\n"
is accepted.

In the first revision's python branch, the reply is cut at the next
"```python" before it is cut at "```". This differs from "up to the next
```" only when extra backticks come right before a second "```python".
`ExtractPython` states the exact composition. `ExtractPythonToFence`
states the usual reading under that condition. `ExtractStrayBacktick` and
`StrayUpToFence` give a reply on which the two readings differ.

## Model

| member | source | states |
|---|---|---|
| Text.IsSpace | text-to-cad/app.py:90 | the whitespace of `strip` and of `\s` is never a backtick, a letter or a digit, so trimming and the `\s*` after a marker never remove code characters |
| Text.Strip | text-to-cad/app.py:90 | `str.strip()`: the result has no whitespace at either end, and it is the slice of the input with only whitespace around it |
| Text.StripUnique | text-to-cad/app.py:90 | a slice padded only by whitespace, with no whitespace at its own ends, is the strip; so the strip is determined by the text |
| Text.StripIdempotent | text-to-cad/app2.py:61 | stripping twice is stripping once |
| Text.StripPadded | text-to-cad/app2.py:57 | whitespace added at either end does not change the strip |
| Text.StripAvoids | text-to-cad/app.py:90 | stripping cannot create an occurrence of a substring |
| Text.LStrip | text-to-cad/app2.py:50 | the `\s*` after a marker: the result is a suffix that does not start with whitespace |
| Text.LStripPadded | text-to-cad/app2.py:50 | the leading whitespace run is removed exactly, and the rest is kept |
| Text.Lower | text-to-cad/app2.py:57 | `lower()` over ASCII: same length, with each letter lower-cased in place |
| Text.IndexOf | text-to-cad/app.py:85-86 | the left-to-right search finds the first occurrence, or reports that there is none |
| Text.Contains | text-to-cad/app.py:85 | `t in s` holds exactly when `t` occurs in `s` |
| Text.Before | text-to-cad/app.py:86 | `split(sep)[0]`: the text before the first `sep`, or all of it |
| Text.After | text-to-cad/app.py:86 | the text after the first `sep` |
| Text.BeforeAvoids | text-to-cad/app.py:86 | the text before the first `sep` holds no `sep` |
| Text.Split | text-to-cad/app2.py:53 | `split(sep)` gives at least one piece |
| Text.Join | text-to-cad/app2.py:61 | `sep.join(parts)` starts with the first part and ends with the last |
| Text.SplitFirstPieces | text-to-cad/app.py:86-88 | pieces 0 and 1 of a split are the texts before the first `sep`, and between the first and second `sep` |
| Text.JoinSplit | text-to-cad/app2.py:53-61 | joining the pieces of a split with the same separator gives back the text |
| Text.SplitJoin | text-to-cad/app2.py:53-61 | splitting the join of pieces that hold no separator gives back the pieces |
| Text.SplitPiecesAvoidSep | text-to-cad/app2.py:53 | no piece of a split holds the separator |
| Text.SplitPiecesAvoid | text-to-cad/app2.py:53 | a substring absent from the text is absent from every piece |
| Text.JoinAvoids | text-to-cad/app2.py:61 | joining with a character not in `f` creates no `f` |
| Text.SplitSepThenFree | text-to-cad/app.py:225 | a separator followed by text without it adds exactly one last piece |
| Text.StripLinesCovered | text-to-cad/app2.py:61 | every line of a stripped text, once stripped, equals some stripped line of the original |
| FenceExtraction.FenceBody | text-to-cad/app.py:85-88 | the text the branches select never holds "```" |
| FenceExtraction.ExtractCode | text-to-cad/app.py:84-90 | the extracted code never holds "```" and has no whitespace at either end |
| FenceExtraction.ExtractUnfenced | text-to-cad/app.py:85-90 | a reply without "```" is only trimmed |
| FenceExtraction.ExtractPython | text-to-cad/app.py:85-86 | with "```python": the text after the first one, cut at the next "```python" and then at the next "```", trimmed |
| FenceExtraction.ExtractPythonToFence | text-to-cad/app.py:85-86 | with "```python" and no extra backticks before a second one: the text up to the next "```" or the end, trimmed |
| FenceExtraction.ExtractPlain | text-to-cad/app.py:87-88 | with "```" but no "```python": the text between the first and second "```", or all after the only one, trimmed |
| FenceExtraction.BeforePyThenFence | text-to-cad/app.py:86 | cutting at "```python" then at "```" equals cutting at "```", unless "```python" follows an extra backtick |
| FenceExtraction.ExtractStrayBacktick | text-to-cad/app.py:85-86 | a reply on which the python branch returns a lone backtick |
| FenceExtraction.StrayUpToFence | text-to-cad/app.py:85-86 | on that reply, the text up to the next "```" would be empty |
| Cleaning.RemoveFenceMarkers | text-to-cad/app2.py:50 | the `re.sub` scan: no "```" is left in the result, and a result starting with one or two backticks comes from a text starting with them |
| Cleaning.RemoveFenceMarkersIdentity | text-to-cad/app2.py:50 | text without "```" is left as it is |
| Cleaning.RemoveFenceMarkersIdempotent | text-to-cad/app2.py:50 | deleting the markers twice is deleting them once |
| Cleaning.RemoveFenceMarkersKeepsPlain | text-to-cad/app2.py:50 | text in which no "```" starts is kept unchanged and in order, before whatever the rest becomes |
| Cleaning.RemoveMarker | text-to-cad/app2.py:50 | a "```python" (or a "```" not starting one) is deleted with the whitespace after it, and the text before it, in which no "```" starts, is kept |
| Cleaning.IsConversational | text-to-cad/app2.py:57 | the opener test on the trimmed, lower-cased line; a dropped line has at least four characters once trimmed and starts with one of "hstbHSTB", so blank lines are always kept |
| Cleaning.ConversationalByStrip | text-to-cad/app2.py:57 | whether a line is conversational depends only on its trimmed text |
| Cleaning.ConversationalPadded | text-to-cad/app2.py:57 | whitespace around a line does not change whether it is conversational |
| Cleaning.EmptyLineIsCode | text-to-cad/app2.py:57 | an empty line is kept |
| Cleaning.CodeLines | text-to-cad/app2.py:55-59 | a line is kept exactly when it is one of the input lines and not conversational |
| Cleaning.CodeLinesAppend | text-to-cad/app2.py:55-59 | filtering distributes over concatenation, so kept lines keep their order |
| Cleaning.CodeLinesSingle | text-to-cad/app2.py:57-59 | a single line is kept exactly when it is not conversational |
| Cleaning.CodeLinesAllCode | text-to-cad/app2.py:55-59 | when no line is conversational, all lines are kept unchanged |
| Cleaning.Cleaned | text-to-cad/app2.py:47-61 | the trimmed newline-join of the kept lines of the de-fenced text: it holds no "```", has no whitespace at either end, and no line of it, trimmed and lower-cased, starts with an opener |
| Cleaning.CleanLlmCode | text-to-cad/app2.py:47-61 | the loop returns the trimmed newline-join of the kept lines; the result holds no "```", has no whitespace at either end, and none of its lines is conversational |
| Cleaning.CleanedIdempotent | text-to-cad/app2.py:47-61 | cleaning a cleaned text changes nothing |
| SafetyGate.AnyOccurs | text-to-cad/app2.py:66 | `any(item in code ...)` holds exactly when some item occurs in the code |
| SafetyGate.IsSafeCode | text-to-cad/app2.py:63-66 | code is safe exactly when none of the eight forbidden strings occurs in it |
| SafetyGate.UnsafeStaysUnsafe | text-to-cad/app2.py:65-66 | text added before or after unsafe code leaves it unsafe |
| SafetyGate.SafeSliceIsSafe | text-to-cad/app2.py:65-66 | any slice of safe code is safe |
| SafetyGate.ExecPassesGate | text-to-cad/app2.py:65 | the denylist does not name `exec`: "exec(x)" passes |
| SafetyGate.ImportOsIsUnsafe | text-to-cad/app2.py:65 | "import os.path" is refused |
| StepIds.PathJoin | text-to-cad/app.py:225 | POSIX `os.path.join`: an absolute name replaces the directory; otherwise the path starts with the directory and ends with the name, at most one character apart; under a non-empty directory not ending in '/', a name without '/' is exactly one more path component |
| StepIds.StepPath | text-to-cad/app.py:225 | for an ID without '/' under such a directory, the path's components are the directory's plus `fileId + ".step"`, which is never "." or ".." |
| StepIds.RemoveAll | text-to-cad/app.py:222 | `replace('-', '')` keeps exactly the characters other than '-' |
| StepIds.IdCheck1 | text-to-cad/app.py:222 | `replace('-', '').isalnum()` accepts exactly the IDs of ASCII letters, digits and '-' that hold at least one letter or digit |
| StepIds.IdCheck1RefusesDashes | text-to-cad/app.py:222 | the empty ID and IDs made only of '-' are refused |
| StepIds.IdCheck1Safe | text-to-cad/app.py:222-225 | an accepted ID holds no '/', no '\\' and no '.' |
| StepIds.ClassRun | text-to-cad/app2.py:136 | the greedy `[a-f0-9\-]+` run: all class characters, stopped at the end or at a non-class character |
| StepIds.IdCheck2 | text-to-cad/app2.py:136 | the regex accepts exactly a non-empty word over `[a-f0-9-]`, optionally followed by one newline |
| StepIds.IdCheck2TrailingNewline | text-to-cad/app2.py:136 | "0\n" is accepted |
| StepIds.IdCheck2Safe | text-to-cad/app2.py:136-139 | an accepted ID holds no '/', no '\\' and no '.' |
| StepIds.GeneratedIdAccepted | text-to-cad/app2.py:85 | hex groups joined by '-' pass both checks |
| StepIds.GetStep1 | text-to-cad/app.py:218-225 | refuses with "Invalid file ID" exactly when the first check fails; otherwise the path's components are the STEP directory's plus `fileId + ".step"` |
| StepIds.GetStep2 | text-to-cad/app2.py:133-139 | refuses with "Invalid ID" exactly when the regex fails; otherwise the same path property |
| Execution.Describe1 | text-to-cad/app.py:123 | the message starts with "Error executing CadQuery code: " and ends with the traceback, so it is never empty |
| Execution.Describe2 | text-to-cad/app2.py:92-94 | the message starts with "Execution Error:" and ends with the traceback |
| Execution.RunAndExport | text-to-cad/app2.py:73-94 | the shared `try` block: exactly one of the ID and the error; the ID only when `result` is bound and the export succeeds; otherwise the matching message and no export |
| Execution.ExecuteCadquery1 | text-to-cad/app.py:98-123 | exactly one of the ID and the error is present, and the error is never empty; the ID only when `result` is bound and the export succeeds; the "must define a 'result'" message, with nothing exported, when `result` is unbound; the exception's message when running or exporting raises |
| Execution.ExecuteCadquery2 | text-to-cad/app2.py:68-94 | code is run exactly when it passes the gate; refused code gets the security error, no ID and no export; otherwise exactly one of the ID and the error, with the matching message for an unbound `result`, a raising run or a failing export |
| Execution.RefusedCodeIgnoresExecutor | text-to-cad/app2.py:70-71 | for refused code, the outcome does not depend on the executor, the exporter or the ID |
| Execution.ExportedFileIsServed | text-to-cad/app2.py:85-89 | an ID handed out in the generated shape is accepted by both download checks, and they serve the exported path |

## Left out

- Flask routing, JSON bodies, HTTP status codes, CORS, `send_file` and `send_from_directory` are web I/O and are not modelled.
- The Anthropic client and the Ollama `requests.post` call are network calls. The model's reply is a parameter.
- `exec` of the generated code, `import cadquery` and `cq.exporters.export` run foreign code. They are the function parameters `run` and `exportStep`.
- `uuid.uuid4` is a parameter, `newId`. `tempfile`, `os.makedirs` and the `os.path.exists` test are file-system effects: `GetStep1` and `GetStep2` stop before the existence test.
- StepIds.PathJoin: only the POSIX `os.path.join` is modelled. On Windows, `ntpath` also treats '\\' as a separator and knows drive letters; the model does not cover this.
- StepIds.IdCheck1: `isalnum` is modelled over ASCII letters and digits. Python also accepts non-ASCII letters and digits, which the model refuses.
- Text.Lower: only ASCII letters are lower-cased. No other character lowers to text that could complete "here is", "sure", "this code" or "below is", so the opener test is the same.
- Execution.ExecuteCadquery1: only `Exception` is caught. An exception outside that class, such as `KeyboardInterrupt`, is not modelled.
- The `/api/generate` and `/api/execute` handlers are not modelled. That includes the `strip()` of their inputs and their "No description provided" and "No code provided" checks.
- The stub `chat` handler and the prompt constants have no behaviour.
- The fix tables, syntax normalisation, vocabulary checks, error classification and retry loop are not part of this model. No code for them appears in either revision.
