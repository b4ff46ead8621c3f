# Content analyzer: a Dafny model of `analyze_content`

`ContentAnalyzer.analyze_content` (in `analysis.py`) does five things:

1. It reads every `.md` file of a directory into one content string. Each file's text is followed by a blank line.
2. It builds a processing prompt: a fixed preamble, then the first 10000 characters of that content.
3. It puts the system prompt, a blank line and the processing prompt together into the full prompt, and sends that to a remote model.
4. It writes a debug record: six `key: value` lines in a fixed order, to `processing_debug.txt`.
5. It cuts a CSV portion and a JSON portion out of the reply, using the marker words `CSV` and `JSON`, and writes each to its own file.

The project models that text handling. It is split over two modules.

- `Text` (`text.dfy`) holds the Python string operations, written as Dafny functions:
  - the `str.isspace` character set and `str.strip()`;
  - `s.find(sep)` and `sep in s`;
  - `str.split(sep)` and `sep.join`;
  - `str.endswith`;
  - `str(n)` for a non-negative integer.
- `Analysis` (`analysis.dfy`) holds the operation itself:
  - marker extraction, as functions on the reply;
  - the content-assembly loop and the debug-writing loop, as methods with loop invariants, proved against recursive functions;
  - the two prompt builders;
  - `AnalyzeContent`, which runs the whole operation.

The model treats the outside world as inputs:

- The directory listing is a sequence of (file name, file text) pairs in the order `os.listdir` returns them. The file text is what `f.read()` returns in text mode, so Python has already turned `\r\n` and `\r` into `\n`. That decides `len(content)` and where the 10000-character cut falls. It is wrapped in a `Result`, and a `Failure` stands for any fault while listing or reading.
- The remote model is a function from the full prompt to a `Result` holding the reply or a fault message.
- The timestamp is an opaque string.
- The outcome is either a `Failure` carrying the message that `str(e)` would report, or the three strings the operation writes to its files.

**How the code splits the reply.** A plain reading of the behaviour says "the JSON portion is everything after the first `JSON`". The code does something narrower: `text.split("JSON")[1]` is the text between the first and the *second* occurrence of `JSON`. In the same way, the CSV portion ends at the second `CSV` when that comes before the first `JSON` after it. The model follows the code. `ExtractCsvSegment` and `ExtractJsonSegment` state exactly where each portion starts and ends.

## Model

| member | source | states |
|---|---|---|
| Analysis.ExtractCsv | analysis.py:88-90 | If the reply holds no `CSV`, the CSV file stays empty. Otherwise the portion is a substring of the reply, holds neither marker, and has no whitespace at either end. |
| Analysis.ExtractJson | analysis.py:96-98 | If the reply holds no `JSON`, the JSON file stays empty. Otherwise the portion is a substring of the reply, holds no `JSON`, and has no whitespace at either end. |
| Analysis.ExtractCsvSegment | analysis.py:89 | The CSV portion is exactly the stripped text from just after the first `CSV` up to the next `CSV` or `JSON` marker, or to the end of the reply. |
| Analysis.ExtractJsonSegment | analysis.py:97 | The JSON portion is exactly the stripped text from just after the first `JSON` up to the second `JSON`, or to the end of the reply. |
| Analysis.ExtractedAreStripped | analysis.py:89-97 | Stripping either portion again changes nothing. |
| Analysis.TwoBlockReply | analysis.py:88-98 | A reply laid out as preamble, `CSV`, CSV block, `JSON`, JSON block gives back the two blocks, stripped. This holds when the preamble and the CSV block hold neither marker and the JSON block holds no `JSON`. |
| Analysis.ExampleReply | analysis.py:88-98 | The worked reply `Here is CSV\na,b\n1,2\nJSON\n{"a":1}` gives the CSV text `a,b\n1,2` and the JSON text `{"a":1}`. |
| Analysis.IsMarkdownName | analysis.py:55 | `filename.endswith(".md")`: the name ends with the three characters `.md`. |
| Analysis.Contribution | analysis.py:55-57 | One entry adds nothing exactly when its name does not end in `.md`. Otherwise it adds the file text followed by `\n\n`. |
| Analysis.MarkdownContent | analysis.py:53-57 | The value of `content` after the loop has handled the given entries, adding each entry's contribution in listing order. |
| Analysis.MarkdownContentEmptyIff | analysis.py:53-57 | The content is empty exactly when no entry names a `.md` file. A `.md` file with no text still adds its blank line. |
| Analysis.AssembleContent | analysis.py:53-57 | The loop over the listing builds exactly `MarkdownContent(listing)`. |
| Analysis.MarkdownContentAppend | analysis.py:53-57 | The content of two listings in a row is the content of the first followed by the content of the second. |
| Analysis.MarkdownContentAt | analysis.py:54-57 | A `.md` entry adds its text and a blank line at its own place in listing order. Any other entry adds nothing. |
| Analysis.NoMarkdownNoContent | analysis.py:53-60 | A directory without `.md` files gives empty content, and a processing prompt that is the preamble alone. |
| Analysis.Truncate | analysis.py:60 | `s[:n]` is a prefix of `s` of length `min(n, len(s))`. It is `s` itself when `s` is no longer than `n`. |
| Analysis.ProcessingPrompt | analysis.py:60 | The prompt is the preamble followed by a prefix of the content. That prefix is the whole content when the content has at most 10000 characters, and exactly 10000 characters otherwise. |
| Analysis.FullPrompt | analysis.py:63 | The full prompt is the system prompt, then `\n\n`, then the processing prompt, in that order and with nothing else. |
| Analysis.DebugRecord | analysis.py:69-76 | `debug_info` is six (key, value) pairs in insertion order. The keys are distinct, as a dict's are. The length entry is a digit string that denotes the content length, and the other five values are the timestamp, the system prompt, the processing prompt, the full prompt and the reply. |
| Analysis.DebugLine | analysis.py:82 | `f"{key}: {value}\n"` starts with the key, ends with a newline, and is three characters longer than key and value together. |
| Analysis.DebugText | analysis.py:81-82 | The text the debug loop writes for the given entries. It is empty exactly when there are no entries. |
| Analysis.WriteDebug | analysis.py:80-82 | The loop writes exactly `DebugText(entries)`. |
| Analysis.DebugTextAppend | analysis.py:81-82 | The debug text of two records in a row is the text of the first followed by the text of the second. |
| Analysis.DebugRecordText | analysis.py:69-82 | The debug file is six `key: value\n` lines in insertion order: timestamp, input_content_length, system_prompt, processing_prompt, full_prompt, response. |
| Analysis.RecordedLengthIsUntruncated | analysis.py:60-71 | The recorded input length is the decimal length of the whole content before truncation. It is at least the length of what the prompt embeds, and longer exactly when the content had more than 10000 characters. |
| Analysis.AnalyzeContent | analysis.py:50-111 | A listing or read fault, or a fault from the remote call, becomes a failure carrying its message. Otherwise the remote model gets the full prompt built from the listing, and the three files get the debug text and the two portions of its reply. |
| Text.IsSpace | analysis.py:89 | The characters `str.strip()` removes: CPython's `str.isspace` set, U+0009 to U+000D, U+001C to U+0020, U+0085, U+00A0, U+1680, U+2000 to U+200A, U+2028, U+2029, U+202F, U+205F and U+3000. |
| Text.Strip | analysis.py:89 | `s.strip()` is a piece of `s` with only whitespace around it, and its own first and last characters are not whitespace. |
| Text.StripUnique | analysis.py:89 | Any piece of `s` with only whitespace around it and non-whitespace ends is `s.strip()`. |
| Text.StripIdempotent | analysis.py:89 | Stripping twice is the same as stripping once. |
| Text.StripEmptyIff | analysis.py:89 | `s.strip()` is empty exactly when every character of `s` is whitespace. |
| Text.Contains | analysis.py:88 | `sep in s`: `sep` occurs at some index of `s`. A true test means `sep` is no longer than `s`, and the empty string is in every string. |
| Text.IndexOfSpec | analysis.py:88-89 | A search that finds an index finds the first occurrence. A search that finds nothing means there is no occurrence at all. |
| Text.ContainsIff | analysis.py:88 | `sep in s` holds exactly when the search for `sep` finds an index. |
| Text.FirstAtIsIndexOf | analysis.py:89 | The first occurrence is the only index the search can return. |
| Text.Split | analysis.py:89 | `s.split(sep)` cuts `s` at each non-overlapping occurrence of `sep`, leftmost first, and always has at least one part. |
| Text.SplitCount | analysis.py:88-89 | `s.split(sep)` has more than one part exactly when `sep in s`. This is why `[1]` is safe behind the `in` test. |
| Text.SplitJoin | analysis.py:89 | `sep.join(s.split(sep)) == s`. |
| Text.SplitPartLacksSep | analysis.py:89 | No part of a split contains the separator. |
| Text.SplitPartOccurs | analysis.py:89 | Every part of a split is a substring of the string that was split. |
| Text.SplitNth | analysis.py:89 | The chosen part is a substring of the input and holds no separator. |
| Text.SplitHeadAt | analysis.py:89 | Part `[0]` runs up to the first occurrence of the separator, or to the end when there is none. |
| Text.SplitSecondAt | analysis.py:89 | Part `[1]` runs from just after the first occurrence to the second occurrence, or to the end. |
| Text.NatToDecimal | analysis.py:71-82 | `str(n)` is a non-empty digit string with no leading zero, and it denotes `n`. |
| Text.EndsWith | analysis.py:55 | `s.endswith(suffix)` holds exactly when `s` is some stem followed by `suffix`. |

## Left out

- The client set-up at analysis.py:8-27 is not modelled: `genai.configure`, the generation settings, `GenerativeModel` and `start_chat`. It only configures the remote service.
- The system prompt text at analysis.py:30-48 is fixed, but the model takes it as a parameter. Nothing proved depends on its wording.
- The remote call at analysis.py:66 is a function parameter. In the model the reply depends on the prompt alone. The object held in `self.model` (analysis.py:12-27) is outside the model. If the caller supplies a session that keeps state across calls, the reply's dependence on earlier calls is not captured. Any exception the call raises, whatever the object, is a `Failure` from `generate`, and `generate` may fail for every prompt. A blocked reply whose `.text` raises is modelled as a fault from the call.
- `os.listdir`, `open` and `f.read()` are not modelled. The listing is an input, and any fault there, including a UTF-8 decoding error, is a `Failure` of that input.
- `str(datetime.now())` is the `timestamp` parameter.
- The three writes are not modelled as I/O. The model returns the strings passed to `f.write`. The UTF-8 encoding of the files, and the translation of each `\n` to `os.linesep` on platforms where that differs, are not modelled. Write faults are not modelled. Neither are files already written when a later step fails: the debug file stays on disk when the CSV write raises.
- The file paths built with `os.path.join` and returned on success are left out. They depend only on the directory name.
- The operation is `async` but never awaits. The model is sequential.
- Text.Split: only non-empty separators are modelled, since both markers are fixed non-empty words. Python raises `ValueError` for an empty separator.
