/** `ContentAnalyzer.analyze_content`: read the markdown files of a
    directory, build a prompt from them, ask the remote model for a
    reply, and write a debug record, the CSV portion and the JSON portion
    of the reply to three files.

    The directory listing is given as a sequence of (file name, text)
    pairs in listing order, the remote model as a function from the full
    prompt to a reply or a fault, and the timestamp as an opaque string.
    The result carries what would be written to the three files. */
module Analysis {
  import opened Text

  datatype Result<T> = Success(value: T) | Failure(error: string)

  /** The texts written to `processing_debug.txt`, `processed_content.csv`
      and `processed_content.json`. Each file is opened for writing, so its
      text replaces whatever the file held before. */
  datatype Written = Written(debug: string, csv: string, json: string)

  const CsvMarker: string := "CSV"
  const JsonMarker: string := "JSON"

  // ---------------------------------------------------------------------
  // Splitting the reply (analysis.py:88-98)
  // ---------------------------------------------------------------------

  /** `response.text.split("CSV")[1].split("JSON")[0].strip()` when "CSV"
      occurs in the reply, and nothing (an empty file) otherwise. */
  function ExtractCsv(reply: string): (csv: string)
    ensures !Contains(reply, CsvMarker) ==> csv == ""
    ensures Contains(reply, csv)
    ensures !Contains(csv, CsvMarker) && !Contains(csv, JsonMarker)
    ensures HasNoSpaceEnds(csv)
  {
    if Contains(reply, CsvMarker) then
      SplitCount(reply, CsvMarker);
      var section := SplitNth(reply, CsvMarker, 1);
      var raw := SplitNth(section, JsonMarker, 0);
      var csv := Strip(raw);
      StripContained(raw);
      ContainsTransitive(section, raw, csv);
      ContainsTransitive(reply, section, csv);
      NotContainedInPiece(section, csv, CsvMarker);
      NotContainedInPiece(raw, csv, JsonMarker);
      csv
    else
      ContainsAt(reply, "", 0);
      ""
  }

  /** `response.text.split("JSON")[1].strip()` when "JSON" occurs in the
      reply, and nothing (an empty file) otherwise. */
  function ExtractJson(reply: string): (json: string)
    ensures !Contains(reply, JsonMarker) ==> json == ""
    ensures Contains(reply, json)
    ensures !Contains(json, JsonMarker)
    ensures HasNoSpaceEnds(json)
  {
    if Contains(reply, JsonMarker) then
      SplitCount(reply, JsonMarker);
      var section := SplitNth(reply, JsonMarker, 1);
      var json := Strip(section);
      StripContained(section);
      ContainsTransitive(reply, section, json);
      NotContainedInPiece(section, json, JsonMarker);
      json
    else
      ContainsAt(reply, "", 0);
      ""
  }

  /** Where the CSV portion comes from: with `i` the first occurrence of
      "CSV", it is the stripped text from just after that marker up to the
      next "CSV" or "JSON" marker, or to the end of the reply. */
  lemma ExtractCsvSegment(reply: string, i: nat, e: nat)
    requires FirstAt(reply, CsvMarker, i)
    requires i + |CsvMarker| <= e <= |reply|
    requires e == |reply| || OccursAt(reply, CsvMarker, e) || OccursAt(reply, JsonMarker, e)
    requires forall k: nat :: i + |CsvMarker| <= k < e ==>
      !OccursAt(reply, CsvMarker, k) && !OccursAt(reply, JsonMarker, k)
    ensures ExtractCsv(reply) == Strip(reply[i + |CsvMarker|..e])
  {
    var d := i + |CsvMarker|;
    var p := NextOccurrence(reply, CsvMarker, d);
    assert e <= p;
    SplitSecondAt(reply, CsvMarker, i, p);
    var section := Split(reply, CsvMarker)[1];
    assert section == reply[d..p];
    if e < p {
      // The marker at e is not the next "CSV", so it is a "JSON".
      assert !OccursAt(reply, CsvMarker, e);
      JsonEndsBeforeCsv(reply, e, p);
    }
    SplitHeadOfSlice(reply, JsonMarker, d, p, e);
    assert Split(section, JsonMarker)[0] == reply[d..e];
    ContainsAt(reply, CsvMarker, i);
    ExtractCsvUnfold(reply);
  }

  /** Proof helper: `ExtractCsv`'s body in terms of `Split`, with the bound
      that makes the index `[1]` valid. */
  lemma ExtractCsvUnfold(reply: string)
    requires Contains(reply, CsvMarker)
    ensures |Split(reply, CsvMarker)| >= 2
    ensures ExtractCsv(reply) == Strip(Split(Split(reply, CsvMarker)[1], JsonMarker)[0])
  {
    SplitCount(reply, CsvMarker);
  }

  /** Proof helper: `ExtractJson`'s body in terms of `Split`, with the bound
      that makes the index `[1]` valid. */
  lemma ExtractJsonUnfold(reply: string)
    requires Contains(reply, JsonMarker)
    ensures |Split(reply, JsonMarker)| >= 2
    ensures ExtractJson(reply) == Strip(Split(reply, JsonMarker)[1])
  {
    SplitCount(reply, JsonMarker);
  }

  /** A "JSON" marker that starts before a "CSV" marker (or the end of the
      string) ends before it too: the two markers cannot overlap. */
  lemma JsonEndsBeforeCsv(s: string, e: nat, p: nat)
    requires OccursAt(s, JsonMarker, e) && e < p
    requires p == |s| || OccursAt(s, CsvMarker, p)
    ensures e + |JsonMarker| <= p
  {
    var w := s[e..e + 4];
    assert w == JsonMarker;
    assert s[e + 1] == w[1] && s[e + 2] == w[2] && s[e + 3] == w[3];
    if p < |s| {
      assert s[p] == s[p..p + 3][0];
    }
  }

  /** Where the JSON portion comes from: with `i` the first occurrence of
      "JSON", it is the stripped text from just after that marker up to the
      second "JSON", or to the end of the reply. */
  lemma ExtractJsonSegment(reply: string, i: nat, e: nat)
    requires FirstAt(reply, JsonMarker, i)
    requires i + |JsonMarker| <= e <= |reply|
    requires e == |reply| || OccursAt(reply, JsonMarker, e)
    requires forall k: nat :: i + |JsonMarker| <= k < e ==> !OccursAt(reply, JsonMarker, k)
    ensures ExtractJson(reply) == Strip(reply[i + |JsonMarker|..e])
  {
    SplitSecondAt(reply, JsonMarker, i, e);
    ContainsAt(reply, JsonMarker, i);
    ExtractJsonUnfold(reply);
  }

  /** Both portions are already stripped: stripping them again changes
      nothing. */
  lemma ExtractedAreStripped(reply: string)
    ensures Strip(ExtractCsv(reply)) == ExtractCsv(reply)
    ensures Strip(ExtractJson(reply)) == ExtractJson(reply)
  {
    if Contains(reply, CsvMarker) {
      ExtractCsvUnfold(reply);
      StripIdempotent(Split(Split(reply, CsvMarker)[1], JsonMarker)[0]);
    } else {
      StripEmptyIff("");
    }
    if Contains(reply, JsonMarker) {
      ExtractJsonUnfold(reply);
      StripIdempotent(Split(reply, JsonMarker)[1]);
    } else {
      StripEmptyIff("");
    }
  }

  /** A reply made of some preamble, the "CSV" marker, a CSV block, the
      "JSON" marker and a JSON block gives back the two blocks, stripped,
      provided the preamble holds neither marker, the CSV block neither
      marker and the JSON block no "JSON". */
  lemma {:induction false} TwoBlockReply(reply: string, preamble: string, csvBlock: string, jsonBlock: string)
    requires reply == preamble + CsvMarker + csvBlock + JsonMarker + jsonBlock
    requires !Contains(preamble, CsvMarker) && !Contains(preamble, JsonMarker)
    requires !Contains(csvBlock, CsvMarker) && !Contains(csvBlock, JsonMarker)
    requires !Contains(jsonBlock, JsonMarker)
    ensures ExtractCsv(reply) == Strip(csvBlock)
    ensures ExtractJson(reply) == Strip(jsonBlock)
  {
    var c := |preamble|;
    var j := c + |CsvMarker| + |csvBlock|;
    assert reply[..c] == preamble;
    assert reply[c..c + 3] == CsvMarker;
    assert reply[c + 3..j] == csvBlock;
    assert reply[j..j + 4] == JsonMarker;
    assert reply[j + 4..|reply|] == jsonBlock;
    assert reply[0..c] == preamble;
    assert TwoBlockLayout(reply, c, j);
    forall k: nat | k < j ensures !OccursAt(reply, CsvMarker, k) || k == c
    ensures !OccursAt(reply, JsonMarker, k)
    {
      NoMarkerBeforeJson(reply, c, j, k);
    }
    forall k: nat | j + 4 <= k ensures !OccursAt(reply, JsonMarker, k) {
      NotInsidePiece(reply, JsonMarker, j + 4, |reply|, k);
    }
    ExtractCsvSegment(reply, c, j);
    ExtractJsonSegment(reply, j, |reply|);
  }

  /** A reply laid out as in `TwoBlockReply`: the "CSV" marker at `c`, the
      "JSON" marker at `j`, and no marker in the text before `c` or between
      the two. */
  predicate TwoBlockLayout(reply: string, c: nat, j: nat) {
    c + |CsvMarker| <= j && j + |JsonMarker| <= |reply| &&
    reply[c..c + 3] == CsvMarker && reply[j..j + 4] == JsonMarker &&
    !Contains(reply[0..c], CsvMarker) && !Contains(reply[0..c], JsonMarker) &&
    !Contains(reply[c + 3..j], CsvMarker) && !Contains(reply[c + 3..j], JsonMarker)
  }

  /** In a reply with `TwoBlockLayout(reply, c, j)`, no other marker starts
      before `j`. */
  lemma NoMarkerBeforeJson(reply: string, c: nat, j: nat, k: nat)
    requires TwoBlockLayout(reply, c, j)
    requires k < j
    ensures k != c ==> !OccursAt(reply, CsvMarker, k)
    ensures !OccursAt(reply, JsonMarker, k)
  {
    NoCsvBeforeJson(reply, c, j, k);
    NoJsonBeforeJson(reply, c, j, k);
  }
  lemma NoCsvBeforeJson(reply: string, c: nat, j: nat, k: nat)
    requires TwoBlockLayout(reply, c, j)
    requires k < j
    ensures k != c ==> !OccursAt(reply, CsvMarker, k)
  {
    NotInsidePiece(reply, CsvMarker, 0, c, k);
    NotInsidePiece(reply, CsvMarker, c + 3, j, k);
    MarkerNotOverlapped(reply, CsvMarker, CsvMarker, k, c);
    MarkerNotOverlapped(reply, CsvMarker, JsonMarker, k, j);
    if c < k < c + 3 {
      assert reply[k] == reply[c..c + 3][k - c];
      NoOccurrenceWithoutHead(reply, CsvMarker, k, k + 1);
    }
  }
  lemma NoJsonBeforeJson(reply: string, c: nat, j: nat, k: nat)
    requires TwoBlockLayout(reply, c, j)
    requires k < j
    ensures !OccursAt(reply, JsonMarker, k)
  {
    NotInsidePiece(reply, JsonMarker, 0, c, k);
    NotInsidePiece(reply, JsonMarker, c + 3, j, k);
    MarkerNotOverlapped(reply, JsonMarker, CsvMarker, k, c);
    MarkerNotOverlapped(reply, JsonMarker, JsonMarker, k, j);
    if c <= k < c + 3 {
      assert reply[k] == reply[c..c + 3][k - c];
      NoOccurrenceWithoutHead(reply, JsonMarker, k, k + 1);
    }
  }


  /** The worked example: "Here is CSV\na,b\n1,2\nJSON\n{"a":1}" gives
      the CSV text "a,b\n1,2" and the JSON text {"a":1}. */
  lemma ExampleReply(reply: string, csv: string, json: string)
    requires reply == "Here is CSV\na,b\n1,2\nJSON\n{\"a\":1}"
    requires csv == "a,b\n1,2" && json == "{\"a\":1}"
    ensures ExtractCsv(reply) == csv
    ensures ExtractJson(reply) == json
  {
    var preamble, csvBlock, jsonBlock := "Here is ", "\n" + csv + "\n", "\n" + json;
    assert reply == preamble + CsvMarker + csvBlock + JsonMarker + jsonBlock;
    ExampleBlocksLackMarkers(preamble, csvBlock, jsonBlock);
    ExampleBlocksStripped(csv, json);
    TwoBlockReply(reply, preamble, csvBlock, jsonBlock);
  }

  /** The two blocks of the worked example strip to their texts. */
  lemma ExampleBlocksStripped(csv: string, json: string)
    requires csv == "a,b\n1,2" && json == "{\"a\":1}"
    ensures Strip("\n" + csv + "\n") == csv
    ensures Strip("\n" + json) == json
  {
    assert HasNoSpaceEnds(csv) && HasNoSpaceEnds(json);
    StripNewlinesAround(csv);
    StripNewlineBefore(json);
  }

  /** The three pieces of the worked example hold no marker. */
  lemma ExampleBlocksLackMarkers(preamble: string, csvBlock: string, jsonBlock: string)
    requires preamble == "Here is "
    requires csvBlock == "\n" + "a,b\n1,2" + "\n"
    requires jsonBlock == "\n" + "{\"a\":1}"
    ensures !Contains(preamble, CsvMarker) && !Contains(preamble, JsonMarker)
    ensures !Contains(csvBlock, CsvMarker) && !Contains(csvBlock, JsonMarker)
    ensures !Contains(jsonBlock, JsonMarker)
  {
    LacksHead(preamble, CsvMarker);
    LacksHead(preamble, JsonMarker);
    LacksHead(csvBlock, CsvMarker);
    LacksHead(csvBlock, JsonMarker);
    LacksHead(jsonBlock, JsonMarker);
  }

  /** Stripping a text with one newline before it. */
  lemma StripNewlineBefore(r: string)
    requires HasNoSpaceEnds(r)
    ensures Strip("\n" + r) == r
  {
    var s := "\n" + r;
    assert s[1..1 + |r|] == r && s[..1] == "\n" && s[1 + |r|..] == "";
    StripUnique(s, r, 1);
  }

  /** Stripping a text with one newline before it and one after it. */
  lemma StripNewlinesAround(r: string)
    requires HasNoSpaceEnds(r)
    ensures Strip("\n" + r + "\n") == r
  {
    var s := "\n" + r + "\n";
    assert s[1..1 + |r|] == r && s[..1] == "\n" && s[1 + |r|..] == "\n";
    StripUnique(s, r, 1);
  }

  // ---------------------------------------------------------------------
  // Assembling the content (analysis.py:53-57)
  // ---------------------------------------------------------------------

  /** Python `filename.endswith(".md")`. */
  predicate IsMarkdownName(name: string)
  {
    EndsWith(name, ".md")
  }

  /** What one directory entry adds to the content: its text and a blank
      line when it is a markdown file, nothing otherwise. */
  function Contribution(entry: (string, string)): (piece: string)
    ensures piece == "" <==> !IsMarkdownName(entry.0)
    ensures piece != "" ==> |piece| == |entry.1| + 2 && piece[..|entry.1|] == entry.1 && piece[|entry.1|..] == "\n\n"
  {
    if IsMarkdownName(entry.0) then entry.1 + "\n\n" else ""
  }

  /** The content after the loop over the first `|listing|` entries. */
  function MarkdownContent(listing: seq<(string, string)>): string {
    if listing == [] then ""
    else MarkdownContent(listing[..|listing| - 1]) + Contribution(listing[|listing| - 1])
  }

  /** The content is empty exactly when no entry is a markdown file: even a
      markdown file with no text adds its blank line. */
  lemma {:induction false} MarkdownContentEmptyIff(listing: seq<(string, string)>)
    ensures MarkdownContent(listing) == "" <==>
            forall k :: 0 <= k < |listing| ==> !IsMarkdownName(listing[k].0)
  {
    if listing != [] {
      var init := listing[..|listing| - 1];
      MarkdownContentEmptyIff(init);
      assert forall k :: 0 <= k < |init| ==> init[k] == listing[k];
    }
  }

  /** The loop `for filename in os.listdir(directory): if
      filename.endswith(".md"): content += f.read() + "\n\n"`. */
  method AssembleContent(listing: seq<(string, string)>) returns (content: string)
    ensures content == MarkdownContent(listing)
  {
    content := "";
    for i := 0 to |listing|
      invariant content == MarkdownContent(listing[..i])
    {
      var (filename, text) := listing[i];
      if IsMarkdownName(filename) {
        content := content + text + "\n\n";
      }
      assert listing[..i + 1][..i] == listing[..i];
    }
    assert listing[..|listing|] == listing;
  }

  /** String concatenation is associative. */
  lemma ConcatAssoc(x: string, y: string, z: string)
    ensures (x + y) + z == x + (y + z)
  {
  }

  /** One more entry at the end adds its own text at the end. */
  lemma MarkdownContentSnoc(xs: seq<(string, string)>, e: (string, string))
    ensures MarkdownContent(xs + [e]) == MarkdownContent(xs) + Contribution(e)
  {
    assert (xs + [e])[..|xs|] == xs;
  }

  /** The content of two listings one after the other is the content of
      the first followed by that of the second. */
  lemma {:induction false} MarkdownContentAppend(a: seq<(string, string)>, b: seq<(string, string)>)
    ensures MarkdownContent(a + b) == MarkdownContent(a) + MarkdownContent(b)
    decreases |b|
  {
    if b == [] {
      assert a + b == a;
    } else {
      var b', last := b[..|b| - 1], b[|b| - 1];
      assert b == b' + [last];
      assert a + b == (a + b') + [last];
      MarkdownContentAppend(a, b');
      MarkdownContentSnoc(b', last);
      MarkdownContentSnoc(a + b', last);
      ConcatAssoc(MarkdownContent(a), MarkdownContent(b'), Contribution(last));
    }
  }

  /** Entries are taken in listing order: a markdown entry contributes its
      text and a blank line at its place, any other entry contributes
      nothing. */
  lemma MarkdownContentAt(a: seq<(string, string)>, entry: (string, string), b: seq<(string, string)>)
    ensures IsMarkdownName(entry.0) ==>
      MarkdownContent(a + [entry] + b) == MarkdownContent(a) + entry.1 + "\n\n" + MarkdownContent(b)
    ensures !IsMarkdownName(entry.0) ==>
      MarkdownContent(a + [entry] + b) == MarkdownContent(a + b)
  {
    MarkdownContentAppend(a + [entry], b);
    MarkdownContentAppend(a, b);
    assert (a + [entry])[..|a|] == a;
    var c := MarkdownContent(a + [entry]);
    assert c == MarkdownContent(a) + Contribution(entry);
    if IsMarkdownName(entry.0) {
      assert c == MarkdownContent(a) + entry.1 + "\n\n";
    } else {
      assert c == MarkdownContent(a);
    }
  }

  /** A directory without markdown files gives empty content, and the
      processing prompt then embeds nothing. */
  lemma {:induction false} NoMarkdownNoContent(listing: seq<(string, string)>)
    requires forall k :: 0 <= k < |listing| ==> !IsMarkdownName(listing[k].0)
    ensures MarkdownContent(listing) == ""
    ensures ProcessingPrompt(MarkdownContent(listing)) == ProcessingPreamble
  {
    if listing != [] {
      NoMarkdownNoContent(listing[..|listing| - 1]);
    }
  }

  // ---------------------------------------------------------------------
  // The prompts (analysis.py:60-63)
  // ---------------------------------------------------------------------

  const MaxContentLength: nat := 10000
  const ProcessingPreamble: string :=
    "Process the following content into both CSV and JSON formats. Provide both formats separately:\n\n"

  /** Python `s[:n]` for `n >= 0`. */
  function Truncate(s: string, n: nat): (r: string)
    ensures |r| <= n && |r| <= |s|
    ensures |s| <= n ==> r == s
    ensures |s| > n ==> |r| == n
    ensures r == s[..|r|]
  {
    if |s| <= n then s else s[..n]
  }

  /** The processing prompt: the fixed preamble, then at most the first
      10000 characters of the content. */
  function ProcessingPrompt(content: string): (prompt: string)
    ensures |ProcessingPreamble| <= |prompt| <= |ProcessingPreamble| + MaxContentLength
    ensures |prompt| <= |ProcessingPreamble| + |content|
    ensures prompt[..|ProcessingPreamble|] == ProcessingPreamble
    ensures prompt[|ProcessingPreamble|..] == content[..|prompt| - |ProcessingPreamble|]
    ensures |content| <= MaxContentLength ==> prompt[|ProcessingPreamble|..] == content
    ensures |content| > MaxContentLength ==> |prompt| == |ProcessingPreamble| + MaxContentLength
  {
    var embedded := Truncate(content, MaxContentLength);
    var prompt := ProcessingPreamble + embedded;
    assert prompt[|ProcessingPreamble|..] == embedded;
    prompt
  }

  /** The full prompt: the system prompt, a blank line, the processing
      prompt. */
  function FullPrompt(systemPrompt: string, processingPrompt: string): (prompt: string)
    ensures |prompt| == |systemPrompt| + 2 + |processingPrompt|
    ensures prompt[..|systemPrompt|] == systemPrompt
    ensures prompt[|systemPrompt|..|systemPrompt| + 2] == "\n\n"
    ensures prompt[|systemPrompt| + 2..] == processingPrompt
  {
    var prompt := systemPrompt + "\n\n" + processingPrompt;
    assert prompt[|systemPrompt|..|systemPrompt| + 2] == "\n\n";
    assert prompt[|systemPrompt| + 2..] == processingPrompt;
    prompt
  }

  // ---------------------------------------------------------------------
  // The debug record (analysis.py:69-82)
  // ---------------------------------------------------------------------

  /** `debug_info`, its keys in insertion order; the length is written
      with `str`. */
  function DebugRecord(timestamp: string, contentLength: nat, systemPrompt: string,
                       processingPrompt: string, fullPrompt: string, response: string): (record: seq<(string, string)>)
    ensures |record| == 6
    ensures forall a, b :: 0 <= a < b < |record| ==> record[a].0 != record[b].0
    ensures AllDigits(record[1].1) && DecimalValue(record[1].1) == contentLength
    ensures record[0].1 == timestamp && record[2].1 == systemPrompt && record[3].1 == processingPrompt
    ensures record[4].1 == fullPrompt && record[5].1 == response
  {
    [ ("timestamp", timestamp),
      ("input_content_length", NatToDecimal(contentLength)),
      ("system_prompt", systemPrompt),
      ("processing_prompt", processingPrompt),
      ("full_prompt", fullPrompt),
      ("response", response) ]
  }

  /** The f-string `f"{key}: {value}\n"`. */
  function DebugLine(entry: (string, string)): (line: string)
    ensures |line| == |entry.0| + |entry.1| + 3
    ensures line[..|entry.0|] == entry.0
    ensures line[|line| - 1] == '\n'
  {
    entry.0 + ": " + entry.1 + "\n"
  }

  /** What the loop over the first `|entries|` entries has written. It is
      empty exactly when there are no entries. */
  function DebugText(entries: seq<(string, string)>): (text: string)
    ensures text == "" <==> entries == []
  {
    if entries == [] then ""
    else DebugText(entries[..|entries| - 1]) + DebugLine(entries[|entries| - 1])
  }

  /** The loop `for key, value in debug_info.items(): f.write(...)`,
      returning what it writes to the freshly truncated file. */
  method WriteDebug(entries: seq<(string, string)>) returns (written: string)
    ensures written == DebugText(entries)
  {
    written := "";
    for i := 0 to |entries|
      invariant written == DebugText(entries[..i])
    {
      var (key, value) := entries[i];
      written := written + key + ": " + value + "\n";
      assert entries[..i + 1][..i] == entries[..i];
    }
    assert entries[..|entries|] == entries;
  }

  /** One more entry at the end adds its own text at the end. */
  lemma DebugTextSnoc(xs: seq<(string, string)>, e: (string, string))
    ensures DebugText(xs + [e]) == DebugText(xs) + DebugLine(e)
  {
    assert (xs + [e])[..|xs|] == xs;
  }

  /** The debug text of two records one after the other is the text of
      the first followed by that of the second. */
  lemma {:induction false} DebugTextAppend(a: seq<(string, string)>, b: seq<(string, string)>)
    ensures DebugText(a + b) == DebugText(a) + DebugText(b)
    decreases |b|
  {
    if b == [] {
      assert a + b == a;
    } else {
      var b', last := b[..|b| - 1], b[|b| - 1];
      assert b == b' + [last];
      assert a + b == (a + b') + [last];
      DebugTextAppend(a, b');
      DebugTextSnoc(b', last);
      DebugTextSnoc(a + b', last);
      ConcatAssoc(DebugText(a), DebugText(b'), DebugLine(last));
    }
  }

  /** The debug file holds one `key: value` line per entry of the record,
      in insertion order. */
  lemma DebugRecordText(timestamp: string, contentLength: nat, systemPrompt: string,
                        processingPrompt: string, fullPrompt: string, response: string)
    ensures DebugText(DebugRecord(timestamp, contentLength, systemPrompt, processingPrompt, fullPrompt, response))
      == DebugLine(("timestamp", timestamp))
       + DebugLine(("input_content_length", NatToDecimal(contentLength)))
       + DebugLine(("system_prompt", systemPrompt))
       + DebugLine(("processing_prompt", processingPrompt))
       + DebugLine(("full_prompt", fullPrompt))
       + DebugLine(("response", response))
  {
    var record := DebugRecord(timestamp, contentLength, systemPrompt, processingPrompt, fullPrompt, response);
    assert DebugText(record[..1]) == DebugLine(record[0]) by {
      assert record[..1][..0] == [];
    }
    assert DebugText(record[..2]) == DebugText(record[..1]) + DebugLine(record[1]) by {
      assert record[..2][..1] == record[..1];
    }
    assert DebugText(record[..3]) == DebugText(record[..2]) + DebugLine(record[2]) by {
      assert record[..3][..2] == record[..2];
    }
    assert DebugText(record[..4]) == DebugText(record[..3]) + DebugLine(record[3]) by {
      assert record[..4][..3] == record[..3];
    }
    assert DebugText(record[..5]) == DebugText(record[..4]) + DebugLine(record[4]) by {
      assert record[..5][..4] == record[..4];
    }
    assert DebugText(record) == DebugText(record[..5]) + DebugLine(record[5]);
  }

  /** The recorded input length is that of the whole content, before
      truncation, so it is at least the length of what the prompt embeds
      and larger exactly when the content was cut. */
  lemma RecordedLengthIsUntruncated(timestamp: string, content: string, systemPrompt: string, response: string)
    ensures var processing := ProcessingPrompt(content);
      var record := DebugRecord(timestamp, |content|, systemPrompt, processing,
                                FullPrompt(systemPrompt, processing), response);
      && record[1].0 == "input_content_length"
      && AllDigits(record[1].1)
      && DecimalValue(record[1].1) == |content|
      && |content| >= |processing| - |ProcessingPreamble|
      && (|content| > |processing| - |ProcessingPreamble| <==> |content| > MaxContentLength)
  {
  }

  // ---------------------------------------------------------------------
  // The whole operation (analysis.py:50-111)
  // ---------------------------------------------------------------------

  /** `analyze_content`. A fault while listing or reading the directory
      (`listing` is a `Failure`) or from the remote call (`generate`
      returns a `Failure`) becomes a `Failure` carrying its message;
      otherwise the three files receive the debug text and the two
      portions of the reply. */
  method AnalyzeContent(systemPrompt: string, listing: Result<seq<(string, string)>>,
                        timestamp: string, generate: string -> Result<string>)
    returns (result: Result<Written>)
    ensures listing.Failure? ==> result == Failure(listing.error)
    ensures listing.Success? ==>
      var content := MarkdownContent(listing.value);
      var processing := ProcessingPrompt(content);
      var full := FullPrompt(systemPrompt, processing);
      match generate(full)
      case Failure(message) => result == Failure(message)
      case Success(reply) =>
        result == Success(Written(
          DebugText(DebugRecord(timestamp, |content|, systemPrompt, processing, full, reply)),
          ExtractCsv(reply),
          ExtractJson(reply)))
  {
    if listing.Failure? {
      return Failure(listing.error);
    }
    var content := AssembleContent(listing.value);
    var processing := ProcessingPrompt(content);
    var full := FullPrompt(systemPrompt, processing);
    var response := generate(full);
    if response.Failure? {
      return Failure(response.error);
    }
    var reply := response.value;
    var debug := WriteDebug(DebugRecord(timestamp, |content|, systemPrompt, processing, full, reply));
    result := Success(Written(debug, ExtractCsv(reply), ExtractJson(reply)));
  }
}
