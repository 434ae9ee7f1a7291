# Bedrock agent chatbot: stream aggregation, citation annotation and trace steps

This project models, in Dafny, the core logic of a Streamlit chat front end
for an Amazon Bedrock agent, and proves properties of that model. It has three parts:

- **Stream aggregation** (`aggregator.dfy`, module `Aggregator`). This is the generator
  inside `invoke_agent`. It walks the `completion` event stream and appends every
  chunk's text and attribution citations. It files each trace record under its
  category, where the first `guardrailTrace` becomes `preGuardrailTrace` and every
  later one becomes `postGuardrailTrace`. It yields a snapshot after every event once
  a chunk has arrived, and one final snapshot after the stream ends. The generator's
  local variables are the fields of the class `Accumulator`. `Accumulator.Step`
  consumes one event and `Aggregate` drives it over a whole stream. Both are proved
  against the recursive specification `Apply` / `Run` / `Snapshots`.
- **Citation annotation** (`annotator.dfy`, module `Annotator`). This is the
  post-processing of a finished answer. For each citation, a marker `[k]` is spliced in
  for each of its references, followed by one newline. Each insertion lands at the
  span end plus 3 plus the number of characters inserted so far. Python slice bounds
  are clamped and wrap for negative values. Then a footnote block `\n<br>[k] name` is
  appended, where the name is the part of the S3 URI after its last `/`. The method
  `Annotate` has the same two nested loops and counters as the page code. It is proved
  equal to the recursive specification `Annotated`, and the lemmas characterise that
  specification.
- **Trace step grouping** (`steps.dfy`, module `Steps`). This is the trace section of
  the sidebar. For each header ("Pre-Processing", "Orchestration", "Post-Processing"),
  each of its trace categories that is present is shown with its records grouped into
  steps. A record's key is the trace id of its first listed sub-field, or the record's
  own trace id for the guardrail categories. Steps are numbered from 1 across the whole
  sidebar, and a header with no category present shows "None". The step dictionary is
  modelled as its keys in insertion order plus a map. A missing `traceId` raises
  `KeyError` in the page code; here it is an abort that keeps the lines shown before it.

`types.dfy` (module `Types`) holds the values shared by the three parts: `Option`,
citations, references and trace records as far as the front end looks into them.

Behaviours of the code worth noting:

- A third guardrail trace in one invocation is not fatal. It replaces the
  post-guardrail record (`RunGuardrail`).
- Snapshots follow every event of any kind once a chunk has arrived, not only
  chunk events (`EmittedAt`).
- The insertion point is the span end plus 3. So "The sky is blue today" with span
  end 11 gets its marker at index 14: `The sky is blu[1]`, then a newline, then
  `e today`, not `The sky is b[1]lue today` (`SingleCitation`).
- From a non-negative insertion point, one citation's markers and its newline land
  side by side at that point (`CitationPlacement`). With a span end below -3 the
  insertion point starts out negative. While span end + 3 + shift stays negative
  and not below minus the text's length, it is counted from the end of the growing
  text, and each later marker lands past the one before it, not next to it
  (`NegativeBoundSkips`). Below minus the text's length it is clamped to 0, so each
  marker goes in front of the previous one: "ab" with span end -13 and two
  references (bounds -10, -7, -4) becomes `[2][`, newline, `1]ab`
  (`NegativeSpanClamps`). Once inserted markers
  lift it to zero or more, it counts from the start, so a later marker can land
  before an earlier one. For example, "abcdef" with span end -5 and two references
  becomes `a[2]`, newline, `bcd[1]ef` (`NegativeSpanCrosses`).
- A record with none of its category's sub-fields is dropped. It is not shown as a
  singleton step (`GroupContents`).
- A trace category list is not append-only. Every guardrail record re-creates its
  slot, because `services/bedrock_agent_runtime.py:45` tests the unmapped name
  `guardrailTrace`, which is never a key. So the post-guardrail list is replaced
  rather than extended. Every list still never gets shorter (`SnapshotsGrow`).

## Model

| member | source | states |
|---|---|---|
| Aggregator.Accumulator.constructor | services/bedrock_agent_runtime.py:9-22 | The accumulator starts with empty text, citations and trace map and both flags false. |
| Aggregator.Accumulator.Step | services/bedrock_agent_runtime.py:25-54 | One loop iteration updates the five fields exactly as the specification `Apply` does. It returns a snapshot of the new state exactly when a chunk has been received so far, and none otherwise. |
| Aggregator.Accumulator.FileRecord | services/bedrock_agent_runtime.py:36-47 | Filing one record maps a guardrail record to the pre slot the first time and to the post slot afterwards. The slot is re-created because the existence test uses the unmapped name. The new state is `AddRecord` of the old, and the invariant (only filed names as keys, pre slot present iff a guardrail was seen, guardrail slots of length 1) is kept. |
| Aggregator.AddRecord | services/bedrock_agent_runtime.py:38-47 | Filing any record of the four looked-up names keeps the accumulator invariant. |
| Aggregator.AddParts | services/bedrock_agent_runtime.py:36-47 | Filing the parts of one trace event, name by name in the fixed order, keeps the invariant. |
| Aggregator.Apply | services/bedrock_agent_runtime.py:27-47 | One event keeps the invariant. |
| Aggregator.Run | services/bedrock_agent_runtime.py:25-47 | Every state reachable from the initial one satisfies the invariant. |
| Aggregator.Aggregate | services/bedrock_agent_runtime.py:8-61 | The generator yields exactly `Snapshots(events)`: one snapshot of the state after each event from the first chunk on, then one of the final state. |
| Aggregator.FinalSnapshot | services/bedrock_agent_runtime.py:49-61 | There are (events from the first chunk on) + 1 snapshots. The last one's text is the concatenation of all fragments, and its citations are all attribution citations in order. |
| Aggregator.Emitted | services/bedrock_agent_runtime.py:49-54 | The snapshots yielded inside the loop, characterised by EmittedAt and EmittedCount. |
| Aggregator.Snapshots | services/bedrock_agent_runtime.py:49-61 | Everything the generator yields, characterised by Aggregate, FinalSnapshot and SnapshotsGrow. |
| Aggregator.FirstChunk | services/bedrock_agent_runtime.py:27-32 | The index returned is that of the first chunk event, or the stream length if there is none. |
| Aggregator.ApplyChunk | services/bedrock_agent_runtime.py:27-32 | A chunk appends its fragment and, if it has an attribution, its citations, and sets the chunk flag. A trace-only event changes none of these. |
| Aggregator.ApplyPlain | services/bedrock_agent_runtime.py:35-47 | The list of each non-guardrail category gets exactly the event's record for it appended, if any, and is created on first use. |
| Aggregator.ApplyGuardrail | services/bedrock_agent_runtime.py:39-47 | A guardrail record goes to the pre slot if none was seen before, else to the post slot. Either way the slot holds just that record, and the other slot and the flag behave accordingly. |
| Aggregator.RunText | services/bedrock_agent_runtime.py:27-29 | The accumulated text is the in-order concatenation of every chunk fragment. |
| Aggregator.RunCitations | services/bedrock_agent_runtime.py:30-31 | The citation list is the in-order concatenation of every attribution's citations, with no deduplication or sorting. |
| Aggregator.RunChunkReceived | services/bedrock_agent_runtime.py:22-32 | The chunk flag is set iff some event so far carried a chunk. |
| Aggregator.RunPlainTrace | services/bedrock_agent_runtime.py:36-47 | A pre-processing, orchestration or post-processing list holds every record of that category in arrival order. It is present iff there is one. |
| Aggregator.RunGuardrail | services/bedrock_agent_runtime.py:21-47 | The pre-guardrail slot is present iff a guardrail record arrived, and it holds exactly the first one. The post-guardrail slot is present iff at least two arrived, and it holds only the latest. The flag is set iff one arrived and is never cleared. |
| Aggregator.RunKeys | services/bedrock_agent_runtime.py:38-46 | The trace map never has `guardrailTrace` or any name other than the five filed ones as a key. |
| Aggregator.EmittedAt | services/bedrock_agent_runtime.py:49-54 | Nothing is yielded before the first chunk. From that event on, one snapshot follows every event, and the i-th shows the state after it. |
| Aggregator.EmittedCount | services/bedrock_agent_runtime.py:49-61 | The total count is (events from the first chunk on) + 1, and no snapshot comes from the events before the first chunk. |
| Aggregator.SnapshotsGrow | services/bedrock_agent_runtime.py:27-61 | For any two yielded snapshots, the earlier one's text and citations are prefixes of the later one's, and every trace list of the earlier is present and no longer in the later. |
| Aggregator.HelloWorld | services/bedrock_agent_runtime.py:25-61 | The chunks "Hel", "lo wor", "ld" yield "Hel", "Hello wor", "Hello world" and a final "Hello world", with no citations and no trace. |
| Annotator.Annotate | app.py:86-107 | The page's loops compute `Annotated`. Without citations the text is returned unchanged. Otherwise the result is a body, a newline and the footnotes of all references numbered from 1. The body's length is the text's plus every marker's length plus one per citation, and the text is an order-preserving subsequence of the body. |
| Annotator.SpliceOne | app.py:92-106 | The body of the loop over citations: markers and footnotes for each reference, then one newline. The result is `SpliceCitation` of the loop variables. |
| Annotator.SliceBound | app.py:95 | A Python slice bound lies in `0..len`. |
| Annotator.InsertAt | app.py:95 | `s[:i] + t + s[i:]` has length `len(s) + len(t)`. |
| Annotator.InsertSlices | app.py:95 | The insertion is the slice expression: the first k characters, the inserted text, then the rest. |
| Annotator.InsertEmbeds | app.py:95 | Inserting keeps the original string as an order-preserving subsequence. |
| Annotator.FileNameIsLastSegment | app.py:98-99 | The file name is a suffix of the URI with no `/`. When shorter than the URI, it is preceded by `/`. So it is the part after the last slash: the whole URI without a slash, empty after a trailing slash. |
| Annotator.FileNameAfterSlash | app.py:98-99 | Whatever precedes the last `/`, the file name is exactly what follows it. |
| Annotator.DecimalRoundTrip | app.py:94 | The marker number is written as `str` writes it: a non-empty run of the characters `0`-`9`, with no leading zero, that reads back as the number. |
| Annotator.SpliceRefStep | app.py:94-103 | One reference advances the marker number by one, adds its marker's length to the shift and to the text, and appends its footnote. |
| Annotator.SpliceCitationStep | app.py:105-106 | The per-citation newline adds one to the shift and the text and nothing else. |
| Annotator.SpliceRefsCounts | app.py:93-103 | The references of one citation take the next consecutive marker numbers. The shift and the text grow by the sum of their marker lengths. |
| Annotator.SpliceRefsNotes | app.py:93-102 | The references of one citation append their footnotes, numbered from the next marker number, in order. |
| Annotator.SpliceAllCounts | app.py:88-106 | Across any run of citations the markers are numbered consecutively. Shift and text grow by all marker characters plus one per citation, including a citation with no references. |
| Annotator.SpliceAllNext | app.py:88-103 | After any run of citations the next marker number is the start plus the number of references. |
| Annotator.SpliceAllNotes | app.py:88-103 | The footnote block lists every reference of every citation in input order, numbered consecutively. |
| Annotator.SpliceAllKeeps | app.py:95-105 | Annotation only inserts: the text before is an order-preserving subsequence of the text after. |
| Annotator.AnnotatedShape | app.py:87-107 | With at least one citation, the message is body + "\n" + footnotes. The body's length is the text's plus every marker's length plus one per citation, and it keeps the text as a subsequence. |
| Annotator.InsertionPoint | app.py:92-106 | Citation i's insertion point is its span end + 3 + the characters of every marker before it + i newlines, so citations are processed in input order. |
| Annotator.SpliceRefsPlacement | app.py:93-103 | From a non-negative insertion point, one citation's markers appear side by side in reference order at that point, clamped to the text's end; nothing else in the text moves. |
| Annotator.CitationPlacement | app.py:92-106 | From a non-negative insertion point, one citation turns the text into the part before the point, its markers, one newline, and the rest. |
| Annotator.CitationLands | app.py:88-106 | For a span end of at least -3: in the whole loop, citation i's markers carry the numbers after all earlier references. They and the newline land at span end + 3 + all earlier marker characters + i, clamped to the text's end, in the text as the earlier citations left it. |
| Annotator.NegativeBoundSkips | app.py:95 | While span end + 3 + shift stays negative and not below minus the text's length, the bound counts from the end of the grown text. So the next insertion point moves twice the inserted length, and markers are not adjacent. |
| Annotator.NegativeSpanCrosses | app.py:92-106 | Once a marker lifts a negative bound to zero or more, later markers count from the start: "abcdef" with span end -5 and two references gives `a[2]`, newline, `bcd[1]ef`. |
| Annotator.NegativeSpanClamps | app.py:92-106 | A bound below minus the text's length is clamped to the start: "ab" with span end -13 and two references gives `[2][`, newline, `1]ab`. |
| Annotator.MarkerLength | app.py:94 | The marker `[k]` is the digits of k between two brackets. |
| Annotator.Decimal | app.py:94 | `str(citation_num)`, characterised by DecimalRoundTrip: non-empty, digits only, no leading zero, reads back as the number. |
| Annotator.Marker | app.py:94 | The marker `[k]`, characterised by MarkerLength and DecimalRoundTrip. |
| Annotator.FileName | app.py:98-99 | `s3_uri.split("/")[-1]`, characterised by FileNameIsLastSegment and FileNameAfterSlash. |
| Annotator.Footnote | app.py:101 | One footnote line; SpliceRefsNotes and SpliceAllNotes state that the block is these lines for every reference in order. |
| Annotator.SpliceRef | app.py:94-103 | One inner-loop iteration, characterised by SpliceRefStep. |
| Annotator.SpliceRefs | app.py:93-103 | The inner loop, characterised by SpliceRefsCounts, SpliceRefsNotes and SpliceRefsPlacement. |
| Annotator.SpliceCitation | app.py:92-106 | One outer-loop iteration, characterised by SpliceCitationStep and CitationPlacement. |
| Annotator.SpliceAll | app.py:88-106 | The outer loop, characterised by SpliceAllCounts, SpliceAllNext, SpliceAllNotes, SpliceAllKeeps and CitationLands. |
| Annotator.Annotated | app.py:87-107 | The final message, characterised by AnnotatedShape and SingleCitation. |
| Annotator.SingleCitation | app.py:86-107 | "The sky is blue today" with span end 11 and `s3://bucket/doc1.pdf` becomes `The sky is blu[1]`, newline, `e today`, newline, `\n<br>[1] doc1.pdf`. |
| Steps.Put | app.py:208-211 | Assigning to the step dictionary keeps its ids distinct and equal to its keys. The resulting first-seen order is stated by GroupOrder. |
| Steps.KeyOf | app.py:203-214 | The key a record is filed under: the trace id of the first listed sub-field, unlisted when it has none, or the record's own trace id in the guardrail categories. GroupFailsIff and GroupContents characterise it. |
| Steps.Group | app.py:203-219 | Filing one record, characterised by GroupOrder, GroupContents and GroupFailsIff through GroupAll. |
| Steps.StepLines | app.py:222-227 | One dictionary's step lines, characterised by ShowSteps and StepLinesNumbers. |
| Steps.RenderName | app.py:196-227 | One category, characterised by RenderNameNumbered and NamesFailFrom. |
| Steps.RenderHeader | app.py:191-229 | One header, characterised by HeaderNone and RenderHeaderNumbered. |
| Steps.Sidebar | app.py:190-229 | The whole trace section, characterised by RenderSidebar, SidebarNumbered and HeadersFailFrom. |
| Steps.FirstListed | app.py:203-212 | The index found is that of the first listed sub-field the record carries. None means it carries none of them. |
| Steps.GroupAll | app.py:199-219 | A completed grouping has distinct ids that are exactly the dictionary's keys. |
| Steps.GroupCategory | app.py:199-219 | The loop over one category's records computes `GroupAll`, including the abort on a missing trace id. |
| Steps.GroupAllFails | app.py:205-215 | Once a record aborts the grouping, no later record changes that outcome. |
| Steps.GroupFailsIff | app.py:203-215 | Grouping aborts iff some record's id is missing where it is looked up: under its first listed sub-field, or at top level for the guardrail categories. |
| Steps.GroupOrder | app.py:199-219 | The steps are the distinct ids of the filed records, each once, in order of first occurrence. A repeated guardrail id keeps its first position. |
| Steps.GroupContents | app.py:199-219 | In a sub-field category a step holds every record filed under its id, in arrival order. In a guardrail category it holds only the last such record, wrapped with its category name. Records with no listed sub-field are in no step. |
| Steps.RenderSidebar | app.py:185-229 | The nested loops produce exactly the lines of `Sidebar`, and report an abort exactly when `Sidebar` has one. |
| Steps.ShowHeader | app.py:191-229 | One header's title, its categories' steps and its "None" line are those of `RenderHeader`. |
| Steps.ShowSteps | app.py:222-227 | One dictionary's steps are shown in key insertion order, numbered on from the current number, and the number advances by the count of steps. |
| Steps.NamesFailFrom | app.py:196-219 | After a category aborts, later categories under the same header show nothing. |
| Steps.HeadersFailFrom | app.py:191-219 | After a header aborts, later headers show nothing, not even their titles. |
| Steps.AnyPresentIff | app.py:195-198 | `has_trace` is true iff some category of the header is in the trace map. |
| Steps.StepLinesConsecutive | app.py:222-227 | There is one step line per id. The i-th shows number first + i and the entries of the i-th id in key insertion order. |
| Steps.StepLinesNumbers | app.py:222-227 | The steps of one dictionary carry consecutive numbers from the starting one, one per id. |
| Steps.RenderNamesNumbered | app.py:196-227 | The categories of a header add only step lines and keep the numbering consecutive. |
| Steps.SidebarNumbered | app.py:190-227 | The sidebar's step numbers are 1, 2, 3, … without gap or repeat across headers and categories. Their count is one less than the next number. |
| Steps.Headers | app.py:173-183 | The three sidebar headers and their categories in display order. Used by Sidebar and RenderSidebar; SidebarNumbered and HeadersFailFrom characterise what they show. |
| Steps.SubFields | app.py:173-183 | The sub-fields looked up per category, in lookup order; the guardrail categories have none. KeyOf reads them, and GroupContents and GroupFailsIff characterise the result. |
| Steps.RenderNames | app.py:196-227 | The categories of one header in order, characterised by RenderNamesNumbered and NamesFailFrom. |
| Steps.RenderHeaders | app.py:191-229 | The headers in order, characterised by RenderHeadersNumbered, HeadersFailFrom and HeaderNone. |
| Steps.AnyPresent | app.py:195-198 | The `has_trace` test, characterised by AnyPresentIff. |
| Annotator.Start | app.py:88-90 | The loop's starting state: the text unchanged, next number 1, no characters inserted, no footnotes. Annotate's loop invariant starts from it, and AnnotatedShape characterises the result. |
| Annotator.Insert | app.py:95 | The slice insertion on an in-range index. Its length is the sum of both lengths, and InsertSlices shows it is the first k characters, the inserted text, then the rest. |
| Aggregator.SnapshotOf | services/bedrock_agent_runtime.py:50-61 | The yielded view of a state: text, citations and trace map. Step, Aggregate and SnapshotsGrow state what it carries. |
| Aggregator.Init | services/bedrock_agent_runtime.py:9-22 | The state before the first event: empty text, citations and trace map and both flags false. The constructor ensures the accumulator starts there, and Run keeps the invariant from it. |
| Steps.HeaderNone | app.py:191-229 | A header with no category present shows its title and "None" and uses no step number. A header with a category present shows its title followed only by steps. |

## Left out

- The Streamlit page is not modelled: page setup, tabs, chat history, placeholders,
  reset buttons, session state and the sidebar's citation section. Only the computed
  strings and step groups are.
- `json.dumps` pretty-printing of trace entries and its line counts are not modelled.
  A step carries its entries as values.
- The boto3 client, the `invoke_agent` network call, the `ClientError` re-raise and
  `bytes.decode()` are left out. Fragments are already-decoded strings, and a transport
  failure mid-stream is not modelled.
- The offline evaluation scripts under `chatbot_evaluation/` are left out. They repeat
  the aggregation without snapshots and otherwise call external services.
- Secrets, environment loading and `uuid` session ids are left out.
- Aggregator.Snapshot: Python yields the same `trace` dict object each time, so an
  earlier snapshot's trace aliases the later state. The model yields a copy of the
  trace at each point.
- Annotator.Annotate: a reference without an `s3Location` (a web, Confluence or
  SharePoint source) or a citation without a text span raises `KeyError` in the page
  code (app.py lines 92 and 98). It is not modelled: a reference is only its S3 URI,
  and a citation always has a span end.
- Annotator.Annotate is modelled once. The identical block for the second chat panel
  (app.py lines 145-166) is the same computation.
- Steps.RenderSidebar takes the trace map as a parameter. The page always passes the
  first panel's trace.
- Steps.KeyOf: trace ids are strings. A sub-field present but not an object, or other
  malformed JSON, is not modelled. Only a missing `traceId` is.
