# duvo: evaluation pipeline, routes and download markers

This project models the core of duvo, a chat service built around a
tool-using agent. After each chat turn the service decides whether to grade
the agent's answer against the output of Hacker News tools
(backend/app/evaluation.py:38 and 116):

- it collects the raw output of every tool the agent called whose name marks
  it as a Hacker News tool;
- it takes the agent's latest text as the summary;
- when both exist, it schedules a background judgment;
- the judgment appends a scored entry to a per-session JSON ledger, which a
  read route serves.

The agent may put download markers `[DOWNLOAD:name.csv]` into its answer. The
chat view turns each marker into a download link, and a download route serves
the file after checking its name against a pattern.

The Dafny modules follow the source files:

| module | models |
|---|---|
| `Messages` (messages.dfy) | the message history: requests and responses made of text, tool-call, tool-return and prompt parts; the tool-name filter |
| `LedgerStore` (ledger_store.dfy) | the evaluations directory, a class whose `files` map goes from session id to what `json.loads` makes of that session's file |
| `Evaluation` (evaluation.dfy) | `extract_hn_tool_data`, `extract_summary`, `maybe_trigger_evaluation`, the judge prompt and the ledger append of `run_evaluation` |
| `EvaluationsRoute` (evaluations_route.dfy) | `get_evaluation` |
| `ChatRoute` (chat_route.dfy) | the `sessions` map, as a class, and the `chat` route |
| `Downloads` (downloads.dfy) | `FILENAME_PATTERN` and `download_file` |
| `ChatMarkers` (chat_markers.dfy) | the segmentation loop of `renderMessageContent` |
| `Common` (common.dfy) | `Option` and generic sequence facts |

Loops of the source are methods, each proved equal to a specification
function:

- `ExtractHnToolData` equals `HnData`;
- `SegmentMessage` equals `SegmentsFrom`.

The properties are proved about those functions. For the renderer, the
segments write back to the message and follow the rules the renderer keeps:

- texts are never empty;
- texts never hold a marker;
- two texts are never adjacent.

Conversely, any list of segments with those properties is the renderer's
output.

Where the code does more or less than its own docstrings and names say,
the model follows the code:

- `extract_summary` is documented as reading "the last ModelResponse"
  (backend/app/evaluation.py:58). Its loop scans back to the latest response
  that has a text part, skipping responses made only of tool calls
  (`SummaryIsLatestText`, `SummarySkipsToolCallResponses`).
- `extract_hn_tool_data` is documented as reading "HN MCP tool returns"
  (backend/app/evaluation.py:38). The test is whether the lowercased tool
  name contains "hackernews" or "hn", so a tool named `john` qualifies too
  (`JohnIsAnHnTool`).
- `if not summary` also skips a summary that is the empty string. Even with
  Hacker News evidence, a latest response whose first text part is `""` leads
  to no judgment (`EmptySummaryNoEvaluation`).
- A ledger file holding JSON that is not a list is handled as follows:
  - the writer's `append` raises, so the outer `except` drops the entry, and
    the file never recovers (`NonListLedgerIsStuck`);
  - if that JSON value is truthy, the reader's `entries[-1]` or
    `EvaluationResult(**latest)` raises, uncaught (a 500 response): indexing
    a number or a boolean raises `TypeError`, and indexing an object raises
    `KeyError`; a string indexes fine, and its last character then fails to
    unpack into the result;
  - if it is falsy (`null`, `{}`, `0`, `""`, `false`), the reader answers
    404.

## Model

| member | source | states |
|---|---|---|
| Messages.Lower | backend/app/evaluation.py:44-45 | the model's lowering keeps the length and lowers character by character; its result holds no ASCII capital, and every character of it is left as it is by lowering again (`LowerKeeps` adds that a lower-case needle found in a name is still found after lowering) |
| Messages.LowerIdempotent | backend/app/evaluation.py:44-45 | lowering twice gives the same string as lowering once |
| Messages.CaseBlind | backend/app/evaluation.py:43-46 | two names that differ only in the case of ASCII letters lower to the same string, so the filter accepts both or neither |
| Messages.IsHnToolName | backend/app/evaluation.py:43-46 | the tool-name filter, a test on the lowercased name: a qualifying name has at least two characters, and every name that already contains "hackernews" or "hn" qualifies; `JohnIsAnHnTool` and `WebSearchIsNotAnHnTool` settle concrete names |
| Messages.JohnIsAnHnTool | backend/app/evaluation.py:43-46 | the filter is a case-insensitive substring test: "john", "search_HackerNews", "HN_top" and "search_hackernews" all qualify |
| Messages.WebSearchIsNotAnHnTool | backend/app/evaluation.py:43-46 | "web_search" does not qualify |
| Evaluation.ExtractHnToolData | backend/app/evaluation.py:35-52 | the nested loop over messages and parts returns `HnData`: for the requests only, the contents of their qualifying tool returns in history order, each as a string or its `str()` rendering |
| Evaluation.PartsEvidenceAppend | backend/app/evaluation.py:42-51 | the evidence of two part lists in a row is the first's followed by the second's |
| Evaluation.HnDataAppend | backend/app/evaluation.py:40-51 | the evidence of two histories in a row is the first's followed by the second's: order is kept across the whole history |
| Evaluation.ResponsesContributeNothing | backend/app/evaluation.py:41 | inserting a response anywhere in a history leaves the evidence unchanged |
| Evaluation.NonQualifyingPartsContributeNothing | backend/app/evaluation.py:43-46 | inserting a part that is not a qualifying tool return leaves a message's evidence unchanged |
| Evaluation.PartsEvidenceMembership | backend/app/evaluation.py:42-51 | a string is in a message's evidence if and only if some qualifying part has it as content |
| Evaluation.HnDataMembership | backend/app/evaluation.py:40-51 | a string is in the evidence if and only if some qualifying tool return of some request has it as content |
| Evaluation.EvidenceEmptyIff | backend/app/evaluation.py:39-52 | the evidence is empty if and only if no request holds a qualifying tool return |
| Evaluation.PartsEvidenceLength | backend/app/evaluation.py:42-51 | a message contributes exactly one entry per qualifying part |
| Evaluation.HnDataLength | backend/app/evaluation.py:40-51 | the evidence has exactly one entry per qualifying tool return in the history |
| Evaluation.FirstText | backend/app/evaluation.py:61-63 | None exactly when no part is a text part; otherwise the content of a text part with no text part before it |
| Evaluation.ExtractSummary | backend/app/evaluation.py:55-64 | None exactly when no response holds a text part |
| Evaluation.SummaryIsLatestText | backend/app/evaluation.py:59-63 | when response `k` has text and no later response has any, the summary is the first text of response `k` |
| Evaluation.SummarySkipsToolCallResponses | backend/app/evaluation.py:59-63 | a final response made only of tool calls is skipped, and an earlier response's text "T" is the summary |
| Evaluation.Scheduled | backend/app/evaluation.py:117-125 | the trigger's decision; a scheduled job carries the session id, non-empty evidence and a non-empty summary. The four lemmas below characterise each case |
| Evaluation.MaybeTriggerEvaluation | backend/app/evaluation.py:112-125 | the job the trigger schedules is `Scheduled`: none without evidence; none without a summary or with an empty one; otherwise one job with the session id, the evidence and the summary |
| Evaluation.NoEvidenceNoEvaluation | backend/app/evaluation.py:117-119 | without a qualifying tool return nothing is scheduled |
| Evaluation.NoSummaryNoEvaluation | backend/app/evaluation.py:121-123 | without any response text nothing is scheduled |
| Evaluation.EmptySummaryNoEvaluation | backend/app/evaluation.py:121-123 | when the latest response text is empty, nothing is scheduled |
| Evaluation.EvaluationScheduled | backend/app/evaluation.py:112-125 | with a qualifying tool return and a non-empty latest text, exactly one job is scheduled, carrying the session id, all the evidence and that text |
| Evaluation.Join | backend/app/evaluation.py:70 | Python's `sep.join`: empty for no blocks; `JoinLength` gives its length and `JoinLayout` where each block and separator stands |
| Evaluation.JoinLength | backend/app/evaluation.py:70 | the joined text is as long as the blocks plus one separator between each two |
| Evaluation.BuildPrompt | backend/app/evaluation.py:70-74 | the judge prompt opens with "## Source Data\n" and ends with "\n\n## Summary\n" and the summary; with no evidence it is just those two; `PromptLayout` places each evidence block between them |
| Evaluation.OffsetStep | backend/app/evaluation.py:70 | consecutive blocks of the joined evidence start one block plus one separator apart |
| Evaluation.JoinBlock | backend/app/evaluation.py:70 | each block stands verbatim at its offset in the joined text |
| Evaluation.JoinSeparator | backend/app/evaluation.py:70 | every block but the last is followed by the separator |
| Evaluation.JoinLayout | backend/app/evaluation.py:70 | `sep.join` places each block verbatim at its offset; every block but the last is followed by the separator; the last block ends the text |
| Evaluation.Framed | backend/app/evaluation.py:71-74 | a joined text between a head and a tail keeps the head at the start, each block at its shifted offset and the tail at the end |
| Evaluation.PromptLayout | backend/app/evaluation.py:70-74 | the judge prompt opens with "## Source Data\n", holds every evidence block verbatim at its place, and ends with "\n\n## Summary\n" followed by the summary |
| Evaluation.AppendEntry | backend/app/evaluation.py:98-105 | for a list file, the new list is the old one plus the entry; a missing or unparseable file gives a fresh list holding just the entry; a non-list file makes `append` raise (None) |
| Evaluation.RunEvaluation | backend/app/evaluation.py:67-109 | the judge gets `BuildPrompt`; a failed judge call changes nothing; a failing append changes nothing; otherwise the session's file becomes `AppendEntry` of the new entry, and the other files are unchanged |
| EvaluationsRoute.GetEvaluation | backend/app/routes/evaluations.py:13-28 | the answers, each as an if-and-only-if on the file: 404 for a missing file, an empty list or a falsy non-list; "Corrupted" for unparseable JSON; the last entry for a non-empty list; 500 exactly for unparseable JSON or a truthy non-list |
| EvaluationsRoute.GetEvaluationRoute | backend/app/routes/evaluations.py:13-28 | the route reads the directory and answers `GetEvaluation` of the session's file |
| EvaluationsRoute.ReadAfterWrite | backend/app/routes/evaluations.py:27-28 | after a successful append of entry E, the read returns E unchanged |
| EvaluationsRoute.SuccessiveEvaluations | backend/app/evaluation.py:98-106 | from a missing, unparseable or list file, K appends leave the prior entries followed by exactly those K, and the read returns the K-th |
| EvaluationsRoute.NonListLedgerIsStuck | backend/app/evaluation.py:98-106 | a file holding a non-list JSON value survives any number of appends unchanged, and the read keeps answering 404 or an uncaught error |
| EvaluationsRoute.EvaluateThenRead | backend/app/routes/evaluations.py:13-28 | after a stored evaluation the read returns that entry with the session id; after a failed run the read answers as before |
| ChatRoute.SessionStore.History | backend/app/routes/chat.py:14 | an unknown session has an empty history |
| ChatRoute.SessionStore.Chat | backend/app/routes/chat.py:12-20 | the agent runs on the stored history; if it raises, nothing changes and nothing is scheduled; otherwise the session's history is replaced by the run's full message list, the trigger gets that list, and the response carries the output and session id; other sessions are untouched |
| ChatRoute.HnToolReturnEvidence | backend/app/evaluation.py:42-49 | a `search_hackernews` tool return contributes its content |
| ChatRoute.HackerNewsHistoryEvidence | backend/app/evaluation.py:35-52 | the history of a Hacker News turn yields the evidence ["Item A..."] |
| ChatRoute.HackerNewsHistoryScheduled | backend/app/evaluation.py:112-125 | that history schedules one judgment with that evidence and the summary "Top story is..." |
| ChatRoute.WebSearchHistoryNotScheduled | backend/app/evaluation.py:117-119 | a turn that used only `web_search` schedules nothing |
| ChatRoute.HackerNewsTurn | backend/app/routes/chat.py:12-20 | session "s1": a Hacker News turn, then a judge returning 82, then a read, returns the entry for "s1" with score 82, that reasoning and the write timestamp |
| ChatRoute.WebSearchTurn | backend/app/routes/chat.py:12-20 | session "s2": a web-search-only turn, then a read, answers 404 |
| Downloads.IsValidFilename | backend/app/routes/downloads.py:10 | the validator accepts exactly what the pattern matches: one or more of `[\w\-\.]`, then ".csv", then the end of the string or one final newline |
| Downloads.PatternEnds | backend/app/routes/downloads.py:10 | a match of the pattern is a class run followed by ".csv" or ".csv\n" at the very end of the name |
| Downloads.AcceptedNameStaysInDataDir | backend/app/routes/downloads.py:10-18 | an accepted name holds no '/', '\\', NUL or '"'; is neither "." nor ".."; has at least five characters; ends in ".csv" or ".csv\n"; and any newline is its last character |
| Downloads.TrailingNewlineAccepted | backend/app/routes/downloads.py:10 | "report.csv\n" is accepted |
| Downloads.TwoNewlinesRejected | backend/app/routes/downloads.py:10 | "report.csv\n\n" is refused |
| Downloads.TraversalRejected | backend/app/routes/downloads.py:10 | "../report.csv" is refused |
| Downloads.DownloadFile | backend/app/routes/downloads.py:13-26 | 400 exactly for an invalid name, whatever the directory holds; 404 exactly for a valid name with no such file; otherwise the file, with that name and an attachment content-disposition |
| ChatMarkers.Scan | frontend/src/components/Chat.tsx:13 | a match found at `i` fits inside the message |
| ChatMarkers.MarkerAt | frontend/src/components/Chat.tsx:13 | the expression tried at one index: a match fits inside the message; `MarkerAtSound` and `MarkerAtComplete` say it matches exactly the marker occurrences |
| ChatMarkers.ScanSound | frontend/src/components/Chat.tsx:13 | what the scan accepts from a consistent state is a marker standing at `i`, with a name the capture group can hold |
| ChatMarkers.ScanEnd | frontend/src/components/Chat.tsx:13 | a "[DOWNLOAD:" prefix, a class run ending in ".csv" and ']' form a marker |
| ChatMarkers.MarkerAtSound | frontend/src/components/Chat.tsx:13 | a match of the expression at `i` is a marker occurrence there |
| ChatMarkers.ScanComplete | frontend/src/components/Chat.tsx:13 | every marker occurrence is accepted by the scan, from any point inside its prefix and name |
| ChatMarkers.MarkerAtComplete | frontend/src/components/Chat.tsx:13 | every marker occurrence is matched where it stands, with its name as the capture |
| ChatMarkers.MarkersDoNotOverlap | frontend/src/components/Chat.tsx:13 | two marker occurrences never overlap, since only a marker's first character is '[' |
| ChatMarkers.NextMarker | frontend/src/components/Chat.tsx:20 | `exec` from `lastIndex` returns a match at or after it |
| ChatMarkers.NextMarkerIsFirst | frontend/src/components/Chat.tsx:20 | that match is the leftmost one; when none is returned, no marker starts after `lastIndex` |
| ChatMarkers.FirstMarkerFound | frontend/src/components/Chat.tsx:20 | after a marker-free stretch, `exec` returns the marker that ends it |
| ChatMarkers.NoMarkerNoMatch | frontend/src/components/Chat.tsx:20 | with no marker ahead, `exec` returns null |
| ChatMarkers.SegmentsFromStep | frontend/src/components/Chat.tsx:20-25 | one iteration emits the text before the match (if any), then the download, then continues after the match |
| ChatMarkers.SegmentMessage | frontend/src/components/Chat.tsx:16-30 | the loop's parts equal `SegmentsFrom(content, 0)` |
| ChatMarkers.RenderMessageContent | frontend/src/components/Chat.tsx:15-34 | the message itself when no part was produced, otherwise the parts: `Render` |
| ChatMarkers.SegmentsFromEmpty | frontend/src/components/Chat.tsx:28-33 | no part is produced exactly when nothing is left of the message |
| ChatMarkers.SegmentsFromReassemble | frontend/src/components/Chat.tsx:16-30 | writing the markers back into the parts gives the message back |
| ChatMarkers.SegmentsFromWellFormed | frontend/src/components/Chat.tsx:16-30 | every text part is non-empty and holds no marker; every name is one the expression captures; no two texts are adjacent |
| ChatMarkers.RenderSound | frontend/src/components/Chat.tsx:15-34 | the raw message is returned exactly for the empty message; otherwise the parts are well formed and write back to the message |
| ChatMarkers.RenderWithoutMarkers | frontend/src/components/Chat.tsx:15-34 | a non-empty message without markers is one text part |
| ChatMarkers.SegmentationIsUnique | frontend/src/components/Chat.tsx:16-30 | any well-formed parts that write back to the rest of the message are exactly what the loop produces from there |
| ChatMarkers.RenderIsTheOnlySegmentation | frontend/src/components/Chat.tsx:15-34 | the rendered parts are the message's only well-formed segmentation |
| ChatMarkers.MarkerNameIsDownloadable | frontend/src/components/Chat.tsx:13 | every name the chat view links to passes the download route's validator: JavaScript's `\w` is ASCII, a subset of Python's |

## Left out

- Calls to the models are parameters: the chat agent's run (`agent` in `Chat`) and the judge's verdict (`judge` in `RunEvaluation`). Their outputs are not modelled, and neither is the rubric the judge is told to apply.
- The judge's score is an unbounded integer. The code never checks the 0–100 range it asks the judge for, so the model does not check it either.
- `asyncio.create_task` and any concurrency. The scheduled job is returned as a value; two runs racing on the same session's read-modify-write are not modelled.
- `logfire` logging and `async with` agent contexts.
- JSON file I/O: `mkdir`, `read_text`, `json.dumps`/`write_text` and `is_file`. A file is modelled by what `json.loads` makes of it. A write that fails with an I/O error is not modelled; in the code it is dropped by the same `except`.
- A ledger list whose elements are not entry objects, and `EvaluationResult(**latest)` failing on such an element.
- Evaluation.RunEvaluation: keys the ledger by the raw session id, so distinct ids name distinct files, and `LedgerStore.Lookup` finds a session's file by that id. The source names the file `EVALUATIONS_DIR / f"{session_id}.json"` (backend/app/evaluation.py:89, backend/app/routes/evaluations.py:15) with an id taken unchecked from the chat request. Ids such as `./s1` and `s1` name the same file; ids holding `..` or starting with `/` name files outside the evaluations directory, the latter because pathlib drops the left-hand path when the right-hand one is absolute. The model assumes session ids are plain, distinct file-name components and does not capture this aliasing or the writes outside the directory.
- The clock: `datetime.now(timezone.utc).isoformat()` is the parameter `now`.
- `str()` of non-string tool content: the model carries the rendered text with the payload (`ObjectContent`).
- Messages.Lower: only maps ASCII capitals and the Kelvin sign, one character to one. No other character lowercases to a letter of "hackernews" or "hn", so the filter's answer is exact. Python's full case mapping can also lengthen a name: U+0130 lowers to "i" followed by U+0307. The model keeps the length instead. The filter's answer is still the same, because neither "i" nor U+0307 is a letter of either needle: the two inserted characters can neither complete a needle nor sit inside one.
- Downloads.IsPyWordChar: treats every code point above U+00FF as a non-word character, while Python's `\w` also admits the letters and digits of other scripts.
- Resolving `DATA_DIR / filename` and the file system's answer: the data directory is a set of names.
- ChatMarkers.NextMarker: indexes the message by Dafny characters, whereas JavaScript counts UTF-16 code units. For text outside the Basic Multilingual Plane the indices differ, but the segments do not.
- The regular expression object's `lastIndex`: a global regex shared across calls is assumed to start each call at 0, as it does after a previous loop ran to `null`.
- The JSX of `renderMessageContent` (spans, buttons, the `href` built from `API_BASE`) and the rest of the chat view.
- Request and response models of the web framework, beyond the fields the routes use.
- Which tools the agent is given (backend/app/agent.py): the model takes the tool names found in the history as they come, whichever tools produced them.
- backend/app/tools.py, backend/app/main.py, backend/app/agent.py, frontend/src/lib/api.ts and frontend/src/App.tsx are not part of this model.
