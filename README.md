# rag-rbac-thesis in Dafny

A verified model of the role-based access control core of a
retrieval-augmented generation prototype and of the offline evaluation
scripts that read its audit log.

- **Access decision** (`rbac.dfy`, module `Rbac`). A policy is a set of
  grants `(role, classification, action)`. A document is readable when the
  classification is non-empty and the policy holds a `read` grant for exactly
  that role and classification.
- **Audit recorder** (`audit.dfy`, module `Audit`). `log_request` turns the
  allowed documents into ids (`"unknown_id"` for an object without one). It
  keeps a preview of at most 100 characters plus `"..."`, records the counts
  and appends the record to the log held by the class `AuditLog`. A failing
  write leaves the log unchanged and is not raised to the caller.
- **Pipeline** (`pipeline.dfy`, module `Pipeline`). `RbacRagPipeline.Ask`
  first retrieves candidates. It passes each one through the enforcement
  point; a candidate without a `classification` key is checked as
  `internal`. The allowed texts are joined by `"\n\n"`, or replaced by the
  fixed fallback sentence when none are allowed. That context goes into the
  fixed system prompt. The answer is then generated and the request audited
  with the allowed ids and the blocked count.
- **Log reader** (`logfiles.dfy`, module `LogFiles`). The JSON lines are read
  back as typed records whose keys may be missing.
- **Statistics** (`stats.dfy`, module `Stats`), from
  `calculate_general_stats.py`:
  - documents per normalised classification;
  - the role → classes table read from policy rows;
  - the number of documents each role may theoretically read;
  - query and fallback-answer counts over the log files.
- **Export** (`export.dfy`, module `Export`), from `export_logs_to_csv.py`:
  - the text sanitiser;
  - one row of eight cells per decoded, non-blank log line under a fixed
    header.
- **Text** (`text.dfy`, module `Text`). The Python string operations the
  scripts use: `strip`, `lower`, `in`, `startswith`, `join`, single-character
  `replace` and `str(int)`. **Wrappers** (`wrappers.dfy`) holds `Option`
  and `Result`.

Two behaviours of the code worth knowing:

- The preview gets `"..."` appended to every non-empty response, even when
  nothing was cut (app/logging/audit.py:49).
- A retrieved document whose metadata lacks a classification is checked as
  `internal` (app/rag/pipeline.py:112). Only an explicitly empty
  classification is denied (app/security/rbac.py:21-23).

Collaborators become inputs:

- Embedding and vector search become a function `retrieve` of the
  newline-free query.
- The chat completion becomes a function `generate` of (system prompt,
  query).
- A `None` from either stands for the exception that ends `ask` before
  anything is logged.
- The clock becomes `timestamp` and `latencyMillis`.
- The storage refusing a write is the flag `writeFails`.
- Directories and files are `Option`/sequence values: `None` is a missing
  directory, and each line carries its raw text and its JSON decoding, if any.

## Model

| member | source | states |
|---|---|---|
| Rbac.CheckAccess | app/security/rbac.py:16-26 | an empty classification is denied; access is granted only when a matching `read` grant for that role and classification exists, and always when it does |
| Rbac.OnlyReadGrantsMatter | app/security/rbac.py:19-25 | the decision depends only on the policy's `read` grants |
| Rbac.UnknownRoleDenied | app/security/rbac.py:25 | a role that no grant mentions can read nothing |
| Rbac.GrantsAreMonotone | app/security/rbac.py:25 | adding grants never revokes access |
| Rbac.ThesisSelfTest | app/security/rbac.py:33-39 | the five expected decisions of the thesis self-test hold for the thesis policy |
| Audit.ExtractDocIds | app/logging/audit.py:36-41 | one id per allowed document, in order: the object's `id`, `"unknown_id"` when it has none, the plain string otherwise |
| Audit.PlainIdsRecordedVerbatim | app/rag/pipeline.py:165 | ids handed over as plain strings are recorded unchanged |
| Audit.Preview | app/logging/audit.py:49 | empty for an empty response; otherwise the first min(n, 100) characters followed by `"..."`, never longer than 103 |
| Audit.BuildEntry | app/logging/audit.py:44-56 | the record keeps role, query and timestamp; the allowed count equals the number of allowed documents and of recorded ids; the blocked count and the latency are kept; the preview is `Preview` of the response, empty exactly when the response is |
| Audit.AuditLog.constructor | app/logging/audit.py:11 | the log starts with the records already in the file |
| Audit.AuditLog.LogRequest | app/logging/audit.py:60-68 | on success exactly the built record is appended; on a write failure the log is unchanged and the failure is only reported; earlier records are never altered |
| Pipeline.AdmittedIndices | app/rag/pipeline.py:106-123 | the allowed positions are exactly those the enforcement point admits, in increasing retrieval order |
| Pipeline.AdmittedIndicesStep | app/rag/pipeline.py:115-122 | one more candidate appends its position to the allowed ones when admitted and adds one to the blocked count otherwise |
| Pipeline.PartitionTotal | app/rag/pipeline.py:117-122 | every retrieved candidate is either allowed or counted as blocked |
| Pipeline.FilterCandidates | app/rag/pipeline.py:96-125 | the loop yields the admitted texts and ids in order and the number refused; texts plus blocked equals the candidates retrieved |
| Pipeline.MissingClassificationChecksInternal | app/rag/pipeline.py:112 | a candidate without a classification key is decided as `internal` |
| Pipeline.EmptyClassificationBlocked | app/security/rbac.py:21-23 | a candidate with an empty classification is never allowed |
| Pipeline.ContextHoldsEachAllowedText | app/rag/pipeline.py:128-131 | every allowed text occurs in the context |
| Pipeline.ContextSize | app/rag/pipeline.py:131 | the length of the context is the allowed texts' total length plus one `"\n\n"` per neighbouring pair |
| Pipeline.ContextAppend | app/rag/pipeline.py:131 | one more allowed text extends the context by `"\n\n"` followed by that text, so the texts appear in retrieval order |
| Pipeline.ContextOfOne | app/rag/pipeline.py:131 | a single allowed text is the whole context |
| Pipeline.PromptDeterminesContext | app/rag/pipeline.py:134-141 | the system prompt determines the context it embeds |
| Pipeline.RbacRagPipeline.constructor | app/rag/pipeline.py:32-44 | the pipeline keeps the given policy and audit log |
| Pipeline.RbacRagPipeline.Ask | app/rag/pipeline.py:65-178 | a retrieval or generation failure ends the request with no record written; otherwise the answer, the allowed texts and the blocked count are returned, and exactly one record with the allowed ids and that count is appended unless the write fails |
| LogFiles.CountEntriesAppend | calculate_general_stats.py:92-98 | counted entries over several files add up file by file |
| Text.StripEmptyIffBlank | calculate_general_stats.py:95 | `line.strip()` is empty exactly when the line is all whitespace |
| Text.StripIsSlice | calculate_general_stats.py:33 | `strip()` returns a slice bounded by non-whitespace with only whitespace cut off at both ends |
| Text.ContainsIff | calculate_general_stats.py:102 | `phrase in response` holds exactly when the phrase occurs at some position |
| Text.JoinLength | export_logs_to_csv.py:87 | the length of a join is the parts' total length plus one separator per neighbouring pair |
| Text.JoinSnoc | export_logs_to_csv.py:87 | joining one more part appends the separator and then that part |
| Text.JoinHasPart | export_logs_to_csv.py:87 | every joined part occurs in the join |
| Stats.LoadDocClassifications | calculate_general_stats.py:18-38 | each class count is the number of documents whose stripped, lower-cased classification (default `internal`) is that class; only classes present get a key; the counts add up to the total; a missing or unreadable file gives no counts and 0 |
| Stats.RoleAccessFailsIff | calculate_general_stats.py:53-67 | parsing the policy fails exactly when some `p` row has fewer than three fields |
| Stats.RoleAccessExact | calculate_general_stats.py:53-64 | after a successful parse a role holds a class exactly when some `p` row grants it (role stripped, class stripped and lower-cased); comment and empty rows grant nothing |
| Stats.DuplicateGrantCollapses | calculate_general_stats.py:62-64 | repeating a grant row changes nothing |
| Stats.ParsePolicyRows | calculate_general_stats.py:48-67 | the parse loop computes the role table of the rows, or the failure |
| Stats.SumAccess | calculate_general_stats.py:72-75 | a role's count is the sum of the document counts of its classes, each class once, 0 for unknown classes |
| Stats.CalculateTheoreticalAccess | calculate_general_stats.py:40-77 | exactly the roles of the parsed table get a count, and it is the sum over their classes; a missing, unreadable or failing policy gives an empty result |
| Stats.AccessWithinKnowledgeBase | calculate_general_stats.py:71-75 | no role may theoretically read more documents than were counted |
| Stats.FindFallbackPhrase | calculate_general_stats.py:101-104 | the scan stops at the first phrase found and reports a hit exactly when some phrase occurs |
| Stats.FallbacksWithinQueries | calculate_general_stats.py:98-104 | a line adds at most one fallback, so fallbacks never exceed queries |
| Stats.CountFallbacksAppend | calculate_general_stats.py:92-104 | fallback counts over several files add up file by file |
| Stats.AnalyzeFile | calculate_general_stats.py:93-105 | one file adds its non-blank decodable lines to the queries and those whose lower-cased response holds one of the given phrases to the fallbacks |
| Stats.AnalyzeLogs | calculate_general_stats.py:79-106 | scanning for the given phrases (the script's `FALLBACK_PHRASES` is `Stats.AsWrittenFallbackPhrases`): no statistics without a log directory; otherwise the file count, the non-blank decodable lines and the lines holding a phrase, at most one per line |
| Stats.CompletedListNeverCountsLess | calculate_general_stats.py:11-16 | over any log, the completed phrase list counts at least the fallbacks the script's list counts |
| Stats.AsWrittenUndercountsRefusalLine | calculate_general_stats.py:92-104 | a log holding one recorded answer 'Dazu liegen mir keine Informationen vor' counts one query, no fallback with the script's list, and one fallback with the completed list |
| Stats.AsWrittenMissesInstructedRefusal | calculate_general_stats.py:11-16 | with the phrase list as written, an answer that is exactly the prescribed refusal 'Dazu liegen mir keine Informationen vor' is not counted as a fallback |
| Stats.InstructedRefusalsDetected | app/rag/pipeline.py:138-139 | with the completed list, any answer that states either prescribed refusal within its first 100 characters is counted as a fallback |
| Export.CleanTextIsCleanEach | export_logs_to_csv.py:11-22 | the chained replacements act character by character: `\n` becomes a space, `\r` is dropped, `;` becomes `,`, everything else is kept |
| Export.CleanTextHasNoBreaking | export_logs_to_csv.py:19-21 | sanitised text holds no line feed, carriage return or semicolon |
| Export.CleanTextLength | export_logs_to_csv.py:19-21 | sanitising shortens the text by exactly its number of carriage returns |
| Export.CleanTextIdempotent | export_logs_to_csv.py:11-22 | sanitising twice is sanitising once |
| Export.TimestampCell | export_logs_to_csv.py:66 | the timestamp cell is a prefix of the timestamp of at most 19 characters, all of it when shorter |
| Export.OldDocIdsExact | export_logs_to_csv.py:85 | the old-format ids are exactly those of entries that have an `id`; when every entry has one, the i-th id is the i-th entry's |
| Export.OldDocIdsAppend | export_logs_to_csv.py:85 | the old-format ids keep the entries' order: they split over concatenation |
| Export.OldDocIdsSingle | export_logs_to_csv.py:85 | one entry contributes its id when it has an `id` key and nothing otherwise |
| Export.ExportRowShape | export_logs_to_csv.py:90-99 | a row has as many cells as the header; its query and answer cells cannot break the row |
| Export.MissingFieldsDefault | export_logs_to_csv.py:66-87 | a record with every key missing is written as empty timestamp, `Unknown` role, empty texts, counts 0, latency `0,0` and no ids |
| Export.DocIdsAllExported | export_logs_to_csv.py:82-87 | every id of `allowed_doc_ids`, or of old `allowed_docs` when that is missing or empty, appears in the Doc-ID cell |
| Export.RecordedEntryExported | export_logs_to_csv.py:63-99 | a record written by the audit recorder is exported with its own fields, timestamp cut to 19 characters and text sanitised |
| Export.ExportedRowsCount | export_logs_to_csv.py:58-105 | exactly the non-blank decodable lines get a row, as many as the statistics script counts queries |
| Export.ExportedRowsShape | export_logs_to_csv.py:40-49 | every exported row has eight cells, like the header |
| Export.ExportFile | export_logs_to_csv.py:56-105 | the line loop appends one row per non-blank decodable line, in order, and skips the rest |
| Export.ExportLogs | export_logs_to_csv.py:24-105 | nothing is written without a log directory; otherwise the header and then the rows of every file in order, with the row count equal to the rows written |

## Left out

- The Casbin enforcer, its model file and its policy file. They are a
  foreign library and configuration. The policy is a set of exact-match
  grants, and the five-case self-test is checked against an assumed thesis
  policy (`Rbac.ThesisPolicy`): Mitarbeiter reads public and internal,
  Vorgesetzter also confidential, Geschaeftsfuehrung also secret.
- Embedding, vector search and the chat completion (network services). They
  are the `retrieve` and `generate` parameters. `RETRIEVAL_COUNT`, the model
  names and the temperature have no effect on the modelled behaviour.
- The ChromaDB result shape (`results['documents'][0]` and the parallel
  `metadatas`/`ids` lists). Candidates arrive as one sequence, and an empty
  result is the empty sequence.
- Clocks. `datetime.now().isoformat()` is the `timestamp` parameter. The
  measured latency is a millisecond count given as input, and the float
  rounding `round(latency_seconds, 3)` is not modelled.
- JSON encoding and decoding, file opening, globbing, CSV reading and writing
  (quoting, the byte-order mark) and console output. Each line is given
  together with its decoded record; JSON values of the wrong type are not
  modelled, so the exceptions they would raise are absent.
- Export.LatencyCell: `str(latency)` (float to text) is not modelled; the
  cell replaces the point in the latency text the reader was given, default
  `0.0`.
- Stats.LoadDocClassifications: an exception raised part-way through the
  documents (after `total` was set) is not modelled; an unreadable file gives
  no counts and a total of 0.
- Text.Lower: lower-cases ASCII and Latin-1 capital letters only; other
  Unicode case mappings are not modelled.
- `print_report` and `main` of calculate_general_stats.py: formatting and
  printing only.
- The exception handler around `log_request` in `ask`
  (app/rag/pipeline.py:169-171). Given its inputs, the modelled recorder
  raises nothing except the write failure it swallows itself.
- The user interface, the evaluation and latency scripts, and the index
  builder. They are not part of this model.

## Findings

| source | as written | input that shows it | evidently intended | confidence | as-written member | corrected member |
|---|---|---|---|---|---|---|
| calculate_general_stats.py:11-16 | the fallback phrases list "dazu habe ich keine informationen", while the system prompt (app/rag/pipeline.py:138-139) tells the model to refuse with 'Dazu liegen mir keine Informationen vor' | an answer that is exactly 'Dazu liegen mir keine Informationen vor': its lower-cased preview contains none of the four phrases, so it is not counted as a fallback | both prescribed refusals count as fallback answers | not executed | Stats.AsWrittenMissesInstructedRefusal | Stats.InstructedRefusalsDetected |

`Stats.AnalyzeLogs` takes the phrase list as a parameter. With
`Stats.AsWrittenFallbackPhrases` it computes what the script computes; with the
completed list `Stats.FallbackPhrases` (the four phrases as written plus
"dazu liegen mir keine informationen vor") it computes the intended count.
`Stats.AsWrittenUndercountsRefusalLine` shows the two differ on a log of one
such answer.
