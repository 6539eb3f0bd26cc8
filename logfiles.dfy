/**
 * The audit log as the offline scripts read it back (calculate_general_stats.py
 * and export_logs_to_csv.py): files of lines, each line either blank, not
 * decodable as JSON, or a decoded record whose keys may be missing.
 */
module LogFiles {
  import opened Wrappers
  import opened Text
  import Audit

  /** The `metrics` object as a reader finds it; any key may be missing. */
  datatype MetricsView = MetricsView(allowedDocsCount: Option<int>, blockedDocsCount: Option<int>,
                                     latencyText: Option<string>)

  /** An element of the `allowed_docs` list of older records. */
  datatype OldDoc = OldDoc(id: Option<string>)

  /**
   * A decoded log line. Older records carry `response_content` and
   * `allowed_docs` instead of `response_preview` and `allowed_doc_ids`.
   */
  datatype LogRecord = LogRecord(
    timestamp: Option<string>,
    role: Option<string>,
    query: Option<string>,
    responsePreview: Option<string>,
    responseContent: Option<string>,
    metrics: Option<MetricsView>,
    allowedDocIds: Option<seq<string>>,
    allowedDocs: Option<seq<OldDoc>>)

  /**
   * What a reader decodes from a line the audit recorder wrote; `latencyText`
   * is the decimal text the JSON encoder wrote for the latency.
   */
  function ViewOf(e: Audit.AuditEntry, latencyText: string): LogRecord {
    LogRecord(Some(e.timestamp), Some(e.role), Some(e.query), Some(e.responsePreview), None,
              Some(MetricsView(Some(e.metrics.allowedDocsCount), Some(e.metrics.blockedDocsCount),
                               Some(latencyText))),
              Some(e.allowedDocIds), None)
  }

  /** One physical line of a log file; `record` is `None` when JSON decoding fails. */
  datatype LogLine = LogLine(raw: string, record: Option<LogRecord>)

  /** A line both scripts act on: not blank, and decodable. */
  predicate IsEntryLine(line: LogLine) {
    !IsBlank(line.raw) && line.record.Some?
  }

  /** `response_preview`, else `response_content`, else the empty string. */
  function ResponseText(r: LogRecord): string {
    match r.responsePreview
    case Some(p) => p
    case None => r.responseContent.GetOr("")
  }

  /** The lines of all files, file after file. */
  function Flatten(files: seq<seq<LogLine>>): seq<LogLine>
    decreases |files|
  {
    if files == [] then [] else Flatten(files[..|files| - 1]) + files[|files| - 1]
  }

  /** The number of entry lines. */
  function CountEntries(lines: seq<LogLine>): nat
    decreases |lines|
  {
    if lines == [] then 0
    else CountEntries(lines[..|lines| - 1]) + (if IsEntryLine(lines[|lines| - 1]) then 1 else 0)
  }

  /** Counting entry lines splits over concatenation. */
  lemma {:induction false} CountEntriesAppend(a: seq<LogLine>, b: seq<LogLine>)
    ensures CountEntries(a + b) == CountEntries(a) + CountEntries(b)
    decreases |b|
  {
    if b == [] {
      assert a + b == a;
    } else {
      var n := |b| - 1;
      assert (a + b)[..|a + b| - 1] == a + b[..n];
      assert (a + b)[|a + b| - 1] == b[n];
      CountEntriesAppend(a, b[..n]);
    }
  }
}
