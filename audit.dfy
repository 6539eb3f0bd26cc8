/**
 * The audit recorder of app/logging/audit.py: one record per answered request,
 * appended to a JSON-lines log. The record is modelled as a datatype and the
 * log file as the sequence of records it holds.
 */
module Audit {
  import opened Wrappers
  import opened Text

  /**
   * An element of the `allowed_docs` argument: either a document object, whose
   * `"id"` key may be missing, or a plain value given by its string form.
   */
  datatype DocRef = DocObject(id: Option<string>) | DocText(text: string)

  /** The id written for a document object without an `"id"` key. */
  const UnknownId: string := "unknown_id"

  /** The id recorded for one element of `allowed_docs`. */
  function DocId(d: DocRef): string {
    match d
    case DocObject(id) => id.GetOr(UnknownId)
    case DocText(text) => text
  }

  /** The ids recorded for `allowed_docs`, element by element. */
  function DocIdsOf(docs: seq<DocRef>): seq<string> {
    seq(|docs|, i requires 0 <= i < |docs| => DocId(docs[i]))
  }

  /** The loop of `log_request` that collects `allowed_doc_ids`. */
  method ExtractDocIds(docs: seq<DocRef>) returns (ids: seq<string>)
    ensures |ids| == |docs|
    ensures forall i :: 0 <= i < |docs| ==> ids[i] == DocId(docs[i])
  {
    ids := [];
    for k := 0 to |docs|
      invariant |ids| == k
      invariant forall i :: 0 <= i < k ==> ids[i] == DocId(docs[i])
    {
      ids := ids + [DocId(docs[k])];
    }
  }

  /** Plain id strings, as the pipeline passes them. */
  function AsDocRefs(ids: seq<string>): seq<DocRef> {
    seq(|ids|, i requires 0 <= i < |ids| => DocText(ids[i]))
  }

  /** Ids handed over as plain strings are recorded unchanged and in order. */
  lemma PlainIdsRecordedVerbatim(ids: seq<string>)
    ensures DocIdsOf(AsDocRefs(ids)) == ids
  {
  }

  /** At most this many characters of the answer are kept. */
  const PreviewLimit: nat := 100

  /** Appended to every non-empty preview. */
  const Marker: string := "..."

  /**
   * `response_text[:100] + "..." if response_text else ""`: an empty answer
   * gives an empty preview; any other answer gives its first (at most) 100
   * characters followed by the marker, even when nothing was cut.
   */
  function Preview(response: string): (p: string)
    ensures response == "" ==> p == ""
    ensures response != "" ==> |p| == Min(|response|, PreviewLimit) + |Marker|
    ensures response != "" ==> p[..|p| - |Marker|] == response[..|p| - |Marker|]
    ensures response != "" ==> p[|p| - |Marker|..] == Marker
    ensures |p| <= PreviewLimit + |Marker|
  {
    if response == "" then ""
    else response[..Min(|response|, PreviewLimit)] + Marker
  }

  /** The `metrics` object of a record; latency is in whole milliseconds. */
  datatype Metrics = Metrics(allowedDocsCount: nat, blockedDocsCount: int, latencyMillis: nat)

  /** One line of the audit log. */
  datatype AuditEntry = AuditEntry(
    timestamp: string,
    role: string,
    query: string,
    responsePreview: string,
    metrics: Metrics,
    allowedDocIds: seq<string>)

  /**
   * The record `log_request` builds: role and query verbatim, the answer as a
   * preview, the allowed documents counted and listed by id in their order, and
   * the blocked count as given. The timestamp is supplied by the caller.
   */
  function BuildEntry(timestamp: string, role: string, query: string, responseText: string,
                      allowedDocs: seq<DocRef>, blockedCount: int, latencyMillis: nat): (e: AuditEntry)
    ensures e.role == role && e.query == query && e.timestamp == timestamp
    ensures e.metrics.allowedDocsCount == |allowedDocs| == |e.allowedDocIds|
    ensures forall i :: 0 <= i < |allowedDocs| ==> e.allowedDocIds[i] == DocId(allowedDocs[i])
    ensures e.metrics.blockedDocsCount == blockedCount && e.metrics.latencyMillis == latencyMillis
    ensures e.responsePreview == Preview(responseText)
    ensures e.responsePreview == "" <==> responseText == ""
    ensures |e.responsePreview| <= PreviewLimit + |Marker|
  {
    AuditEntry(timestamp, role, query, Preview(responseText),
               Metrics(|allowedDocs|, blockedCount, latencyMillis), DocIdsOf(allowedDocs))
  }

  /** Whether the append reached the file. */
  datatype WriteOutcome = Written | WriteFailed

  /** The JSON-lines log file, opened in append mode for each record. */
  class AuditLog {
    var entries: seq<AuditEntry>

    /** A log that already holds `existing` from earlier runs. */
    constructor (existing: seq<AuditEntry>)
      ensures entries == existing
    {
      entries := existing;
    }

    /**
     * `log_request`: builds the record and appends it. When the storage
     * refuses the write (`writeFails`, an `IOError` in the source) the error is
     * reported and swallowed: the call still returns and the log is unchanged.
     * Earlier records are never altered.
     */
    method LogRequest(timestamp: string, role: string, query: string, responseText: string,
                      allowedDocs: seq<DocRef>, blockedCount: int, latencyMillis: nat,
                      writeFails: bool) returns (outcome: WriteOutcome)
      modifies this
      ensures outcome == (if writeFails then WriteFailed else Written)
      ensures old(entries) <= entries
      ensures entries == if writeFails then old(entries)
                         else old(entries) + [BuildEntry(timestamp, role, query, responseText,
                                                         allowedDocs, blockedCount, latencyMillis)]
    {
      var ids := ExtractDocIds(allowedDocs);
      assert ids == DocIdsOf(allowedDocs);
      var entry := AuditEntry(timestamp, role, query, Preview(responseText),
                              Metrics(|allowedDocs|, blockedCount, latencyMillis), ids);
      if writeFails {
        outcome := WriteFailed;
      } else {
        entries := entries + [entry];
        outcome := Written;
      }
    }
  }
}
