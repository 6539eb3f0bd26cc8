/**
 * export_logs_to_csv.py: one semicolon-separated table row per decoded,
 * non-blank log line, under a fixed header, with free text sanitised so that
 * it cannot break the row. Files, JSON decoding and the CSV writer are
 * modelled by their inputs and by the sequence of rows written.
 */
module Export {
  import opened Wrappers
  import opened Text
  import opened LogFiles
  import Audit

  /** The column names written first. */
  const Header: seq<string> := [
    "Zeitstempel",
    "Rolle",
    "Suchanfrage (Query)",
    "Antwort (Preview)",
    "Erlaubte Docs (Anzahl)",
    "Blockierte Docs (Anzahl)",
    "Latenz (Sek)",
    "Zugriff auf Doc-IDs"
  ]

  const Columns: nat := 8

  // ---------------------------------------------------------------------
  // clean_text

  /** `clean_text`: the three chained replacements, and `""` for empty input. */
  function CleanText(text: string): string {
    if text == "" then ""
    else ReplaceChar(ReplaceChar(ReplaceChar(text, '\n', " "), '\r', ""), ';', ",")
  }

  /** What `clean_text` does to one character. */
  function CleanChar(c: char): string {
    if c == '\n' then " " else if c == '\r' then "" else if c == ';' then "," else [c]
  }

  /** The reference definition: every character cleaned on its own. */
  function CleanEach(s: string): string
    decreases |s|
  {
    if s == [] then [] else CleanChar(s[0]) + CleanEach(s[1..])
  }

  /** A character that would break a row of the table. */
  predicate IsBreaking(c: char) {
    c == '\n' || c == '\r' || c == ';'
  }

  /** The chained replacements clean every character on its own. */
  lemma {:induction false} CleanTextIsCleanEach(s: string)
    ensures CleanText(s) == CleanEach(s)
    decreases |s|
  {
    if s != [] {
      var rest := s[1..];
      assert s == [s[0]] + rest;
      ReplaceCharAppend([s[0]], rest, '\n', " ");
      var a1, b1 := ReplaceChar([s[0]], '\n', " "), ReplaceChar(rest, '\n', " ");
      ReplaceCharAppend(a1, b1, '\r', "");
      var a2, b2 := ReplaceChar(a1, '\r', ""), ReplaceChar(b1, '\r', "");
      ReplaceCharAppend(a2, b2, ';', ",");
      assert ReplaceChar(ReplaceChar(a1, '\r', ""), ';', ",") == CleanChar(s[0]);
      if rest == [] {
        assert ReplaceChar(ReplaceChar(b1, '\r', ""), ';', ",") == [];
      } else {
        CleanTextIsCleanEach(rest);
      }
    }
  }

  /** No cleaned text holds a line break, a carriage return or a semicolon. */
  lemma {:induction false} CleanTextHasNoBreaking(s: string)
    ensures forall i :: 0 <= i < |CleanText(s)| ==> !IsBreaking(CleanText(s)[i])
  {
    CleanTextIsCleanEach(s);
    CleanEachHasNoBreaking(s);
  }

  lemma {:induction false} CleanEachHasNoBreaking(s: string)
    ensures forall i :: 0 <= i < |CleanEach(s)| ==> !IsBreaking(CleanEach(s)[i])
    decreases |s|
  {
    if s != [] {
      CleanEachHasNoBreaking(s[1..]);
      var h, r := CleanChar(s[0]), CleanEach(s[1..]);
      assert CleanEach(s) == h + r;
      forall i | 0 <= i < |h + r| ensures !IsBreaking((h + r)[i]) {
        if i >= |h| { assert (h + r)[i] == r[i - |h|]; }
      }
    }
  }

  /** Cleaning drops exactly the carriage returns and keeps every other character's place. */
  lemma {:induction false} CleanTextLength(s: string)
    ensures |CleanText(s)| == |s| - multiset(s)['\r']
  {
    CleanTextIsCleanEach(s);
    CleanEachLength(s);
  }

  lemma {:induction false} CleanEachLength(s: string)
    ensures |CleanEach(s)| == |s| - multiset(s)['\r']
    decreases |s|
  {
    if s != [] {
      CleanEachLength(s[1..]);
      assert s == [s[0]] + s[1..];
      assert multiset(s) == multiset([s[0]]) + multiset(s[1..]);
    }
  }

  /** Text without breaking characters passes through cleaning unchanged. */
  lemma {:induction false} CleanEachKeepsClean(s: string)
    requires forall i :: 0 <= i < |s| ==> !IsBreaking(s[i])
    ensures CleanEach(s) == s
    decreases |s|
  {
    if s != [] {
      assert !IsBreaking(s[0]);
      CleanEachKeepsClean(s[1..]);
    }
  }

  /** Cleaning twice is cleaning once. */
  lemma CleanTextIdempotent(s: string)
    ensures CleanText(CleanText(s)) == CleanText(s)
  {
    var c := CleanText(s);
    CleanTextHasNoBreaking(s);
    CleanTextIsCleanEach(c);
    CleanEachKeepsClean(c);
  }

  // ---------------------------------------------------------------------
  // One row per record

  /** `timestamp[:19]`: the date and time part of an ISO timestamp. */
  function TimestampCell(ts: string): (cell: string)
    ensures |cell| <= 19 && cell <= ts
    ensures |ts| <= 19 ==> cell == ts
    ensures |ts| > 19 ==> |cell| == 19
  {
    ts[..Min(|ts|, 19)]
  }

  /** The ids of the old-format `allowed_docs` entries that have an `id` key, in order. */
  function OldDocIds(docs: seq<OldDoc>): seq<string>
    decreases |docs|
  {
    if docs == [] then []
    else (if docs[0].id.Some? then [docs[0].id.value] else []) + OldDocIds(docs[1..])
  }

  /** Exactly the present ids are listed, and all of them, in order, when every entry has one. */
  lemma {:induction false} OldDocIdsExact(docs: seq<OldDoc>)
    ensures forall x :: x in OldDocIds(docs) <==> OldDoc(Some(x)) in docs
    ensures (forall i :: 0 <= i < |docs| ==> docs[i].id.Some?) ==>
              |OldDocIds(docs)| == |docs| && forall i :: 0 <= i < |docs| ==> OldDocIds(docs)[i] == docs[i].id.value
    decreases |docs|
  {
    if docs != [] {
      OldDocIdsExact(docs[1..]);
      assert docs == [docs[0]] + docs[1..];
      forall x ensures x in OldDocIds(docs) <==> OldDoc(Some(x)) in docs {
        assert OldDoc(Some(x)) in docs <==> docs[0] == OldDoc(Some(x)) || OldDoc(Some(x)) in docs[1..];
      }
      if forall i :: 0 <= i < |docs| ==> docs[i].id.Some? {
        assert forall i :: 0 <= i < |docs[1..]| ==> docs[1..][i].id.Some? by {
          forall i | 0 <= i < |docs[1..]| ensures docs[1..][i].id.Some? {
            assert docs[1..][i] == docs[i + 1];
          }
        }
        var rest := OldDocIds(docs[1..]);
        assert OldDocIds(docs) == [docs[0].id.value] + rest;
        forall i | 0 <= i < |docs| ensures OldDocIds(docs)[i] == docs[i].id.value {
          if i > 0 { assert OldDocIds(docs)[i] == rest[i - 1] && docs[1..][i - 1] == docs[i]; }
        }
      }
    }
  }

  /** The old-format ids keep the order of the entries: they split over concatenation. */
  lemma {:induction false} OldDocIdsAppend(a: seq<OldDoc>, b: seq<OldDoc>)
    ensures OldDocIds(a + b) == OldDocIds(a) + OldDocIds(b)
    decreases |a|
  {
    if a == [] {
      assert a + b == b;
    } else {
      var h := if a[0].id.Some? then [a[0].id.value] else [];
      assert (a + b)[0] == a[0];
      assert (a + b)[1..] == a[1..] + b;
      assert OldDocIds(a + b) == h + OldDocIds(a[1..] + b);
      OldDocIdsAppend(a[1..], b);
      assert OldDocIds(a) == h + OldDocIds(a[1..]);
    }
  }

  /** One entry gives its id when it has one and nothing otherwise. */
  lemma OldDocIdsSingle(d: OldDoc)
    ensures OldDocIds([d]) == if d.id.Some? then [d.id.value] else []
  {
    assert [d][1..] == [];
  }

  /** `allowed_doc_ids`, falling back to the old `allowed_docs` when it is missing or empty. */
  function DocIdsColumn(r: LogRecord): seq<string> {
    var ids := r.allowedDocIds.GetOr([]);
    if ids == [] && r.allowedDocs.Some? then OldDocIds(r.allowedDocs.value) else ids
  }

  /** `latency_seconds` as written, with its decimal point made a comma. */
  function LatencyCell(m: Option<MetricsView>): string {
    var text := if m.Some? then m.value.latencyText.GetOr("0.0") else "0.0";
    ReplaceChar(text, '.', ",")
  }

  /** `metrics.get(key, 0)` for one of the two counts. */
  function CountCell(m: Option<MetricsView>, blocked: bool): string {
    var v := if m.None? then None else if blocked then m.value.blockedDocsCount else m.value.allowedDocsCount;
    IntText(v.GetOr(0))
  }

  /** The row written for one decoded record. */
  function ExportRow(r: LogRecord): seq<string> {
    [ TimestampCell(r.timestamp.GetOr("")),
      r.role.GetOr("Unknown"),
      CleanText(r.query.GetOr("")),
      CleanText(ResponseText(r)),
      CountCell(r.metrics, false),
      CountCell(r.metrics, true),
      LatencyCell(r.metrics),
      Join(", ", DocIdsColumn(r)) ]
  }

  /** A row has one cell per header column, and its free-text cells cannot break it. */
  lemma ExportRowShape(r: LogRecord)
    ensures |ExportRow(r)| == |Header| == Columns
    ensures forall i :: 0 <= i < |ExportRow(r)[2]| ==> !IsBreaking(ExportRow(r)[2][i])
    ensures forall i :: 0 <= i < |ExportRow(r)[3]| ==> !IsBreaking(ExportRow(r)[3][i])
    ensures |ExportRow(r)[0]| <= 19
  {
    CleanTextHasNoBreaking(r.query.GetOr(""));
    CleanTextHasNoBreaking(ResponseText(r));
  }

  /** A record with every key missing is written with the documented defaults. */
  lemma MissingFieldsDefault()
    ensures ExportRow(LogRecord(None, None, None, None, None, None, None, None))
            == ["", "Unknown", "", "", "0", "0", "0,0", ""]
  {
    var r := LogRecord(None, None, None, None, None, None, None, None);
    var row := ExportRow(r);
    assert row[0] == "";
    assert row[1] == "Unknown";
    assert row[2] == "";
    assert row[3] == "";
    assert IntText(0) == "0";
    assert row[4] == "0";
    assert row[5] == "0";
    assert ReplaceChar("0.0", '.', ",") == "0" + ReplaceChar(".0", '.', ",");
    assert ReplaceChar(".0", '.', ",") == "," + ReplaceChar("0", '.', ",");
    assert row[6] == "0,0";
    assert row[7] == "";
  }

  /** Every listed document id, new or old format, appears in the Doc-ID cell. */
  lemma DocIdsAllExported(r: LogRecord, id: string)
    requires (r.allowedDocIds.Some? && id in r.allowedDocIds.value)
          || ((r.allowedDocIds.None? || r.allowedDocIds.value == []) && r.allowedDocs.Some?
              && OldDoc(Some(id)) in r.allowedDocs.value)
    ensures Contains(ExportRow(r)[7], id)
  {
    var col := DocIdsColumn(r);
    if r.allowedDocIds.Some? && id in r.allowedDocIds.value {
      assert col == r.allowedDocIds.value;
    } else {
      OldDocIdsExact(r.allowedDocs.value);
    }
    var k :| 0 <= k < |col| && col[k] == id;
    JoinHasPart(", ", col, k);
  }

  /**
   * What the exporter writes for a line the audit recorder produced: the
   * recorded fields, with the timestamp cut to its date and time and the
   * free text sanitised.
   */
  lemma RecordedEntryExported(e: Audit.AuditEntry, latencyText: string)
    ensures ExportRow(ViewOf(e, latencyText))
            == [TimestampCell(e.timestamp), e.role, CleanText(e.query), CleanText(e.responsePreview),
                IntText(e.metrics.allowedDocsCount), IntText(e.metrics.blockedDocsCount),
                ReplaceChar(latencyText, '.', ","), Join(", ", e.allowedDocIds)]
  {
  }

  // ---------------------------------------------------------------------
  // The export loop

  /** The rows written for a sequence of lines: one per entry line, in order. */
  function ExportedRows(lines: seq<LogLine>): seq<seq<string>>
    decreases |lines|
  {
    if lines == [] then []
    else
      var last := lines[|lines| - 1];
      ExportedRows(lines[..|lines| - 1]) + (if IsEntryLine(last) then [ExportRow(last.record.value)] else [])
  }

  /** Exactly the entry lines give a row: as many rows as the statistics count queries. */
  lemma {:induction false} ExportedRowsCount(lines: seq<LogLine>)
    ensures |ExportedRows(lines)| == CountEntries(lines)
    decreases |lines|
  {
    if lines != [] {
      ExportedRowsCount(lines[..|lines| - 1]);
    }
  }

  /** Every row written has one cell per header column. */
  lemma {:induction false} ExportedRowsShape(lines: seq<LogLine>)
    ensures forall k :: 0 <= k < |ExportedRows(lines)| ==> |ExportedRows(lines)[k]| == Columns
    decreases |lines|
  {
    if lines != [] {
      ExportedRowsShape(lines[..|lines| - 1]);
      var last := lines[|lines| - 1];
      if IsEntryLine(last) { ExportRowShape(last.record.value); }
    }
  }

  /** Exporting splits over concatenation. */
  lemma {:induction false} ExportedRowsAppend(a: seq<LogLine>, b: seq<LogLine>)
    ensures ExportedRows(a + b) == ExportedRows(a) + ExportedRows(b)
    decreases |b|
  {
    if b == [] {
      assert a + b == a;
    } else {
      var n := |b| - 1;
      assert (a + b)[..|a + b| - 1] == a + b[..n];
      assert (a + b)[|a + b| - 1] == b[n];
      ExportedRowsAppend(a, b[..n]);
    }
  }

  /** The inner loop of `export_logs` over the lines of one file. */
  method ExportFile(lines: seq<LogLine>) returns (rows: seq<seq<string>>)
    ensures rows == ExportedRows(lines)
  {
    rows := [];
    for j := 0 to |lines|
      invariant rows == ExportedRows(lines[..j])
    {
      assert lines[..j + 1][..j] == lines[..j];
      var line := lines[j];
      StripEmptyIffBlank(line.raw);
      if Strip(line.raw) == "" {
        continue;
      }
      match line.record {
        case None =>
        case Some(data) =>
          rows := rows + [ExportRow(data)];
      }
    }
    assert lines[..|lines|] == lines;
  }

  /**
   * `export_logs`: nothing without a log directory; otherwise the header
   * followed by one row per entry line of every file, and the row count.
   */
  method ExportLogs(logDir: Option<seq<seq<LogLine>>>) returns (table: Option<seq<seq<string>>>, rowCount: nat)
    ensures logDir == None ==> table == None && rowCount == 0
    ensures logDir.Some? ==> table == Some([Header] + ExportedRows(Flatten(logDir.value)))
    ensures logDir.Some? ==> rowCount == CountEntries(Flatten(logDir.value)) == |table.value| - 1
  {
    if logDir == None {
      return None, 0;
    }
    var files := logDir.value;
    var rows: seq<seq<string>> := [Header];
    rowCount := 0;
    for f := 0 to |files|
      invariant rows == [Header] + ExportedRows(Flatten(files[..f]))
      invariant rowCount == |rows| - 1
    {
      assert files[..f + 1][..f] == files[..f];
      assert Flatten(files[..f + 1]) == Flatten(files[..f]) + files[f];
      ExportedRowsAppend(Flatten(files[..f]), files[f]);
      var fileRows := ExportFile(files[f]);
      rows := rows + fileRows;
      rowCount := rowCount + |fileRows|;
    }
    assert files[..|files|] == files;
    ExportedRowsCount(Flatten(files));
    table := Some(rows);
  }
}
