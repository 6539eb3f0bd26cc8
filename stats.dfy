/**
 * The descriptive statistics of calculate_general_stats.py: documents per
 * classification, the number of documents each role may theoretically read
 * according to the policy table, and query and fallback counts from the logs.
 * File access and JSON/CSV decoding are inputs.
 */
module Stats {
  import opened Wrappers
  import opened Text
  import opened LogFiles
  import Audit
  import Pipeline

  /** `m.get(k, 0)`. */
  function Get(m: map<string, nat>, k: string): nat {
    if k in m then m[k] else 0
  }

  ghost function Pick(s: set<string>): (x: string)
    requires s != {}
    ensures x in s
  {
    var x :| x in s; x
  }

  /** The sum of `m.get(k, 0)` over the keys `keys`, each counted once. */
  ghost function SumOver(keys: set<string>, m: map<string, nat>): nat
    decreases |keys|
  {
    if keys == {} then 0 else var k := Pick(keys); Get(m, k) + SumOver(keys - {k}, m)
  }

  /** The sum does not depend on which key is taken first. */
  lemma {:induction false} SumOverRemove(keys: set<string>, m: map<string, nat>, x: string)
    requires x in keys
    ensures SumOver(keys, m) == Get(m, x) + SumOver(keys - {x}, m)
    decreases |keys|
  {
    var k := Pick(keys);
    if k != x {
      SumOverRemove(keys - {k}, m, x);
      assert keys - {k} - {x} == keys - {x} - {k};
      SumOverRemove(keys - {x}, m, k);
    }
  }

  /** Maps that agree on the keys give the same sum. */
  lemma {:induction false} SumOverAgree(keys: set<string>, m1: map<string, nat>, m2: map<string, nat>)
    requires forall k :: k in keys ==> Get(m1, k) == Get(m2, k)
    ensures SumOver(keys, m1) == SumOver(keys, m2)
    decreases |keys|
  {
    if keys != {} {
      var k := Pick(keys);
      SumOverAgree(keys - {k}, m1, m2);
    }
  }

  /** `counts[k] = counts.get(k, 0) + 1` raises the total of the map by one. */
  lemma SumOverIncrement(m: map<string, nat>, k: string)
    ensures SumOver(m[k := Get(m, k) + 1].Keys, m[k := Get(m, k) + 1]) == SumOver(m.Keys, m) + 1
  {
    var m' := m[k := Get(m, k) + 1];
    SumOverRemove(m'.Keys, m', k);
    assert m'.Keys - {k} == m.Keys - {k};
    SumOverAgree(m.Keys - {k}, m', m);
    if k in m {
      SumOverRemove(m.Keys, m, k);
    } else {
      assert m.Keys - {k} == m.Keys;
    }
  }

  /** Keys outside the map add nothing, so a sum over any keys is bounded by one over a superset of its mapped keys. */
  lemma {:induction false} SumOverBound(a: set<string>, b: set<string>, m: map<string, nat>)
    requires forall x :: x in a && x in m ==> x in b
    ensures SumOver(a, m) <= SumOver(b, m)
    decreases |a|
  {
    if a != {} {
      var x := Pick(a);
      if x in m {
        SumOverRemove(b, m, x);
        SumOverBound(a - {x}, b - {x}, m);
      } else {
        SumOverBound(a - {x}, b, m);
      }
    }
  }

  // ---------------------------------------------------------------------
  // load_doc_classifications

  /** A document of the knowledge base, reduced to its classification metadata. */
  datatype DocMeta = DocMeta(classification: Option<string>)

  /** The documents file: absent, not decodable, or a list of documents. */
  datatype DocsFile = DocsMissing | DocsUnreadable | DocsLoaded(docs: seq<DocMeta>)

  const DefaultClass: string := "internal"

  /** The class a document is counted under: stripped and lower-cased, `internal` by default. */
  function NormalizedClass(d: DocMeta): string {
    Lower(Strip(d.classification.GetOr(DefaultClass)))
  }

  /** The number of documents counted under `cls`. */
  function CountClass(docs: seq<DocMeta>, cls: string): nat
    decreases |docs|
  {
    if docs == [] then 0
    else CountClass(docs[..|docs| - 1], cls) + (if NormalizedClass(docs[|docs| - 1]) == cls then 1 else 0)
  }

  /**
   * `load_doc_classifications`: every document adds one to exactly the count
   * of its class, so the counts add up to `total`; a missing or undecodable
   * file gives no counts and a total of zero.
   */
  method LoadDocClassifications(file: DocsFile) returns (counts: map<string, nat>, total: nat)
    ensures !file.DocsLoaded? ==> counts == map[] && total == 0
    ensures file.DocsLoaded? ==> total == |file.docs|
    ensures file.DocsLoaded? ==> forall c :: Get(counts, c) == CountClass(file.docs, c)
    ensures forall c :: c in counts ==> counts[c] > 0
    ensures SumOver(counts.Keys, counts) == total
  {
    counts := map[];
    if !file.DocsLoaded? {
      return counts, 0;
    }
    var docs := file.docs;
    total := |docs|;
    for i := 0 to |docs|
      invariant forall c :: Get(counts, c) == CountClass(docs[..i], c)
      invariant forall c :: c in counts ==> counts[c] > 0
      invariant SumOver(counts.Keys, counts) == i
    {
      assert docs[..i + 1][..i] == docs[..i];
      var cls := NormalizedClass(docs[i]);
      SumOverIncrement(counts, cls);
      counts := counts[cls := Get(counts, cls) + 1];
    }
    assert docs[..|docs|] == docs;
  }

  // ---------------------------------------------------------------------
  // calculate_theoretical_access

  /** The policy file: absent, unreadable as CSV, or its rows of fields. */
  datatype PolicyFile = PolicyMissing | PolicyUnreadable | PolicyRows(rows: seq<seq<string>>)

  /** An empty row, or one whose first field starts with `#`. */
  predicate IsSkippedRow(row: seq<string>) {
    row == [] || StartsWith(Strip(row[0]), "#")
  }

  /** A row whose stripped first field is exactly `p`. */
  predicate IsGrantRow(row: seq<string>) {
    !IsSkippedRow(row) && Strip(row[0]) == "p"
  }

  /** A grant row too short to index its role and class: an `IndexError` in the source. */
  predicate IsShortGrantRow(row: seq<string>) {
    IsGrantRow(row) && |row| < 3
  }

  /** The row grants `role` (stripped) the class `cls` (stripped, lower-cased). */
  predicate RowGrants(row: seq<string>, role: string, cls: string) {
    IsGrantRow(row) && |row| >= 3 && Strip(row[1]) == role && Lower(Strip(row[2])) == cls
  }

  /** `role_access`: role to the set of classes it may read. */
  type RoleAccess = map<string, set<string>>

  function AddGrant(ra: RoleAccess, role: string, cls: string): RoleAccess {
    ra[role := (if role in ra then ra[role] else {}) + {cls}]
  }

  /** One row of the parse loop; `None` is the exception that aborts it. */
  function ApplyRow(ra: RoleAccess, row: seq<string>): Option<RoleAccess> {
    if !IsGrantRow(row) then Some(ra)
    else if |row| < 3 then None
    else Some(AddGrant(ra, Strip(row[1]), Lower(Strip(row[2]))))
  }

  /** The role table after the rows, or `None` once a row raised. */
  function RoleAccessOf(rows: seq<seq<string>>): Option<RoleAccess>
    decreases |rows|
  {
    if rows == [] then Some(map[])
    else
      match RoleAccessOf(rows[..|rows| - 1])
      case None => None
      case Some(ra) => ApplyRow(ra, rows[|rows| - 1])
  }

  /** Once the parse has failed, later rows do not revive it. */
  lemma {:induction false} FailurePersists(rows: seq<seq<string>>, k: nat)
    requires k <= |rows| && RoleAccessOf(rows[..k]) == None
    ensures RoleAccessOf(rows) == None
    decreases |rows| - k
  {
    if k < |rows| {
      assert rows[..k + 1][..k] == rows[..k];
      FailurePersists(rows, k + 1);
    } else {
      assert rows[..k] == rows;
    }
  }

  /** A short grant row among `rows` is one among all but the last, or the last. */
  lemma ShortGrantRowSplit(rows: seq<seq<string>>, init: seq<seq<string>>)
    requires rows != [] && init == rows[..|rows| - 1]
    ensures (exists i :: 0 <= i < |rows| && IsShortGrantRow(rows[i]))
            <==> (exists i :: 0 <= i < |init| && IsShortGrantRow(init[i])) || IsShortGrantRow(rows[|rows| - 1])
  {
    if exists i :: 0 <= i < |init| && IsShortGrantRow(init[i]) {
      var i :| 0 <= i < |init| && IsShortGrantRow(init[i]);
      assert rows[i] == init[i];
    }
    if exists i :: 0 <= i < |rows| && IsShortGrantRow(rows[i]) {
      var i :| 0 <= i < |rows| && IsShortGrantRow(rows[i]);
      if i < |init| { assert init[i] == rows[i]; }
    }
  }

  /** The parse fails exactly when some grant row is too short. */
  lemma {:induction false} RoleAccessFailsIff(rows: seq<seq<string>>)
    ensures RoleAccessOf(rows) == None <==> exists i :: 0 <= i < |rows| && IsShortGrantRow(rows[i])
    decreases |rows|
  {
    if rows != [] {
      var init := rows[..|rows| - 1];
      RoleAccessFailsIff(init);
      ShortGrantRowSplit(rows, init);
    }
  }

  /** A row of `rows` granting `cls` to `role` is one of all but the last, or the last. */
  lemma GrantingRowSplit(rows: seq<seq<string>>, init: seq<seq<string>>, role: string, cls: string)
    requires rows != [] && init == rows[..|rows| - 1]
    ensures (exists i :: 0 <= i < |rows| && RowGrants(rows[i], role, cls))
            <==> (exists i :: 0 <= i < |init| && RowGrants(init[i], role, cls))
                 || RowGrants(rows[|rows| - 1], role, cls)
  {
    if exists i :: 0 <= i < |init| && RowGrants(init[i], role, cls) {
      var i :| 0 <= i < |init| && RowGrants(init[i], role, cls);
      assert rows[i] == init[i];
    }
    if exists i :: 0 <= i < |rows| && RowGrants(rows[i], role, cls) {
      var i :| 0 <= i < |rows| && RowGrants(rows[i], role, cls);
      if i < |init| { assert init[i] == rows[i]; }
    }
  }

  /** After a successful parse a role holds a class exactly when some `p` row grants it. */
  lemma {:induction false} RoleAccessExact(rows: seq<seq<string>>, role: string, cls: string)
    requires RoleAccessOf(rows).Some?
    ensures var ra := RoleAccessOf(rows).value;
            (role in ra && cls in ra[role]) <==> exists i :: 0 <= i < |rows| && RowGrants(rows[i], role, cls)
    decreases |rows|
  {
    if rows != [] {
      var init := rows[..|rows| - 1];
      RoleAccessExact(init, role, cls);
      GrantingRowSplit(rows, init, role, cls);
    }
  }

  /** Repeating a grant that is already in the table changes nothing. */
  lemma DuplicateGrantCollapses(rows: seq<seq<string>>, i: int)
    requires RoleAccessOf(rows).Some? && 0 <= i < |rows| && IsGrantRow(rows[i]) && |rows[i]| >= 3
    ensures RoleAccessOf(rows + [rows[i]]) == RoleAccessOf(rows)
  {
    var row := rows[i];
    var role, cls := Strip(row[1]), Lower(Strip(row[2]));
    assert RowGrants(rows[i], role, cls);
    RoleAccessExact(rows, role, cls);
    var ra := RoleAccessOf(rows).value;
    assert role in ra && cls in ra[role];
    var longer := rows + [row];
    assert longer[..|longer| - 1] == rows;
    assert longer[|longer| - 1] == row;
    assert RoleAccessOf(longer) == ApplyRow(ra, row);
    assert ra[role] + {cls} == ra[role];
    assert AddGrant(ra, role, cls) == ra;
  }

  /** The parse loop of `calculate_theoretical_access`. */
  method ParsePolicyRows(rows: seq<seq<string>>) returns (parsed: Option<RoleAccess>)
    ensures parsed == RoleAccessOf(rows)
  {
    var acc: RoleAccess := map[];
    for i := 0 to |rows|
      invariant RoleAccessOf(rows[..i]) == Some(acc)
    {
      var row := rows[i];
      assert rows[..i + 1][..i] == rows[..i];
      assert RoleAccessOf(rows[..i + 1]) == ApplyRow(acc, row);
      if row == [] || StartsWith(Strip(row[0]), "#") {
        continue;
      }
      if Strip(row[0]) == "p" {
        if |row| < 3 {
          FailurePersists(rows, i + 1);
          return None;
        }
        var role := Strip(row[1]);
        var cls := Lower(Strip(row[2]));
        ghost var expected := AddGrant(acc, role, cls);
        if role !in acc {
          acc := acc[role := {}];
        }
        acc := acc[role := acc[role] + {cls}];
        assert acc == expected;
      }
    }
    assert rows[..|rows|] == rows;
    parsed := Some(acc);
  }

  /** The inner summing loop: `doc_counts.get(cls, 0)` over the role's distinct classes. */
  method SumAccess(classes: set<string>, docCounts: map<string, nat>) returns (count: nat)
    ensures count == SumOver(classes, docCounts)
  {
    count := 0;
    var rest := classes;
    while rest != {}
      invariant count + SumOver(rest, docCounts) == SumOver(classes, docCounts)
      decreases |rest|
    {
      var c :| c in rest;
      SumOverRemove(rest, docCounts, c);
      count := count + Get(docCounts, c);
      rest := rest - {c};
    }
  }

  /**
   * `calculate_theoretical_access`: for each role of the policy, the number of
   * documents in the classes it is granted. A missing or unreadable file, or a
   * row that raises, gives the empty result.
   */
  method CalculateTheoreticalAccess(docCounts: map<string, nat>, file: PolicyFile)
    returns (access: map<string, nat>)
    ensures file.PolicyRows? && RoleAccessOf(file.rows).Some? ==>
              var ra := RoleAccessOf(file.rows).value;
              access.Keys == ra.Keys && forall r :: r in access ==> access[r] == SumOver(ra[r], docCounts)
    ensures !(file.PolicyRows? && RoleAccessOf(file.rows).Some?) ==> access == map[]
  {
    if !file.PolicyRows? {
      return map[];
    }
    var parsed := ParsePolicyRows(file.rows);
    if parsed == None {
      return map[];
    }
    var ra := parsed.value;
    access := map[];
    var roles := ra.Keys;
    while roles != {}
      invariant roles <= ra.Keys
      invariant access.Keys == ra.Keys - roles
      invariant forall r :: r in access ==> access[r] == SumOver(ra[r], docCounts)
      decreases |roles|
    {
      var role :| role in roles;
      var count := SumAccess(ra[role], docCounts);
      access := access[role := count];
      roles := roles - {role};
    }
  }

  /** No role is counted more documents than the knowledge base holds. */
  lemma AccessWithinKnowledgeBase(classes: set<string>, docCounts: map<string, nat>)
    ensures SumOver(classes, docCounts) <= SumOver(docCounts.Keys, docCounts)
  {
    SumOverBound(classes, docCounts.Keys, docCounts);
  }

  // ---------------------------------------------------------------------
  // analyze_logs

  /** `FALLBACK_PHRASES` as the script lists them. */
  const AsWrittenFallbackPhrases: seq<string> := [
    "das wei\U{DF} ich nicht",
    "dazu habe ich keine informationen",
    "ich kann diese frage nicht beantworten",
    "keine relevanten dokumente gefunden"
  ]

  /** The list completed with the second refusal the system prompt prescribes. */
  const FallbackPhrases: seq<string> :=
    AsWrittenFallbackPhrases + ["dazu liegen mir keine informationen vor"]

  /** Some phrase of the list occurs in the (lower-cased) response. */
  predicate HasFallbackPhrase(phrases: seq<string>, response: string) {
    exists k :: 0 <= k < |phrases| && Contains(response, phrases[k])
  }

  /** The phrase loop: stops at the first phrase found. */
  method FindFallbackPhrase(phrases: seq<string>, response: string) returns (hit: bool)
    ensures hit == HasFallbackPhrase(phrases, response)
  {
    hit := false;
    for k := 0 to |phrases|
      invariant !hit
      invariant forall m :: 0 <= m < k ==> !Contains(response, phrases[m])
    {
      if Contains(response, phrases[k]) {
        hit := true;
        break;
      }
    }
  }

  /** A decoded line whose lower-cased response holds a fallback phrase. */
  predicate IsFallbackLine(phrases: seq<string>, line: LogLine) {
    IsEntryLine(line) && HasFallbackPhrase(phrases, Lower(ResponseText(line.record.value)))
  }

  /** The number of fallback lines, each counted once. */
  function CountFallbacks(phrases: seq<string>, lines: seq<LogLine>): nat
    decreases |lines|
  {
    if lines == [] then 0
    else CountFallbacks(phrases, lines[..|lines| - 1])
         + (if IsFallbackLine(phrases, lines[|lines| - 1]) then 1 else 0)
  }

  /** A line adds at most one fallback and only if it counts as a query. */
  lemma {:induction false} FallbacksWithinQueries(phrases: seq<string>, lines: seq<LogLine>)
    ensures CountFallbacks(phrases, lines) <= CountEntries(lines)
    decreases |lines|
  {
    if lines != [] { FallbacksWithinQueries(phrases, lines[..|lines| - 1]); }
  }

  /** Counting fallback lines splits over concatenation. */
  lemma {:induction false} CountFallbacksAppend(phrases: seq<string>, a: seq<LogLine>, b: seq<LogLine>)
    ensures CountFallbacks(phrases, a + b) == CountFallbacks(phrases, a) + CountFallbacks(phrases, b)
    decreases |b|
  {
    if b == [] {
      assert a + b == a;
    } else {
      var n := |b| - 1;
      assert (a + b)[..|a + b| - 1] == a + b[..n];
      assert (a + b)[|a + b| - 1] == b[n];
      CountFallbacksAppend(phrases, a, b[..n]);
    }
  }

  /** The line loop of `analyze_logs` over one file. */
  method AnalyzeFile(phrases: seq<string>, lines: seq<LogLine>) returns (queries: nat, fallbacks: nat)
    ensures queries == CountEntries(lines)
    ensures fallbacks == CountFallbacks(phrases, lines)
  {
    queries, fallbacks := 0, 0;
    for j := 0 to |lines|
      invariant queries == CountEntries(lines[..j])
      invariant fallbacks == CountFallbacks(phrases, lines[..j])
    {
      assert lines[..j + 1][..j] == lines[..j];
      var line := lines[j];
      StripEmptyIffBlank(line.raw);
      if Strip(line.raw) != "" && line.record.Some? {
        queries := queries + 1;
        var hit := FindFallbackPhrase(phrases, Lower(ResponseText(line.record.value)));
        if hit {
          fallbacks := fallbacks + 1;
        }
      }
    }
    assert lines[..|lines|] == lines;
  }

  /** The `stats` dictionary of `analyze_logs`. */
  datatype LogStats = LogStats(filesCount: nat, totalQueries: nat, fallbackCount: nat)

  /**
   * `analyze_logs` scanning for `phrases` (the script's own list is
   * `AsWrittenFallbackPhrases`): no statistics without a log directory;
   * otherwise the number of files, of decoded non-blank lines, and of those
   * whose response holds one of the phrases (at most once per line).
   */
  method AnalyzeLogs(phrases: seq<string>, logDir: Option<seq<seq<LogLine>>>) returns (stats: Option<LogStats>)
    ensures logDir == None ==> stats == None
    ensures logDir.Some? ==>
              stats == Some(LogStats(|logDir.value|, CountEntries(Flatten(logDir.value)),
                                     CountFallbacks(phrases, Flatten(logDir.value))))
    ensures stats.Some? ==> stats.value.fallbackCount <= stats.value.totalQueries
  {
    if logDir == None {
      return None;
    }
    var files := logDir.value;
    var total, fallback := 0, 0;
    for f := 0 to |files|
      invariant total == CountEntries(Flatten(files[..f]))
      invariant fallback == CountFallbacks(phrases, Flatten(files[..f]))
    {
      assert files[..f + 1][..f] == files[..f];
      assert Flatten(files[..f + 1]) == Flatten(files[..f]) + files[f];
      CountEntriesAppend(Flatten(files[..f]), files[f]);
      CountFallbacksAppend(phrases, Flatten(files[..f]), files[f]);
      var queries, fallbacks := AnalyzeFile(phrases, files[f]);
      total := total + queries;
      fallback := fallback + fallbacks;
    }
    assert files[..|files|] == files;
    FallbacksWithinQueries(phrases, Flatten(files));
    stats := Some(LogStats(|files|, total, fallback));
  }

  // ---------------------------------------------------------------------
  // The fallback phrases and the refusals the system prompt prescribes

  /** The logged preview of the second prescribed refusal, lower-cased. */
  const LoweredRefusalPreview: string := "dazu liegen mir keine informationen vor..."

  lemma RefusalPreviewLowered()
    ensures Lower(Audit.Preview(Pipeline.RefusalNoInformation)) == LoweredRefusalPreview
  {
    assert Audit.Preview(Pipeline.RefusalNoInformation) == Pipeline.RefusalNoInformation + Audit.Marker;
  }

  /** A phrase whose first letter starts no window of `s` does not occur in `s`. */
  lemma FirstLetterStartsNoWindow(s: string, p: string)
    requires |p| > 0
    requires forall i :: 0 <= i <= |s| - |p| ==> s[i] != p[0]
    ensures !Contains(s, p)
  {
    ContainsIff(s, p);
    forall i | 0 <= i <= |s| - |p| ensures !OccursAt(s, p, i) {
      assert s[i..i + |p|][0] == s[i];
    }
  }

  /** The last listed phrase starts with `k`, and no window of the preview does. */
  lemma RefusalPreviewLacksLastPhrase()
    ensures !Contains(LoweredRefusalPreview, AsWrittenFallbackPhrases[3])
  {
    var s, p := LoweredRefusalPreview, AsWrittenFallbackPhrases[3];
    assert |s| - |p| == 7 && p[0] == 'k';
    assert s[0] == 'd' && s[1] == 'a' && s[2] == 'z' && s[3] == 'u' && s[4] == ' ' && s[5] == 'l' && s[6] == 'i' && s[7] == 'e';
    FirstLetterStartsNoWindow(s, p);
  }

  /** The first listed phrase has a `w`, which the preview lacks. */
  lemma RefusalPreviewLacksPhrase0()
    ensures !Contains(LoweredRefusalPreview, AsWrittenFallbackPhrases[0])
  {
    var p := AsWrittenFallbackPhrases[0];
    assert p[4] == 'w' && 'w' !in LoweredRefusalPreview;
    MissingCharNotContained(LoweredRefusalPreview, p, 4);
  }

  /** The second listed phrase has an `h`, which the preview lacks. */
  lemma RefusalPreviewLacksPhrase1()
    ensures !Contains(LoweredRefusalPreview, AsWrittenFallbackPhrases[1])
  {
    var p := AsWrittenFallbackPhrases[1];
    assert p[5] == 'h' && 'h' !in LoweredRefusalPreview;
    MissingCharNotContained(LoweredRefusalPreview, p, 5);
  }

  /** The third listed phrase has a `c`, which the preview lacks. */
  lemma RefusalPreviewLacksPhrase2()
    ensures !Contains(LoweredRefusalPreview, AsWrittenFallbackPhrases[2])
  {
    var p := AsWrittenFallbackPhrases[2];
    assert p[1] == 'c' && 'c' !in LoweredRefusalPreview;
    MissingCharNotContained(LoweredRefusalPreview, p, 1);
  }

  /** No phrase of the list as written occurs in the lowered preview. */
  lemma AsWrittenMissesRefusalPreview()
    ensures !HasFallbackPhrase(AsWrittenFallbackPhrases, LoweredRefusalPreview)
  {
    forall k | 0 <= k < |AsWrittenFallbackPhrases|
      ensures !Contains(LoweredRefusalPreview, AsWrittenFallbackPhrases[k])
    {
      if k == 0 {
        RefusalPreviewLacksPhrase0();
      } else if k == 1 {
        RefusalPreviewLacksPhrase1();
      } else if k == 2 {
        RefusalPreviewLacksPhrase2();
      } else {
        RefusalPreviewLacksLastPhrase();
      }
    }
  }

  /**
   * As written, an answer that is exactly the second prescribed refusal is
   * logged with a preview that no listed phrase matches.
   */
  lemma AsWrittenMissesInstructedRefusal()
    ensures !HasFallbackPhrase(AsWrittenFallbackPhrases, Lower(Audit.Preview(Pipeline.RefusalNoInformation)))
  {
    RefusalPreviewLowered();
    AsWrittenMissesRefusalPreview();
  }

  /**
   * With the completed list, an answer that states either prescribed refusal
   * within its first 100 characters is counted as a fallback.
   */
  lemma InstructedRefusalsDetected(answer: string, phrase: string)
    requires phrase == Pipeline.RefusalUnknown || phrase == Pipeline.RefusalNoInformation
    requires Contains(answer[..Min(|answer|, Audit.PreviewLimit)], phrase)
    ensures HasFallbackPhrase(FallbackPhrases, Lower(Audit.Preview(answer)))
  {
    var m := Min(|answer|, Audit.PreviewLimit);
    var p := Audit.Preview(answer);
    assert answer != "";
    assert p[..m] == answer[..m];
    ContainsInPrefix(p, m, phrase);
    ContainsLower(p, phrase);
    if phrase == Pipeline.RefusalUnknown {
      assert Lower(phrase) == FallbackPhrases[0];
    } else {
      assert Lower(phrase) == FallbackPhrases[4];
    }
  }

  /** The completed list keeps every phrase of the list as written. */
  lemma CompletedListExtends(response: string)
    requires HasFallbackPhrase(AsWrittenFallbackPhrases, response)
    ensures HasFallbackPhrase(FallbackPhrases, response)
  {
    var k :| 0 <= k < |AsWrittenFallbackPhrases| && Contains(response, AsWrittenFallbackPhrases[k]);
    assert FallbackPhrases[k] == AsWrittenFallbackPhrases[k];
  }

  /** Over any log, the completed list counts at least the fallbacks the list as written counts. */
  lemma {:induction false} CompletedListNeverCountsLess(lines: seq<LogLine>)
    ensures CountFallbacks(AsWrittenFallbackPhrases, lines) <= CountFallbacks(FallbackPhrases, lines)
    decreases |lines|
  {
    if lines != [] {
      CompletedListNeverCountsLess(lines[..|lines| - 1]);
      var last := lines[|lines| - 1];
      if IsFallbackLine(AsWrittenFallbackPhrases, last) {
        CompletedListExtends(Lower(ResponseText(last.record.value)));
      }
    }
  }

  /**
   * A decoded log line holding the recorder's preview of `answer`. Of the raw
   * text only the blank test is read, so any non-blank text stands for the
   * JSON the recorder wrote.
   */
  function RecordedAnswerLine(answer: string): LogLine {
    LogLine("{}", Some(LogRecord(None, None, None, Some(Audit.Preview(answer)), None, None, None, None)))
  }

  /**
   * The operation as written: a log directory holding one line for the
   * prescribed refusal 'Dazu liegen mir keine Informationen vor' gives one
   * query and no fallback with the script's list, one fallback with the
   * completed list.
   */
  lemma AsWrittenUndercountsRefusalLine()
    ensures var lines := Flatten([[RecordedAnswerLine(Pipeline.RefusalNoInformation)]]);
            && CountEntries(lines) == 1
            && CountFallbacks(AsWrittenFallbackPhrases, lines) == 0
            && CountFallbacks(FallbackPhrases, lines) == 1
  {
    var line := RecordedAnswerLine(Pipeline.RefusalNoInformation);
    var files := [[line]];
    assert files[..0] == [];
    assert Flatten(files) == [line];
    assert [line][..0] == [];
    assert !IsSpace(line.raw[0]);
    assert IsEntryLine(line);
    assert ResponseText(line.record.value) == Audit.Preview(Pipeline.RefusalNoInformation);
    AsWrittenMissesInstructedRefusal();
    var answer := Pipeline.RefusalNoInformation;
    assert answer[..Min(|answer|, Audit.PreviewLimit)] == answer;
    assert answer[..|answer|] == answer;
    InstructedRefusalsDetected(answer, answer);
  }
}
