/**
 * `RbacRagPipeline.ask` of app/rag/pipeline.py: every retrieved candidate is
 * passed through the enforcement point, the allowed ones (in retrieval order)
 * make up the context for the language model, and the request is audited.
 * Retrieval and generation are collaborators given as functions.
 */
module Pipeline {
  import opened Wrappers
  import opened Text
  import Rbac
  import Audit

  /** One retrieved document: id, text and the `classification` metadata key, if present. */
  datatype Candidate = Candidate(id: string, text: string, classification: Option<string>)

  /** The classification assumed when a document's metadata has no such key. */
  const DefaultClassification: string := "internal"

  /** `metadata.get("classification", "internal")`. */
  function ClassificationOf(c: Candidate): string {
    c.classification.GetOr(DefaultClassification)
  }

  /** The enforcement point's decision on one candidate. */
  predicate Admits(policy: Rbac.Policy, role: string, c: Candidate) {
    Rbac.CheckAccess(policy, role, ClassificationOf(c))
  }

  /**
   * The positions of the candidates the role may read, in retrieval order:
   * exactly the admitted positions, increasing.
   */
  function AdmittedIndices(policy: Rbac.Policy, role: string, cands: seq<Candidate>): (idx: seq<nat>)
    ensures forall k :: 0 <= k < |idx| ==> idx[k] < |cands| && Admits(policy, role, cands[idx[k]])
    ensures forall k, l :: 0 <= k < l < |idx| ==> idx[k] < idx[l]
    ensures forall i :: 0 <= i < |cands| && Admits(policy, role, cands[i]) ==> i in idx
    decreases |cands|
  {
    if cands == [] then []
    else
      var n := |cands| - 1;
      AdmittedIndices(policy, role, cands[..n]) + (if Admits(policy, role, cands[n]) then [n] else [])
  }

  /** The number of candidates the enforcement point refuses. */
  function DeniedCount(policy: Rbac.Policy, role: string, cands: seq<Candidate>): nat
    decreases |cands|
  {
    if cands == [] then 0
    else
      var n := |cands| - 1;
      DeniedCount(policy, role, cands[..n]) + (if Admits(policy, role, cands[n]) then 0 else 1)
  }

  /** Every candidate is either allowed or counted as blocked, never both. */
  lemma {:induction false} PartitionTotal(policy: Rbac.Policy, role: string, cands: seq<Candidate>)
    ensures |AdmittedIndices(policy, role, cands)| + DeniedCount(policy, role, cands) == |cands|
    decreases |cands|
  {
    if cands != [] { PartitionTotal(policy, role, cands[..|cands| - 1]); }
  }

  /** One more candidate adds its position exactly when it is admitted. */
  lemma AdmittedIndicesStep(policy: Rbac.Policy, role: string, cands: seq<Candidate>, i: int)
    requires 0 <= i < |cands|
    ensures AdmittedIndices(policy, role, cands[..i + 1])
            == AdmittedIndices(policy, role, cands[..i]) + (if Admits(policy, role, cands[i]) then [i] else [])
    ensures DeniedCount(policy, role, cands[..i + 1])
            == DeniedCount(policy, role, cands[..i]) + (if Admits(policy, role, cands[i]) then 0 else 1)
  {
    assert cands[..i + 1][..i] == cands[..i];
    assert cands[..i + 1][i] == cands[i];
  }

  /** `allowed_docs_content`: the allowed texts in retrieval order. */
  function AllowedTexts(policy: Rbac.Policy, role: string, cands: seq<Candidate>): seq<string> {
    var idx := AdmittedIndices(policy, role, cands);
    seq(|idx|, k requires 0 <= k < |idx| => cands[idx[k]].text)
  }

  /** `allowed_doc_ids`: the ids of the same candidates, in the same order. */
  function AllowedIds(policy: Rbac.Policy, role: string, cands: seq<Candidate>): seq<string> {
    var idx := AdmittedIndices(policy, role, cands);
    seq(|idx|, k requires 0 <= k < |idx| => cands[idx[k]].id)
  }

  /**
   * The filter loop of `ask`: texts and ids of the allowed candidates, kept
   * aligned and in retrieval order, and the number of blocked candidates.
   */
  method FilterCandidates(policy: Rbac.Policy, role: string, cands: seq<Candidate>)
    returns (texts: seq<string>, ids: seq<string>, blocked: nat)
    ensures texts == AllowedTexts(policy, role, cands)
    ensures ids == AllowedIds(policy, role, cands)
    ensures blocked == DeniedCount(policy, role, cands)
    ensures |texts| == |ids| && |texts| + blocked == |cands|
  {
    texts, ids, blocked := [], [], 0;
    for i := 0 to |cands|
      invariant |texts| == |ids| == |AdmittedIndices(policy, role, cands[..i])|
      invariant forall k :: 0 <= k < |texts| ==>
                  var j := AdmittedIndices(policy, role, cands[..i])[k];
                  texts[k] == cands[j].text && ids[k] == cands[j].id
      invariant blocked == DeniedCount(policy, role, cands[..i])
    {
      AdmittedIndicesStep(policy, role, cands, i);
      if Admits(policy, role, cands[i]) {
        texts := texts + [cands[i].text];
        ids := ids + [cands[i].id];
      } else {
        blocked := blocked + 1;
      }
    }
    assert cands[..|cands|] == cands;
    PartitionTotal(policy, role, cands);
  }

  /** A document without a classification key is judged as `"internal"`. */
  lemma MissingClassificationChecksInternal(policy: Rbac.Policy, role: string, c: Candidate)
    requires c.classification == None
    ensures Admits(policy, role, c) == Rbac.CheckAccess(policy, role, DefaultClassification)
  {
  }

  /** Only an explicitly empty classification reaches the fail-closed branch, and it is always blocked. */
  lemma EmptyClassificationBlocked(policy: Rbac.Policy, role: string, c: Candidate)
    requires c.classification == Some("")
    ensures !Admits(policy, role, c)
  {
  }

  /** The context used when no document may be shown; it names neither role nor blocked count. */
  const FallbackContext: string :=
    "Keine relevanten Informationen in den f\U{FC}r diese Rolle freigegebenen Dokumenten gefunden."

  /** Put between two allowed texts. */
  const ContextSeparator: string := "\n\n"

  /** The context: the fallback sentence, or the allowed texts separated by a blank line. */
  function BuildContext(texts: seq<string>): string {
    if texts == [] then FallbackContext else Join(ContextSeparator, texts)
  }

  /** With allowed texts, the context holds each of them, untruncated. */
  lemma ContextHoldsEachAllowedText(texts: seq<string>, k: int)
    requires 0 <= k < |texts|
    ensures Contains(BuildContext(texts), texts[k])
  {
    JoinHasPart(ContextSeparator, texts, k);
  }

  /** With allowed texts, the context's length is their total length plus one separator per neighbouring pair. */
  lemma ContextSize(texts: seq<string>)
    requires texts != []
    ensures |BuildContext(texts)| == TotalLength(texts) + |ContextSeparator| * (|texts| - 1)
  {
    JoinLength(ContextSeparator, texts);
  }

  /** One more allowed text extends the context by the separator and that text. */
  lemma ContextAppend(texts: seq<string>, t: string)
    requires texts != []
    ensures BuildContext(texts + [t]) == BuildContext(texts) + ContextSeparator + t
  {
    JoinSnoc(ContextSeparator, texts, t);
  }

  /** A single allowed text is the whole context. */
  lemma ContextOfOne(t: string)
    ensures BuildContext([t]) == t
  {
  }

  /** The two answers the model is told to give when the context does not help. */
  const RefusalUnknown: string := "Das wei\U{DF} ich nicht"
  const RefusalNoInformation: string := "Dazu liegen mir keine Informationen vor"

  /** The system prompt text up to and including the opening context marker. */
  function PromptHead(role: string): string {
    "Du bist ein hilfreicher interner Unternehmensassistent. "
    + "Du interagierst mit einem Benutzer der Rolle: " + role + ". "
    + "Beantworte die Frage ausschlie\U{DF}lich basierend auf dem untenstehenden Kontext. "
    + "Wenn der Kontext die Antwort nicht enth\U{E4}lt, antworte wahrheitsgem\U{E4}\U{DF} mit '"
    + RefusalUnknown + "' "
    + "oder '" + RefusalNoInformation + "'. Erfinde keine Fakten.\n\n"
    + "--- ANFANG KONTEXT ---\n"
  }

  const PromptTail: string := "\n--- ENDE KONTEXT ---"

  /** The system prompt: fixed instructions naming the role, then the context between markers. */
  function SystemPrompt(role: string, context: string): string {
    PromptHead(role) + context + PromptTail
  }

  /** For a given role the prompt determines the context: nothing else is mixed into it. */
  lemma PromptDeterminesContext(role: string, c1: string, c2: string)
    requires SystemPrompt(role, c1) == SystemPrompt(role, c2)
    ensures c1 == c2
  {
    var h := PromptHead(role);
    var p1, p2 := SystemPrompt(role, c1), SystemPrompt(role, c2);
    assert |c1| == |c2|;
    assert c1 == p1[|h|..|h| + |c1|];
    assert c2 == p2[|h|..|h| + |c2|];
  }

  /** `get_embedding` replaces line breaks by spaces before the query is embedded. */
  function EmbeddingInput(query: string): string {
    ReplaceChar(query, '\n', " ")
  }

  /** The dictionary `ask` returns. Latency is in whole milliseconds. */
  datatype AskResult = AskResult(answer: string, allowedDocs: seq<string>, blockedCount: nat, latencyMillis: nat)

  /** A collaborator call that raised: `ask` propagates it. */
  datatype AskError = RetrievalError | GenerationError

  /**
   * The pipeline with its enforcement policy (built once, only read) and the
   * audit log it appends to.
   */
  class RbacRagPipeline {
    const policy: Rbac.Policy
    const auditLog: Audit.AuditLog

    constructor (policy: Rbac.Policy, auditLog: Audit.AuditLog)
      ensures this.policy == policy && this.auditLog == auditLog
    {
      this.policy := policy;
      this.auditLog := auditLog;
    }

    /**
     * `ask(user_role, query)`. `retrieve` stands for embedding plus vector
     * search and `generate` for the chat completion (system prompt, user
     * query); `None` from either is an exception, which leaves `ask` before
     * anything is logged. Otherwise the answer, the allowed texts and the
     * blocked count are returned, and the same ids and count are handed to the
     * audit log, whose write failure does not abort the request.
     */
    method Ask(role: string, query: string,
               retrieve: string -> Option<seq<Candidate>>,
               generate: (string, string) -> Option<string>,
               timestamp: string, latencyMillis: nat, writeFails: bool)
      returns (r: Result<AskResult, AskError>)
      modifies auditLog
      ensures retrieve(EmbeddingInput(query)) == None ==>
                r == Failure(RetrievalError) && auditLog.entries == old(auditLog.entries)
      ensures retrieve(EmbeddingInput(query)).Some? ==>
                var cands := retrieve(EmbeddingInput(query)).value;
                var texts := AllowedTexts(policy, role, cands);
                var blocked := DeniedCount(policy, role, cands);
                var generated := generate(SystemPrompt(role, BuildContext(texts)), query);
                && (generated == None ==>
                      r == Failure(GenerationError) && auditLog.entries == old(auditLog.entries))
                && (generated.Some? ==>
                      && r == Success(AskResult(generated.value, texts, blocked, latencyMillis))
                      && auditLog.entries == old(auditLog.entries) +
                           (if writeFails then []
                            else [Audit.BuildEntry(timestamp, role, query, generated.value,
                                                   Audit.AsDocRefs(AllowedIds(policy, role, cands)),
                                                   blocked, latencyMillis)]))
    {
      var retrieved := retrieve(EmbeddingInput(query));
      if retrieved == None {
        return Failure(RetrievalError);
      }
      var texts, ids, blocked := FilterCandidates(policy, role, retrieved.value);
      var context := BuildContext(texts);
      var generated := generate(SystemPrompt(role, context), query);
      if generated == None {
        return Failure(GenerationError);
      }
      var _ := auditLog.LogRequest(timestamp, role, query, generated.value, Audit.AsDocRefs(ids),
                                   blocked, latencyMillis, writeFails);
      r := Success(AskResult(generated.value, texts, blocked, latencyMillis));
    }
  }
}
