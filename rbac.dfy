/**
 * The policy enforcement point of app/security/rbac.py. The Casbin enforcer
 * built once at import time is modelled as the set of grant triples it was
 * loaded with; its lookup is exact membership.
 */
module Rbac {

  /** One policy line `p, role, classification, action`. */
  datatype Grant = Grant(role: string, classification: string, action: string)

  /** The loaded rule table. It is only read, never changed, after loading. */
  type Policy = set<Grant>

  /** The one action the pipeline asks about. */
  const ReadAction: string := "read"

  /**
   * `check_access(role, classification)`: an empty classification is denied
   * whatever the policy says (fail-closed); otherwise the answer is whether
   * the policy holds the grant `(role, classification, "read")`.
   */
  function CheckAccess(policy: Policy, role: string, classification: string): (allowed: bool)
    ensures classification == "" ==> !allowed
    ensures allowed ==> exists g :: g in policy && g.role == role && g.classification == classification && g.action == ReadAction
    ensures classification != "" && Grant(role, classification, ReadAction) in policy ==> allowed
  {
    if classification == "" then false
    else Grant(role, classification, ReadAction) in policy
  }

  /** The read grants of a policy: the only part `CheckAccess` looks at. */
  function ReadGrants(policy: Policy): set<Grant> {
    set g | g in policy && g.action == ReadAction
  }

  /** Policies that agree on their read grants make every decision alike. */
  lemma OnlyReadGrantsMatter(p1: Policy, p2: Policy, role: string, classification: string)
    requires ReadGrants(p1) == ReadGrants(p2)
    ensures CheckAccess(p1, role, classification) == CheckAccess(p2, role, classification)
  {
    var g := Grant(role, classification, ReadAction);
    assert g in p1 <==> g in ReadGrants(p1);
    assert g in p2 <==> g in ReadGrants(p2);
  }

  /** A role that appears in no grant is denied every classification. */
  lemma UnknownRoleDenied(policy: Policy, role: string, classification: string)
    requires forall g :: g in policy ==> g.role != role
    ensures !CheckAccess(policy, role, classification)
  {
  }

  /** Adding grants never revokes access; the lookup has no hierarchy or wildcard. */
  lemma GrantsAreMonotone(p1: Policy, p2: Policy, role: string, classification: string)
    requires p1 <= p2
    ensures CheckAccess(p1, role, classification) ==> CheckAccess(p2, role, classification)
  {
  }

  /**
   * An assumed tiered table for the three roles of the thesis, each seeing
   * one more tier than the one below. The policy file itself is not part of
   * this model; the five self-test cases of rbac.py hold for this table.
   */
  const ThesisPolicy: Policy := {
    Grant("Mitarbeiter", "public", "read"),
    Grant("Mitarbeiter", "internal", "read"),
    Grant("Vorgesetzter", "public", "read"),
    Grant("Vorgesetzter", "internal", "read"),
    Grant("Vorgesetzter", "confidential", "read"),
    Grant("Geschaeftsfuehrung", "public", "read"),
    Grant("Geschaeftsfuehrung", "internal", "read"),
    Grant("Geschaeftsfuehrung", "confidential", "read"),
    Grant("Geschaeftsfuehrung", "secret", "read")
  }

  /** The expected decisions listed in the self-test of rbac.py. */
  lemma ThesisSelfTest()
    ensures CheckAccess(ThesisPolicy, "Mitarbeiter", "public")
    ensures !CheckAccess(ThesisPolicy, "Mitarbeiter", "secret")
    ensures CheckAccess(ThesisPolicy, "Vorgesetzter", "confidential")
    ensures !CheckAccess(ThesisPolicy, "Vorgesetzter", "secret")
    ensures CheckAccess(ThesisPolicy, "Geschaeftsfuehrung", "secret")
  {
  }
}
