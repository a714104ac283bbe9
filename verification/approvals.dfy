/** The approval decision record of backend/approvals/models.py. */
module Approvals {
  import opened Wrappers

  /** The two choices of the `decision` column. */
  datatype Decision = Approve | Reject

  /** The value stored in the `decision` column. */
  function DecisionValue(d: Decision): (v: string)
    ensures v == "APPROVE" <==> d == Approve
    ensures v == "REJECT" <==> d == Reject
  {
    match d
    case Approve => "APPROVE"
    case Reject => "REJECT"
  }

  /** The choice a stored `decision` value denotes; None for a value outside
      the two choices. */
  function ParseDecision(s: string): (r: Option<Decision>)
    ensures r.Some? <==> s == "APPROVE" || s == "REJECT"
    ensures r.Some? ==> DecisionValue(r.value) == s
  {
    if s == "APPROVE" then Some(Approve)
    else if s == "REJECT" then Some(Reject)
    else None
  }

  /** Every decision is stored as exactly one of the two choice values, and
      the stored value reads back as that decision. */
  lemma DecisionValueRoundTrip(d: Decision)
    ensures ParseDecision(DecisionValue(d)) == Some(d)
    ensures DecisionValue(d) == "APPROVE" || DecisionValue(d) == "REJECT"
  {
  }

  /** One decision. The one-to-one link to its version is modelled by storing
      the decision inside the version record (at most one per version);
      `decided_at` is left out. */
  datatype ApprovalDecision = ApprovalDecision(
    decision: Decision,
    decidedBy: string,
    reason: string,
    note: string)

  /** The model-level field rules: `decided_by` may not be blank, while
      `reason` and `note` may. */
  predicate WellFormedDecision(d: ApprovalDecision) {
    d.decidedBy != ""
  }
}
