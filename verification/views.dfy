/** The API views of backend/artifacts/views.py: reading one version and
    the one-shot approve/reject transition shared by both decision
    endpoints. */
module Views {
  import opened Wrappers
  import opened Http
  import opened Text
  import opened Approvals
  import opened Artifacts
  import opened Serializers

  /** `ArtifactVersionDetailView.get`: the serialized version with its
      decision, or 404 for an unknown primary key. */
  function GetVersion(s: Store, pk: nat): (r: Result<VersionView, Error>)
    ensures r.Ok? <==> HasVersion(s, pk)
    ensures r.Err? ==> r.error == NotFound
    ensures r.Ok? ==>
      && r.value.id == pk
      && r.value.decision == s.versions[pk - 1].decision
      && r.value.status == StatusOf(s.versions[pk - 1].decision)
      && r.value.versionNumber == s.versions[pk - 1].versionNumber
      && r.value.artifact == s.versions[pk - 1].artifact
      && r.value.url == s.versions[pk - 1].url
      && r.value.submittedBy == s.versions[pk - 1].submittedBy
  {
    if HasVersion(s, pk) then Ok(Serialize(pk, s.versions[pk - 1])) else Err(NotFound)
  }

  /** One key of a JSON request body: absent, explicitly null, or a
      string. */
  datatype Field = Missing | Null | Given(text: string)

  /** The body of an approve or reject request. */
  datatype DecisionBody = DecisionBody(decidedBy: Field, reason: Field, note: Field)

  /** `request.data.get('decided_by') or ''`: absent and null both read as
      the empty string. */
  function DecidedByOf(f: Field): (who: string)
    ensures who != "" <==> f.Given? && f.text != ""
    ensures who != "" ==> who == f.text
  {
    match f
    case Given(t) => t
    case _ => ""
  }

  /** `request.data.get(key, '')`: an absent key defaults to the empty
      string, but an explicit null passes through as None. */
  function OrEmpty(f: Field): (r: Option<string>)
    ensures r.None? <==> f.Null?
    ensures f.Missing? ==> r == Some("")
    ensures f.Given? ==> r == Some(f.text)
  {
    match f
    case Missing => Some("")
    case Null => None
    case Given(t) => Some(t)
  }

  const DecidedByRequired := "decided_by is required."
  const AlreadyExists := "already exists"
  const AlreadyDecided := "A decision " + AlreadyExists + " for this version."
  const NullField := "NOT NULL constraint failed"

  /** `ArtifactVersionApproveView._decide`, shared by approve and reject.
      In order: an unknown version is 404; a missing or empty `decided_by`
      is 400; a version that already has a decision is 409; otherwise one
      decision of the requested kind is attached, with `reason` and `note`
      defaulting to the empty string. An explicit null `reason` or `note`
      reaches a NOT NULL column and the insert fails, rolled back, as a
      server error. */
  function Decide(s: Store, pk: nat, kind: Decision, body: DecisionBody): (r: Result<Saved, Error>)
    ensures r == Err(NotFound) <==> !HasVersion(s, pk)
    ensures r.Err? && r.error.BadRequest? <==> HasVersion(s, pk) && DecidedByOf(body.decidedBy) == ""
    ensures r.Err? && r.error.BadRequest? ==> r.error.detail == DecidedByRequired
    ensures r.Err? && r.error.Conflict? <==>
      HasVersion(s, pk) && DecidedByOf(body.decidedBy) != "" && s.versions[pk - 1].decision.Some?
    ensures r.Err? && r.error.Conflict? ==> r.error.detail == AlreadyDecided
    ensures r.Err? && r.error.ServerError? <==>
      && HasVersion(s, pk) && DecidedByOf(body.decidedBy) != ""
      && s.versions[pk - 1].decision.None?
      && (body.reason.Null? || body.note.Null?)
    ensures r.Ok? <==>
      && HasVersion(s, pk) && DecidedByOf(body.decidedBy) != ""
      && s.versions[pk - 1].decision.None?
      && !body.reason.Null? && !body.note.Null?
    ensures r.Ok? ==>
      var d := ApprovalDecision(kind, DecidedByOf(body.decidedBy), OrEmpty(body.reason).value, OrEmpty(body.note).value);
      && r.value.store == s.(versions := s.versions[pk - 1 := s.versions[pk - 1].(decision := Some(d))])
      && r.value.view == Serialize(pk, r.value.store.versions[pk - 1])
      && r.value.view.status == DecidedStatus(kind)
  {
    if !HasVersion(s, pk) then Err(NotFound)
    else
      var who := DecidedByOf(body.decidedBy);
      if who == "" then
        Err(BadRequest(DecidedByRequired))
      else
        var v := s.versions[pk - 1];
        if v.decision.Some? then
          Err(Conflict(AlreadyDecided))
        else
          var reason, note := OrEmpty(body.reason), OrEmpty(body.note);
          if reason.None? || note.None? then Err(ServerError(NullField))
          else
            var d := ApprovalDecision(kind, who, reason.value, note.value);
            var s' := s.(versions := s.versions[pk - 1 := v.(decision := Some(d))]);
            Ok(Saved(s', Serialize(pk, s'.versions[pk - 1])))
  }

  /** The error details the clients rely on: a 400 names the missing
      `decided_by` field, and a 409 says that a decision already exists. */
  lemma DecideErrorDetails(s: Store, pk: nat, kind: Decision, body: DecisionBody)
    ensures var r := Decide(s, pk, kind, body);
      r.Err? && r.error.BadRequest? ==> Contains(r.error.detail, "decided_by")
    ensures var r := Decide(s, pk, kind, body);
      r.Err? && r.error.Conflict? ==> Contains(r.error.detail, "already exists")
  {
    assert OccursAt(DecidedByRequired, "decided_by", 0);
    assert OccursAt(AlreadyDecided, AlreadyExists, |"A decision "|);
  }

  /** `ArtifactVersionApproveView.post`. */
  function ApproveVersion(s: Store, pk: nat, body: DecisionBody): (r: Result<Saved, Error>)
    ensures r.Ok? ==> r.value.view.status == Approved
    ensures r.Ok? ==> r.value.view.decision.Some? && r.value.view.decision.value.decision == Approve
    ensures r == Decide(s, pk, Approve, body)
  {
    Decide(s, pk, Approve, body)
  }

  /** `ArtifactVersionRejectView.post`. No reason is required. */
  function RejectVersion(s: Store, pk: nat, body: DecisionBody): (r: Result<Saved, Error>)
    ensures r.Ok? ==> r.value.view.status == Rejected
    ensures r.Ok? ==> r.value.view.decision.Some? && r.value.view.decision.value.decision == Reject
    ensures r == Decide(s, pk, Reject, body)
  {
    Decide(s, pk, Reject, body)
  }

  /** A decide writes exactly one thing: the decision of version `pk`.
      Every other version, and every other field of that version, is
      unchanged. */
  lemma DecideTouchesOnlyItsDecision(s: Store, pk: nat, kind: Decision, body: DecisionBody, other: nat)
    requires Decide(s, pk, kind, body).Ok?
    ensures var s' := Decide(s, pk, kind, body).value.store;
      && |s'.versions| == |s.versions| && s'.projects == s.projects && s'.artifacts == s.artifacts
      && (HasVersion(s, other) && other != pk ==> s'.versions[other - 1] == s.versions[other - 1])
      && s'.versions[pk - 1].(decision := None) == s.versions[pk - 1]
  {
  }

  /** A decide keeps the database invariants, in particular that every
      stored decision names who decided. */
  lemma DecidePreservesValid(s: Store, pk: nat, kind: Decision, body: DecisionBody)
    requires Valid(s)
    ensures var r := Decide(s, pk, kind, body);
      r.Ok? ==> Valid(r.value.store)
  {
    var r := Decide(s, pk, kind, body);
    if r.Ok? {
      var s' := r.value.store;
      forall i | 0 <= i < |s'.versions| && s'.versions[i].decision.Some?
        ensures WellFormedDecision(s'.versions[i].decision.value)
      {
        if i != pk - 1 {
          assert s'.versions[i] == s.versions[i];
        }
      }
      forall i, j | 0 <= i < j < |s'.versions| && s'.versions[i].artifact == s'.versions[j].artifact
        ensures s'.versions[i].versionNumber != s'.versions[j].versionNumber
      {
        assert s.versions[i].artifact == s'.versions[i].artifact;
        assert s.versions[j].artifact == s'.versions[j].artifact;
      }
    }
  }

  /** Finality: once a version has a decision, every approve or reject on
      it, whoever the caller, is refused with 409 (or 400 when the caller
      gives no `decided_by`) and the store is left as it was. */
  lemma DecidedVersionRefusesDecide(s: Store, pk: nat, kind: Decision, body: DecisionBody)
    requires HasVersion(s, pk) && s.versions[pk - 1].decision.Some?
    ensures Decide(s, pk, kind, body).Err?
    ensures DecidedByOf(body.decidedBy) != "" ==> Decide(s, pk, kind, body) == Err(Conflict(AlreadyDecided))
  {
  }

  /** Of two successive decisions on a pending version, the first wins and
      the second gets 409, whatever the two kinds; the stored decision is
      the first one's. */
  lemma SecondDecisionConflicts(s: Store, pk: nat, k1: Decision, b1: DecisionBody, k2: Decision, b2: DecisionBody)
    requires Decide(s, pk, k1, b1).Ok?
    requires DecidedByOf(b2.decidedBy) != ""
    ensures var s1 := Decide(s, pk, k1, b1).value.store;
      && Decide(s1, pk, k2, b2) == Err(Conflict(AlreadyDecided))
      && StatusOf(s1.versions[pk - 1].decision) == DecidedStatus(k1)
  {
  }

  /** Reading a version back after a decision returns what the decide
      responded with: the decision is recorded. */
  lemma DecideThenGet(s: Store, pk: nat, kind: Decision, body: DecisionBody)
    requires Decide(s, pk, kind, body).Ok?
    ensures var r := Decide(s, pk, kind, body).value;
      && GetVersion(r.store, pk) == Ok(r.view)
      && r.view.decision.Some?
      && r.view.decision.value.decidedBy == DecidedByOf(body.decidedBy)
      && r.view.decision.value.decision == kind
  {
  }

  /** Reading a version back after it is created returns what the create
      responded with: number, no decision, awaiting approval. */
  lemma CreateThenGet(s: Store, req: VersionRequest, isUrl: string -> bool)
    requires CreateVersion(s, req, isUrl).Ok?
    ensures var r := CreateVersion(s, req, isUrl).value;
      && GetVersion(r.store, r.view.id) == Ok(r.view)
      && r.view.status == AwaitingApproval && r.view.decision == None
  {
  }

  /** A reject that carries only `decided_by` succeeds on a pending
      version, with empty `reason` and `note`. */
  lemma RejectWithoutReason(s: Store, pk: nat, who: string)
    requires HasVersion(s, pk) && s.versions[pk - 1].decision.None? && who != ""
    ensures var r := RejectVersion(s, pk, DecisionBody(Given(who), Missing, Missing));
      && r.Ok?
      && r.value.view.decision == Some(ApprovalDecision(Reject, who, "", ""))
  {
  }
}
