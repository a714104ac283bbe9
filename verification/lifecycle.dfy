/** The version lifecycle over whole request traces: every API operation
    keeps the database invariants, a decided version never changes again,
    and version numbers of every artifact stay exactly 1..N. */
module Lifecycle {
  import opened Wrappers
  import opened Approvals
  import opened Artifacts
  import opened Serializers
  import opened Views

  /** One API request that can write. */
  datatype Op =
    | NewArtifact(artifactReq: ArtifactRequest)
    | NewVersion(versionReq: VersionRequest)
    | DecideOn(pk: nat, kind: Decision, body: DecisionBody)

  /** The store after one request: the written store on success, the same
      store on any error. */
  function Step(s: Store, op: Op, isUrl: string -> bool): Store {
    match op
    case NewArtifact(req) =>
      var r := CreateArtifact(s, req);
      if r.Ok? then r.value.store else s
    case NewVersion(req) =>
      var r := CreateVersion(s, req, isUrl);
      if r.Ok? then r.value.store else s
    case DecideOn(pk, kind, body) =>
      var r := Decide(s, pk, kind, body);
      if r.Ok? then r.value.store else s
  }

  /** The store after a sequence of requests, one after another. */
  function Run(s: Store, ops: seq<Op>, isUrl: string -> bool): Store
    decreases |ops|
  {
    if |ops| == 0 then s else Run(Step(s, ops[0], isUrl), ops[1..], isUrl)
  }

  /** Every request keeps the database invariants. */
  lemma StepPreservesValid(s: Store, op: Op, isUrl: string -> bool)
    requires Valid(s)
    ensures Valid(Step(s, op, isUrl))
  {
    match op
    case NewArtifact(req) => CreateArtifactPreservesValid(s, req);
    case NewVersion(req) => CreateVersionPreservesValid(s, req, isUrl);
    case DecideOn(pk, kind, body) => DecidePreservesValid(s, pk, kind, body);
  }

  lemma {:induction false} RunPreservesValid(s: Store, ops: seq<Op>, isUrl: string -> bool)
    requires Valid(s)
    ensures Valid(Run(s, ops, isUrl))
    decreases |ops|
  {
    if |ops| > 0 {
      StepPreservesValid(s, ops[0], isUrl);
      RunPreservesValid(Step(s, ops[0], isUrl), ops[1..], isUrl);
    }
  }

  /** `v'` is `v`, or `v` given its first decision: the only change a
      stored version ever undergoes. */
  predicate SameOrFirstDecided(v: ArtifactVersion, v': ArtifactVersion) {
    v' == v || (v.decision.None? && v'.decision.Some? && v'.(decision := None) == v)
  }

  /** One request never removes a version, never changes a version's
      artifact, number, URL or submitter, and never changes a decided
      version at all. */
  lemma StepOnlyDecides(s: Store, op: Op, isUrl: string -> bool, pk: nat)
    requires HasVersion(s, pk)
    ensures var s' := Step(s, op, isUrl);
      HasVersion(s', pk) && SameOrFirstDecided(s.versions[pk - 1], s'.versions[pk - 1])
  {
    var s' := Step(s, op, isUrl);
    match op
    case NewArtifact(req) =>
    case NewVersion(req) =>
      if CreateVersion(s, req, isUrl).Ok? {
        assert s'.versions[pk - 1] == s.versions[pk - 1];
      }
    case DecideOn(p, kind, body) =>
  }

  /** Finality over any trace: once version `pk` has a decision, no
      sequence of requests, of any kind and by any caller, changes its
      record again. */
  lemma {:induction false} DecisionIsFinal(s: Store, ops: seq<Op>, isUrl: string -> bool, pk: nat)
    requires HasVersion(s, pk) && s.versions[pk - 1].decision.Some?
    ensures HasVersion(Run(s, ops, isUrl), pk)
    ensures Run(s, ops, isUrl).versions[pk - 1] == s.versions[pk - 1]
    decreases |ops|
  {
    if |ops| > 0 {
      StepOnlyDecides(s, ops[0], isUrl, pk);
      DecisionIsFinal(Step(s, ops[0], isUrl), ops[1..], isUrl, pk);
    }
  }

  /** A decided version refuses any later decide, after any trace, and
      keeps its status. */
  lemma DecidedAfterTrace(s: Store, ops: seq<Op>, isUrl: string -> bool, pk: nat, kind: Decision, body: DecisionBody)
    requires HasVersion(s, pk) && s.versions[pk - 1].decision.Some?
    requires DecidedByOf(body.decidedBy) != ""
    ensures var s' := Run(s, ops, isUrl);
      && Decide(s', pk, kind, body) == Err(Http.Conflict(AlreadyDecided))
      && HasVersion(s', pk) && s'.versions[pk - 1] == s.versions[pk - 1]
      && GetVersion(s', pk) == GetVersion(s, pk)
  {
    DecisionIsFinal(s, ops, isUrl, pk);
    DecidedVersionRefusesDecide(Run(s, ops, isUrl), pk, kind, body);
  }

  /** After a successful decision and any later requests, a further
      approve or reject of that version with a `decided_by` is refused with
      409, and its status is still the one the winning decision set. */
  lemma DecideAfterAnyTraceConflicts(
    s: Store, pk: nat, kind: Decision, body: DecisionBody,
    ops: seq<Op>, isUrl: string -> bool, kind2: Decision, body2: DecisionBody)
    requires Decide(s, pk, kind, body).Ok?
    requires DecidedByOf(body2.decidedBy) != ""
    ensures var s' := Run(Decide(s, pk, kind, body).value.store, ops, isUrl);
      && Decide(s', pk, kind2, body2) == Err(Http.Conflict(AlreadyDecided))
      && GetVersion(s', pk).Ok? && GetVersion(s', pk).value.status == DecidedStatus(kind)
  {
    var s1 := Decide(s, pk, kind, body).value.store;
    DecideThenGet(s, pk, kind, body);
    DecidedAfterTrace(s1, ops, isUrl, pk, kind2, body2);
  }

  /** `1, 2, ..., k`. */
  function Iota(k: nat): (ns: seq<nat>)
    ensures |ns| == k
    ensures forall i :: 0 <= i < k ==> ns[i] == i + 1
  {
    seq(k, i requires 0 <= i < k => i + 1)
  }

  /** The versions of `artifact` are numbered exactly 1..N in creation
      order, with no gap and no repeat. */
  predicate Contiguous(vs: seq<ArtifactVersion>, artifact: nat) {
    VersionNumbers(vs, artifact) == Iota(|VersionNumbers(vs, artifact)|)
  }

  lemma VersionNumbersAppend(vs: seq<ArtifactVersion>, v: ArtifactVersion, artifact: nat)
    ensures VersionNumbers(vs + [v], artifact)
      == VersionNumbers(vs, artifact) + (if v.artifact == artifact then [v.versionNumber] else [])
  {
    assert (vs + [v])[..|vs|] == vs;
  }

  /** When an artifact's numbers are 1..k, the largest is k (0 for none). */
  lemma {:induction false} MaxOfContiguous(vs: seq<ArtifactVersion>, artifact: nat, k: nat)
    requires VersionNumbers(vs, artifact) == Iota(k)
    ensures MaxVersion(vs, artifact) == k
    decreases |vs|
  {
    if |vs| > 0 {
      var prefix, last := vs[..|vs| - 1], vs[|vs| - 1];
      var pn := VersionNumbers(prefix, artifact);
      if last.artifact == artifact {
        assert Iota(k) == pn + [last.versionNumber];
        assert pn == Iota(k)[..k - 1];
        assert Iota(k)[..k - 1] == Iota(k - 1);
        assert last.versionNumber == Iota(k)[k - 1] == k;
        MaxOfContiguous(prefix, artifact, k - 1);
      } else {
        assert pn + [] == pn;
        MaxOfContiguous(prefix, artifact, k);
      }
    }
  }

  /** Changing only decisions leaves every artifact's numbers as they were. */
  lemma {:induction false} NumbersIgnoreDecisions(vs: seq<ArtifactVersion>, ws: seq<ArtifactVersion>, artifact: nat)
    requires |vs| == |ws|
    requires forall i :: 0 <= i < |vs| ==> vs[i].(decision := None) == ws[i].(decision := None)
    ensures VersionNumbers(vs, artifact) == VersionNumbers(ws, artifact)
    decreases |vs|
  {
    if |vs| > 0 {
      var n := |vs| - 1;
      assert vs[n].(decision := None) == ws[n].(decision := None);
      NumbersIgnoreDecisions(vs[..n], ws[..n], artifact);
    }
  }

  /** Appending a version numbered one past the largest keeps an
      artifact numbered 1..k contiguous: 1..k+1 for its own artifact, 1..k
      for any other. */
  lemma AppendKeepsContiguous(vs: seq<ArtifactVersion>, v: ArtifactVersion, artifact: nat, k: nat)
    requires VersionNumbers(vs, artifact) == Iota(k)
    requires v.versionNumber == MaxVersion(vs, v.artifact) + 1
    ensures VersionNumbers(vs + [v], artifact)
      == if v.artifact == artifact then Iota(k + 1) else Iota(k)
  {
    VersionNumbersAppend(vs, v, artifact);
    if v.artifact == artifact {
      MaxOfContiguous(vs, artifact, k);
      IotaSnoc(k);
    } else {
      assert Iota(k) + [] == Iota(k);
    }
  }

  /** A successful create on an artifact numbered 1..k numbers it 1..k+1,
      and leaves every other artifact's numbers alone. */
  lemma CreateKeepsContiguous(s: Store, req: VersionRequest, isUrl: string -> bool, artifact: nat, k: nat)
    requires CreateVersion(s, req, isUrl).Ok?
    requires VersionNumbers(s.versions, artifact) == Iota(k)
    ensures VersionNumbers(CreateVersion(s, req, isUrl).value.store.versions, artifact)
      == if req.artifact == artifact then Iota(k + 1) else Iota(k)
  {
    var r := CreateVersion(s, req, isUrl).value;
    var v := ArtifactVersion(req.artifact, r.view.versionNumber, req.url, req.submittedBy, None);
    assert r.store.versions == s.versions + [v];
    AppendKeepsContiguous(s.versions, v, artifact, k);
  }

  lemma IotaSnoc(k: nat)
    ensures Iota(k) + [k + 1] == Iota(k + 1)
  {
  }

  lemma DecideKeepsNumbers(s: Store, pk: nat, kind: Decision, body: DecisionBody, artifact: nat)
    requires Decide(s, pk, kind, body).Ok?
    ensures VersionNumbers(Decide(s, pk, kind, body).value.store.versions, artifact)
      == VersionNumbers(s.versions, artifact)
  {
    var s' := Decide(s, pk, kind, body).value.store;
    forall i | 0 <= i < |s.versions|
      ensures s.versions[i].(decision := None) == s'.versions[i].(decision := None)
    {
    }
    NumbersIgnoreDecisions(s.versions, s'.versions, artifact);
  }

  /** Every request keeps every artifact's numbering contiguous. */
  lemma StepKeepsContiguous(s: Store, op: Op, isUrl: string -> bool, artifact: nat)
    requires Contiguous(s.versions, artifact)
    ensures Contiguous(Step(s, op, isUrl).versions, artifact)
  {
    match op
    case NewArtifact(req) =>
    case NewVersion(req) =>
      if CreateVersion(s, req, isUrl).Ok? {
        CreateKeepsContiguous(s, req, isUrl, artifact, |VersionNumbers(s.versions, artifact)|);
      }
    case DecideOn(pk, kind, body) =>
      if Decide(s, pk, kind, body).Ok? {
        DecideKeepsNumbers(s, pk, kind, body, artifact);
      }
  }

  /** Under any interleaving of requests, each artifact's version numbers
      remain exactly 1..N. */
  lemma {:induction false} RunKeepsContiguous(s: Store, ops: seq<Op>, isUrl: string -> bool, artifact: nat)
    requires Contiguous(s.versions, artifact)
    ensures Contiguous(Run(s, ops, isUrl).versions, artifact)
    decreases |ops|
  {
    if |ops| > 0 {
      StepKeepsContiguous(s, ops[0], isUrl, artifact);
      RunKeepsContiguous(Step(s, ops[0], isUrl), ops[1..], isUrl, artifact);
    }
  }

  /** The store after a sequence of version-create requests alone. */
  function CreateAll(s: Store, reqs: seq<VersionRequest>, isUrl: string -> bool): Store
    decreases |reqs|
  {
    if |reqs| == 0 then s
    else
      var r := CreateVersion(s, reqs[0], isUrl);
      CreateAll(if r.Ok? then r.value.store else s, reqs[1..], isUrl)
  }

  /** The create requests of a trace made only of version creates. */
  function CreateRequests(ops: seq<Op>): (reqs: seq<VersionRequest>)
    requires forall i :: 0 <= i < |ops| ==> ops[i].NewVersion?
    ensures |reqs| == |ops|
    ensures forall i :: 0 <= i < |ops| ==> reqs[i] == ops[i].versionReq
  {
    seq(|ops|, i requires 0 <= i < |ops| => ops[i].versionReq)
  }

  /** A trace of version creates runs as the creates alone. */
  lemma {:induction false} RunOfCreates(s: Store, ops: seq<Op>, isUrl: string -> bool)
    requires forall i :: 0 <= i < |ops| ==> ops[i].NewVersion?
    ensures Run(s, ops, isUrl) == CreateAll(s, CreateRequests(ops), isUrl)
    decreases |ops|
  {
    if |ops| > 0 {
      var rest := ops[1..];
      assert forall i :: 0 <= i < |rest| ==> rest[i] == ops[i + 1];
      RunOfCreates(Step(s, ops[0], isUrl), rest, isUrl);
      assert CreateRequests(ops)[1..] == CreateRequests(rest);
    }
  }

  /** A create request on `artifact` that passes validation there. */
  predicate AcceptedOn(req: VersionRequest, artifact: nat, isUrl: string -> bool) {
    req.artifact == artifact && req.url != "" && isUrl(req.url)
  }

  /** N accepted creates on an artifact numbered 1..k leave it numbered
      1..k+N. */
  lemma {:induction false} SequentialCreates(s: Store, artifact: nat, reqs: seq<VersionRequest>, isUrl: string -> bool, k: nat)
    requires HasArtifact(s, artifact)
    requires VersionNumbers(s.versions, artifact) == Iota(k)
    requires AllAcceptedOn(reqs, artifact, isUrl)
    ensures VersionNumbers(CreateAll(s, reqs, isUrl).versions, artifact) == Iota(k + |reqs|)
    decreases |reqs|
  {
    if |reqs| > 0 {
      AcceptedCreate(s, artifact, reqs, isUrl, k);
      var s1 := CreateVersion(s, reqs[0], isUrl).value.store;
      SequentialCreates(s1, artifact, reqs[1..], isUrl, k + 1);
      assert k + 1 + |reqs[1..]| == k + |reqs|;
    }
  }

  /** Every request of `reqs` is accepted on `artifact`. */
  predicate AllAcceptedOn(reqs: seq<VersionRequest>, artifact: nat, isUrl: string -> bool)
    decreases |reqs|
  {
    |reqs| == 0 || (AcceptedOn(reqs[0], artifact, isUrl) && AllAcceptedOn(reqs[1..], artifact, isUrl))
  }

  /** Requests accepted one by one are accepted as a run. */
  lemma {:induction false} AllAcceptedOnOfEach(reqs: seq<VersionRequest>, artifact: nat, isUrl: string -> bool)
    requires forall i :: 0 <= i < |reqs| ==> AcceptedOn(reqs[i], artifact, isUrl)
    ensures AllAcceptedOn(reqs, artifact, isUrl)
    decreases |reqs|
  {
    if |reqs| > 0 {
      var rest := reqs[1..];
      assert forall i :: 0 <= i < |rest| ==> rest[i] == reqs[i + 1];
      AllAcceptedOnOfEach(rest, artifact, isUrl);
    }
  }

  /** The first of a run of creates, when accepted on an artifact numbered
      1..k, succeeds, numbers it 1..k+1, and the rest run from there. */
  lemma AcceptedCreate(s: Store, artifact: nat, reqs: seq<VersionRequest>, isUrl: string -> bool, k: nat)
    requires |reqs| > 0 && HasArtifact(s, artifact) && AcceptedOn(reqs[0], artifact, isUrl)
    requires VersionNumbers(s.versions, artifact) == Iota(k)
    ensures CreateVersion(s, reqs[0], isUrl).Ok?
    ensures var s1 := CreateVersion(s, reqs[0], isUrl).value.store;
      && HasArtifact(s1, artifact) && VersionNumbers(s1.versions, artifact) == Iota(k + 1)
      && CreateAll(s, reqs, isUrl) == CreateAll(s1, reqs[1..], isUrl)
  {
    CreateKeepsContiguous(s, reqs[0], isUrl, artifact, k);
  }

  /** A version-create request on `artifact` that passes validation. */
  predicate AcceptedCreation(op: Op, artifact: nat, isUrl: string -> bool) {
    op.NewVersion? && AcceptedOn(op.versionReq, artifact, isUrl)
  }

  /** N successful creations on an artifact that has k versions numbered
      1..k leave it numbered 1..k+N; on a fresh artifact (k = 0) they are
      numbered exactly 1..N, whatever version numbers the clients sent. */
  lemma SequentialNumbering(s: Store, artifact: nat, ops: seq<Op>, isUrl: string -> bool, k: nat)
    requires HasArtifact(s, artifact)
    requires VersionNumbers(s.versions, artifact) == Iota(k)
    requires forall i :: 0 <= i < |ops| ==> AcceptedCreation(ops[i], artifact, isUrl)
    ensures VersionNumbers(Run(s, ops, isUrl).versions, artifact) == Iota(k + |ops|)
  {
    RunOfCreates(s, ops, isUrl);
    AllAcceptedOnOfEach(CreateRequests(ops), artifact, isUrl);
    SequentialCreates(s, artifact, CreateRequests(ops), isUrl, k);
  }

  /** The tagged-variant view of a version's decision state: pending, or
      decided one way or the other, carrying the decision. */
  datatype VersionState = Pending | ApprovedBy(approval: ApprovalDecision) | RejectedBy(rejection: ApprovalDecision)

  /** A tagged state is consistent when its tag matches its decision's kind. */
  predicate Consistent(st: VersionState) {
    match st
    case Pending => true
    case ApprovedBy(d) => d.decision == Approve
    case RejectedBy(d) => d.decision == Reject
  }

  function StateOf(d: Option<ApprovalDecision>): (st: VersionState)
    ensures Consistent(st)
  {
    match d
    case None => Pending
    case Some(x) => if x.decision == Approve then ApprovedBy(x) else RejectedBy(x)
  }

  function DecisionOf(st: VersionState): Option<ApprovalDecision> {
    match st
    case Pending => None
    case ApprovedBy(d) => Some(d)
    case RejectedBy(d) => Some(d)
  }

  function StateStatus(st: VersionState): Status {
    match st
    case Pending => AwaitingApproval
    case ApprovedBy(_) => Approved
    case RejectedBy(_) => Rejected
  }

  /** An optional decision with a derived status and the tagged variant
      are the same thing: the two translations are mutually inverse on
      consistent states, and the derived status equals the tag. Status and
      decision therefore cannot disagree. */
  lemma StateCorrespondence(d: Option<ApprovalDecision>, st: VersionState)
    ensures DecisionOf(StateOf(d)) == d
    ensures StatusOf(d) == StateStatus(StateOf(d))
    ensures Consistent(st) ==> StateOf(DecisionOf(st)) == st
  {
  }
}
