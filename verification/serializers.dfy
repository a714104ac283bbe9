/** The serializers of backend/artifacts/serializers.py: the derived status,
    the read view of a version, version numbering on create, and artifact
    creation under the default project. */
module Serializers {
  import opened Wrappers
  import opened Http
  import opened Approvals
  import opened Artifacts

  /** The three values of the derived `status` field. */
  datatype Status = AwaitingApproval | Approved | Rejected

  /** The string a status is sent as. */
  function StatusLabel(st: Status): (name: string)
    ensures name == "AWAITING_APPROVAL" <==> st == AwaitingApproval
    ensures name == "APPROVED" <==> st == Approved
    ensures name == "REJECTED" <==> st == Rejected
  {
    match st
    case AwaitingApproval => "AWAITING_APPROVAL"
    case Approved => "APPROVED"
    case Rejected => "REJECTED"
  }

  /** The status a label denotes; None for any other string. */
  function ParseStatus(name: string): (r: Option<Status>)
    ensures r.Some? <==> name in {"AWAITING_APPROVAL", "APPROVED", "REJECTED"}
  {
    if name == "AWAITING_APPROVAL" then Some(AwaitingApproval)
    else if name == "APPROVED" then Some(Approved)
    else if name == "REJECTED" then Some(Rejected)
    else None
  }

  /** Labels are distinct and read back as their status. */
  lemma StatusLabelRoundTrip(st: Status)
    ensures ParseStatus(StatusLabel(st)) == Some(st)
  {
  }

  /** The status that a decision of the given kind leads to. */
  function DecidedStatus(kind: Decision): (st: Status)
    ensures st != AwaitingApproval
    ensures st == Approved <==> kind == Approve
  {
    match kind
    case Approve => Approved
    case Reject => Rejected
  }

  /** `get_status`: the status is a total function of the optional decision.
      No decision means awaiting approval; otherwise the decision's kind
      decides between approved and rejected. */
  function StatusOf(d: Option<ApprovalDecision>): (st: Status)
    ensures st == AwaitingApproval <==> d.None?
    ensures st == Approved <==> d.Some? && d.value.decision == Approve
    ensures st == Rejected <==> d.Some? && d.value.decision == Reject
    ensures d.Some? ==> st == DecidedStatus(d.value.decision)
  {
    match d
    case None => AwaitingApproval
    case Some(dec) =>
      match dec.decision
      case Approve => Approved
      case Reject => Rejected
  }

  /** The data `ArtifactVersionSerializer` sends for a version: its stored
      fields, the derived status and the nested decision. */
  datatype VersionView = VersionView(
    id: nat,
    artifact: nat,
    versionNumber: nat,
    url: string,
    submittedBy: string,
    status: Status,
    decision: Option<ApprovalDecision>)

  function Serialize(pk: nat, v: ArtifactVersion): (view: VersionView)
    ensures view.id == pk && view.decision == v.decision
    ensures view.status == StatusOf(v.decision)
    ensures view.artifact == v.artifact && view.versionNumber == v.versionNumber
    ensures view.url == v.url && view.submittedBy == v.submittedBy
  {
    VersionView(pk, v.artifact, v.versionNumber, v.url, v.submittedBy, StatusOf(v.decision), v.decision)
  }

  /** A store after a successful write, with the serialized version the
      view responds with. */
  datatype Saved = Saved(store: Store, view: VersionView)

  /** The largest version number stored for `artifact`, or 0 when it has
      none (`aggregate(Max('version_number')) ... or 0`). */
  function MaxVersion(vs: seq<ArtifactVersion>, artifact: nat): (m: nat)
    ensures forall i :: 0 <= i < |vs| && vs[i].artifact == artifact ==> vs[i].versionNumber <= m
    ensures m == 0 || NumberTaken(vs, artifact, m)
  {
    if |vs| == 0 then 0
    else
      var m := MaxVersion(vs[..|vs| - 1], artifact);
      var last := vs[|vs| - 1];
      if last.artifact == artifact && last.versionNumber > m then last.versionNumber else m
  }

  /** The version numbers of `artifact`, in creation order. */
  function VersionNumbers(vs: seq<ArtifactVersion>, artifact: nat): (ns: seq<nat>)
    ensures |ns| <= |vs|
    ensures forall k :: 0 <= k < |ns| ==> NumberTaken(vs, artifact, ns[k])
    ensures forall i :: 0 <= i < |vs| && vs[i].artifact == artifact ==> vs[i].versionNumber in ns
  {
    if |vs| == 0 then []
    else
      var last := vs[|vs| - 1];
      VersionNumbers(vs[..|vs| - 1], artifact)
        + (if last.artifact == artifact then [last.versionNumber] else [])
  }

  /** The body of a version-create request. Only `artifact`, `url` and
      `submitted_by` are serializer fields; a client-supplied
      `version_number` is carried here only to show that it is ignored. */
  datatype VersionRequest = VersionRequest(
    artifact: nat,
    url: string,
    submittedBy: string,
    versionNumber: Option<int>)

  const InvalidArtifact := "Invalid pk - object does not exist."
  const BlankUrl := "This field may not be blank."
  const InvalidUrl := "Enter a valid URL."

  /** `ArtifactVersionCreateSerializer` validation then `create`: the
      artifact must exist and the URL must be non-blank and pass the URL
      validator `isUrl`; the new version is numbered one past the largest
      number its artifact has, starts with no decision, and so is awaiting
      approval. */
  function CreateVersion(s: Store, req: VersionRequest, isUrl: string -> bool): (r: Result<Saved, Error>)
    ensures r.Ok? <==> HasArtifact(s, req.artifact) && req.url != "" && isUrl(req.url)
    ensures r.Err? ==> r.error.BadRequest?
    ensures r.Ok? ==> r.value.view.versionNumber == MaxVersion(s.versions, req.artifact) + 1
    ensures r.Ok? ==>
      var n := r.value.view.versionNumber;
      && n >= 1
      && (forall i :: 0 <= i < |s.versions| && s.versions[i].artifact == req.artifact ==>
            s.versions[i].versionNumber < n)
      && (n == 1 || NumberTaken(s.versions, req.artifact, n - 1))
    ensures r.Ok? ==>
      var view := r.value.view;
      && view.id == |s.versions| + 1
      && view.status == AwaitingApproval && view.decision == None
      && view.artifact == req.artifact && view.url == req.url && view.submittedBy == req.submittedBy
      && r.value.store == s.(versions := s.versions + [ArtifactVersion(req.artifact, view.versionNumber, req.url, req.submittedBy, None)])
  {
    if !HasArtifact(s, req.artifact) then Err(BadRequest(InvalidArtifact))
    else if req.url == "" then Err(BadRequest(BlankUrl))
    else if !isUrl(req.url) then Err(BadRequest(InvalidUrl))
    else
      var n := MaxVersion(s.versions, req.artifact) + 1;
      var ins := InsertVersion(s, req.artifact, n, req.url, req.submittedBy).value;
      Ok(Saved(ins.store, Serialize(ins.pk, ins.store.versions[ins.pk - 1])))
  }

  /** A client-supplied version number never changes the outcome. */
  lemma CreateVersionIgnoresClientNumber(s: Store, req: VersionRequest, isUrl: string -> bool, n: int)
    ensures CreateVersion(s, req.(versionNumber := Some(n)), isUrl) == CreateVersion(s, req.(versionNumber := None), isUrl)
  {
  }

  /** A successful create keeps the database invariants. */
  lemma CreateVersionPreservesValid(s: Store, req: VersionRequest, isUrl: string -> bool)
    requires Valid(s)
    ensures var r := CreateVersion(s, req, isUrl);
      r.Ok? ==> Valid(r.value.store)
  {
    if CreateVersion(s, req, isUrl).Ok? {
      InsertVersionPreservesValid(s, req.artifact, MaxVersion(s.versions, req.artifact) + 1, req.url, req.submittedBy);
    }
  }

  /** The body of an artifact-create request. */
  datatype ArtifactRequest = ArtifactRequest(name: string, artifactType: string)

  const DefaultProjectName := "Default Project"
  const BlankName := "This field may not be blank."

  /** The primary keys of the projects with the given name, ascending. */
  function ProjectsNamed(ps: seq<Project>, name: string): (ids: seq<nat>)
    ensures forall k :: 0 <= k < |ids| ==> 1 <= ids[k] <= |ps| && ps[ids[k] - 1].name == name
    ensures forall i :: 0 <= i < |ps| && ps[i].name == name ==> i + 1 in ids
    ensures |ids| <= |ps|
  {
    if |ps| == 0 then []
    else
      ProjectsNamed(ps[..|ps| - 1], name) + (if ps[|ps| - 1].name == name then [|ps|] else [])
  }

  lemma ProjectsNamedAppend(ps: seq<Project>, p: Project, name: string)
    ensures ProjectsNamed(ps + [p], name)
      == ProjectsNamed(ps, name) + (if p.name == name then [|ps| + 1] else [])
  {
    assert (ps + [p])[..|ps|] == ps;
  }

  /** The project `pk` exists, has the name, and no other project has it. */
  predicate OnlyProjectNamed(ps: seq<Project>, name: string, pk: nat) {
    1 <= pk <= |ps| && ps[pk - 1].name == name && ProjectsNamed(ps, name) == [pk]
  }

  /** `Project.objects.get_or_create(name=...)`: reuse the one project with
      the name, create it when there is none, and fail with
      `MultipleObjectsReturned` (a server error) when there are several. */
  function GetOrCreateProject(s: Store, name: string): (r: Result<Inserted, Error>)
    ensures r.Ok? <==> |ProjectsNamed(s.projects, name)| <= 1
    ensures r.Ok? ==> OnlyProjectNamed(r.value.store.projects, name, r.value.pk)
    ensures r.Ok? ==> r.value.store.artifacts == s.artifacts && r.value.store.versions == s.versions
    ensures r.Ok? && |ProjectsNamed(s.projects, name)| == 1 ==> r.value.store == s
    ensures r.Ok? && |ProjectsNamed(s.projects, name)| == 0 ==>
      r.value.store == s.(projects := s.projects + [Project(name)]) && r.value.pk == |s.projects| + 1
    ensures r.Err? ==> r.error.ServerError?
  {
    var found := ProjectsNamed(s.projects, name);
    if |found| == 0 then
      var ps := s.projects + [Project(name)];
      ProjectsNamedAppend(s.projects, Project(name), name);
      assert ProjectsNamed(ps, name) == [|ps|];
      assert ps[|ps| - 1].name == name;
      Ok(Inserted(s.(projects := ps), |ps|))
    else if |found| == 1 then
      assert found == [found[0]];
      Ok(Inserted(s, found[0]))
    else
      Err(ServerError("MultipleObjectsReturned"))
  }

  /** `ArtifactCreateSerializer` validation then `create`: the name must be
      non-blank; the artifact is attached to the project named "Default
      Project", created on first use. */
  function CreateArtifact(s: Store, req: ArtifactRequest): (r: Result<Inserted, Error>)
    ensures r.Ok? <==> req.name != "" && |ProjectsNamed(s.projects, DefaultProjectName)| <= 1
    ensures req.name == "" ==> r == Err(BadRequest(BlankName))
    ensures r.Ok? ==> r.value.pk == |s.artifacts| + 1 && HasArtifact(r.value.store, r.value.pk)
    ensures r.Ok? ==> r.value.store.versions == s.versions
    ensures r.Ok? ==>
      var a := r.value.store.artifacts[r.value.pk - 1];
      && a.name == req.name && a.artifactType == req.artifactType
      && r.value.store.artifacts == s.artifacts + [a]
    ensures r.Ok? && |ProjectsNamed(s.projects, DefaultProjectName)| == 1 ==>
      r.value.store.projects == s.projects
    ensures r.Ok? && |ProjectsNamed(s.projects, DefaultProjectName)| == 0 ==>
      r.value.store.projects == s.projects + [Project(DefaultProjectName)]
    ensures r.Err? && req.name != "" ==> r.error.ServerError?
    ensures r.Ok? ==> AttachedToDefault(r.value.store, r.value.pk)
  {
    if req.name == "" then Err(BadRequest(BlankName))
    else
      var p := GetOrCreateProject(s, DefaultProjectName);
      if p.Err? then Err(p.error)
      else
        var r := AppendArtifact(p.value.store, Artifact(p.value.pk, req.name, req.artifactType));
        Ok(r)
  }

  /** Insert an artifact row; only the artifact table changes. */
  function AppendArtifact(s: Store, a: Artifact): (r: Inserted)
    ensures r.pk == |s.artifacts| + 1 && HasArtifact(r.store, r.pk)
    ensures r.store.artifacts == s.artifacts + [a] && r.store.artifacts[r.pk - 1] == a
    ensures r.store.projects == s.projects && r.store.versions == s.versions
  {
    Inserted(s.(artifacts := s.artifacts + [a]), |s.artifacts| + 1)
  }

  /** The artifact `pk` belongs to the project named "Default Project",
      and that project is the only one with the name. */
  predicate AttachedToDefault(s: Store, pk: nat) {
    HasArtifact(s, pk) && OnlyProjectNamed(s.projects, DefaultProjectName, s.artifacts[pk - 1].project)
  }

  /** Two artifact creations in a row share one default project: the second
      reuses the project the first attached, and adds no project. */
  lemma DefaultProjectReused(s: Store, a: ArtifactRequest, b: ArtifactRequest)
    requires CreateArtifact(s, a).Ok?
    ensures var r1 := CreateArtifact(s, a).value;
      var r2 := CreateArtifact(r1.store, b);
      r2.Ok? <==> b.name != ""
    ensures var r1 := CreateArtifact(s, a).value;
      var r2 := CreateArtifact(r1.store, b);
      r2.Ok? ==>
        && r2.value.store.projects == r1.store.projects
        && r2.value.store.artifacts[r2.value.pk - 1].project == r1.store.artifacts[r1.pk - 1].project
  {
  }

  /** A successful artifact create keeps the database invariants. */
  lemma CreateArtifactPreservesValid(s: Store, req: ArtifactRequest)
    requires Valid(s)
    ensures var r := CreateArtifact(s, req);
      r.Ok? ==> Valid(r.value.store)
  {
    var r := CreateArtifact(s, req);
    if r.Ok? {
      var s' := r.value.store;
      AppendArtifactKeepsValid(s, s', s'.artifacts[r.value.pk - 1]);
    }
  }

  /** Appending an artifact whose project exists, while the projects can
      only grow and the versions stay, keeps the invariants. */
  lemma AppendArtifactKeepsValid(s: Store, s': Store, a: Artifact)
    requires Valid(s)
    requires s'.artifacts == s.artifacts + [a] && HasProject(s', a.project)
    requires |s.projects| <= |s'.projects| && s'.versions == s.versions
    ensures Valid(s')
  {
    forall i | 0 <= i < |s'.artifacts|
      ensures HasProject(s', s'.artifacts[i].project)
    {
      if i < |s.artifacts| {
        assert s'.artifacts[i] == s.artifacts[i];
        assert HasProject(s, s.artifacts[i].project);
      }
    }
  }
}
