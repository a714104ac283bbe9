/** The `__str__` renderings of backend/artifacts/models.py and
    backend/approvals/models.py. */
module Rendering {
  import opened Wrappers
  import opened Text
  import opened Approvals
  import opened Artifacts

  /** `Project.__str__`: the project's name. */
  function ProjectStr(p: Project): string {
    p.name
  }

  /** `Artifact.__str__`: "<project>: <artifact name>". */
  function ArtifactStr(s: Store, a: Artifact): string
    requires HasProject(s, a.project)
  {
    ProjectStr(s.projects[a.project - 1]) + ": " + a.name
  }

  /** The version's artifact and that artifact's project exist. */
  predicate Renderable(s: Store, v: ArtifactVersion) {
    HasArtifact(s, v.artifact) && HasProject(s, s.artifacts[v.artifact - 1].project)
  }

  /** `ArtifactVersion.__str__`: "<artifact> v<number>". */
  function VersionStr(s: Store, v: ArtifactVersion): string
    requires Renderable(s, v)
  {
    ArtifactStr(s, s.artifacts[v.artifact - 1]) + " v" + NatToString(v.versionNumber)
  }

  /** `ApprovalDecision.__str__`: "<version> -> <decision value>". */
  function DecisionStr(s: Store, v: ArtifactVersion, d: ApprovalDecision): string
    requires Renderable(s, v)
  {
    VersionStr(s, v) + " -> " + DecisionValue(d.decision)
  }

  /** In a valid store every version can be rendered. */
  lemma ValidStoreRenders(s: Store, pk: nat)
    requires Valid(s) && HasVersion(s, pk)
    ensures Renderable(s, s.versions[pk - 1])
  {
  }

  lemma ConcatCancel(p: string, x: string, y: string)
    requires p + x == p + y
    ensures x == y
  {
    assert x == (p + x)[|p|..];
    assert y == (p + y)[|p|..];
  }

  /** A version's rendering is the artifact's followed by " v" and the
      number in decimal, and two versions of one artifact render alike only
      when they carry the same number, so with unique numbers the
      renderings of an artifact's versions are distinct. */
  lemma VersionStrIdentifiesNumber(s: Store, v: ArtifactVersion, w: ArtifactVersion)
    requires Renderable(s, v) && Renderable(s, w) && v.artifact == w.artifact
    ensures var prefix := ArtifactStr(s, s.artifacts[v.artifact - 1]) + " v";
      VersionStr(s, v) == prefix + NatToString(v.versionNumber)
    ensures VersionStr(s, v) == VersionStr(s, w) <==> v.versionNumber == w.versionNumber
  {
    var prefix := ArtifactStr(s, s.artifacts[v.artifact - 1]) + " v";
    if VersionStr(s, v) == VersionStr(s, w) {
      ConcatCancel(prefix, NatToString(v.versionNumber), NatToString(w.versionNumber));
      NatToStringInjective(v.versionNumber, w.versionNumber);
    }
  }

  /** A decision's rendering starts with its version's and ends with the
      stored decision value, so approvals and rejections of one version
      render differently. */
  lemma DecisionStrShowsDecision(s: Store, v: ArtifactVersion, d: ApprovalDecision, e: ApprovalDecision)
    requires Renderable(s, v)
    ensures var r := DecisionStr(s, v, d);
      && r[..|VersionStr(s, v)|] == VersionStr(s, v)
      && r[|r| - |DecisionValue(d.decision)|..] == DecisionValue(d.decision)
    ensures DecisionStr(s, v, d) == DecisionStr(s, v, e) <==> d.decision == e.decision
  {
    var p := VersionStr(s, v) + " -> ";
    if DecisionStr(s, v, d) == DecisionStr(s, v, e) {
      ConcatCancel(p, DecisionValue(d.decision), DecisionValue(e.decision));
    }
  }
}
