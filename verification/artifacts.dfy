/** The tables of backend/artifacts/models.py as an append-only store.

    Every table is a sequence and the row at index `i` has primary key
    `i + 1`, as the database's auto-increment assigns them. No operation in
    scope deletes a row, so a sequence is exact, and primary-key order is
    creation order. */
module Artifacts {
  import opened Wrappers
  import opened Http
  import opened Approvals

  datatype Project = Project(name: string)

  /** An artifact: a foreign key to its project, a name and a type that may
      be blank. */
  datatype Artifact = Artifact(project: nat, name: string, artifactType: string)

  /** A version: a foreign key to its artifact, its number, URL and
      submitter (which may be blank), and the optional one-to-one decision.
      The status is not stored: it is derived from `decision`. */
  datatype ArtifactVersion = ArtifactVersion(
    artifact: nat,
    versionNumber: nat,
    url: string,
    submittedBy: string,
    decision: Option<ApprovalDecision>)

  datatype Store = Store(
    projects: seq<Project>,
    artifacts: seq<Artifact>,
    versions: seq<ArtifactVersion>)

  /** A store after an insert, with the primary key of the new row. */
  datatype Inserted = Inserted(store: Store, pk: nat)

  predicate HasProject(s: Store, pk: nat) {
    1 <= pk <= |s.projects|
  }

  predicate HasArtifact(s: Store, pk: nat) {
    1 <= pk <= |s.artifacts|
  }

  predicate HasVersion(s: Store, pk: nat) {
    1 <= pk <= |s.versions|
  }

  /** The `unique_together = ('artifact', 'version_number')` constraint. */
  predicate UniqueNumbers(vs: seq<ArtifactVersion>) {
    forall i, j :: 0 <= i < j < |vs| && vs[i].artifact == vs[j].artifact ==>
      vs[i].versionNumber != vs[j].versionNumber
  }

  /** A version of `artifact` numbered `number` is already stored. */
  predicate NumberTaken(vs: seq<ArtifactVersion>, artifact: nat, number: int) {
    exists i :: 0 <= i < |vs| && vs[i].artifact == artifact && vs[i].versionNumber == number
  }

  /** The database invariants: foreign keys resolve, version numbers are
      unique per artifact, and every stored decision names who decided. */
  predicate Valid(s: Store) {
    && (forall i :: 0 <= i < |s.artifacts| ==> HasProject(s, s.artifacts[i].project))
    && (forall i :: 0 <= i < |s.versions| ==> HasArtifact(s, s.versions[i].artifact))
    && UniqueNumbers(s.versions)
    && (forall i :: 0 <= i < |s.versions| && s.versions[i].decision.Some? ==>
          WellFormedDecision(s.versions[i].decision.value))
  }

  /** `ArtifactVersion.objects.create(...)`: insert a version row with the
      given number. The database refuses an artifact key that names no
      artifact (the foreign key), a negative number (the check of a
      positive-integer column) and a number the artifact already has (the
      unique constraint); all surface as server errors. The new row starts
      without a decision. */
  function InsertVersion(s: Store, artifact: nat, number: int, url: string, submittedBy: string)
    : (r: Result<Inserted, Error>)
    ensures r.Ok? <==> HasArtifact(s, artifact) && number >= 0 && !NumberTaken(s.versions, artifact, number)
    ensures r.Ok? ==> r.value.pk == |s.versions| + 1
    ensures r.Ok? ==>
      && r.value.store.versions == s.versions + [ArtifactVersion(artifact, number, url, submittedBy, None)]
      && r.value.store.projects == s.projects && r.value.store.artifacts == s.artifacts
    ensures r.Err? ==> r.error.ServerError?
  {
    if !HasArtifact(s, artifact) then
      Err(ServerError("FOREIGN KEY constraint failed"))
    else if number < 0 then
      Err(ServerError("CHECK constraint failed: version_number"))
    else if NumberTaken(s.versions, artifact, number) then
      Err(ServerError("UNIQUE constraint failed: artifact_id, version_number"))
    else
      var v := ArtifactVersion(artifact, number, url, submittedBy, None);
      Ok(Inserted(s.(versions := s.versions + [v]), |s.versions| + 1))
  }

  /** Inserting keeps the store valid: the unique constraint can never be
      broken by a successful insert. */
  lemma InsertVersionPreservesValid(s: Store, artifact: nat, number: int, url: string, submittedBy: string)
    requires Valid(s) && HasArtifact(s, artifact)
    ensures var r := InsertVersion(s, artifact, number, url, submittedBy);
      r.Ok? ==> Valid(r.value.store)
  {
    var r := InsertVersion(s, artifact, number, url, submittedBy);
    if r.Ok? {
      var vs := r.value.store.versions;
      forall i, j | 0 <= i < j < |vs| && vs[i].artifact == vs[j].artifact
        ensures vs[i].versionNumber != vs[j].versionNumber
      {
        if j == |s.versions| {
          assert vs[i] == s.versions[i];
        }
      }
    }
  }

  /** The primary keys of all versions, newest first (`ordering =
      ['-created_at']`); creation order is primary-key order. */
  function NewestFirst(s: Store): (ids: seq<nat>)
    ensures |ids| == |s.versions|
    ensures forall i :: 0 <= i < |ids| ==> HasVersion(s, ids[i])
    ensures forall i, j :: 0 <= i < j < |ids| ==> ids[i] > ids[j]
    ensures forall pk :: HasVersion(s, pk) ==> pk in ids
  {
    var ids := seq(|s.versions|, i requires 0 <= i < |s.versions| => |s.versions| - i);
    assert forall pk :: HasVersion(s, pk) ==> ids[|s.versions| - pk] == pk;
    ids
  }

  /** After an insert the new version heads the listing and the older ones
      follow in their previous order. */
  lemma InsertedVersionListedFirst(s: Store, artifact: nat, number: int, url: string, submittedBy: string)
    requires InsertVersion(s, artifact, number, url, submittedBy).Ok?
    ensures var r := InsertVersion(s, artifact, number, url, submittedBy).value;
      NewestFirst(r.store) == [r.pk] + NewestFirst(s)
  {
    var r := InsertVersion(s, artifact, number, url, submittedBy).value;
    var s', pk := r.store, r.pk;
    var l, l' := NewestFirst(s), NewestFirst(s');
    assert |l'| == |l| + 1;
    forall i | 0 <= i < |l'|
      ensures l'[i] == ([pk] + l)[i]
    {
      // both listings are strictly decreasing runs ending at pk 1
      assert l'[i] == |s'.versions| - i;
      if i > 0 {
        assert l[i - 1] == |s.versions| - (i - 1);
      }
    }
  }
}
