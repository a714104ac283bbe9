# Approval workflow: version lifecycle and decision finality

This project models the core of a small approval-workflow application.
The model is written in Dafny and its properties are proved. The backend is
a Django/DRF service:
- an *artifact* belongs to a *project*;
- an artifact has numbered *versions*;
- each version is `AWAITING_APPROVAL` until exactly one *approval decision*
  (APPROVE or REJECT) is recorded against it.

After that first decision the version is final. A later approve or reject of
it that names `decided_by` is refused with 409 Conflict. One without
`decided_by` is refused with 400 first. A React dashboard lists the versions,
filters them by status and shows three status counts.

What the model covers:
- **Database.** Each table is an append-only sequence, and the primary key
  of a row is its position plus one (module `Artifacts`). The one-to-one
  decision of a version is an `Option` field of the version. The
  `(artifact, version_number)` uniqueness and the non-negative
  `PositiveIntegerField` are checked on insertion, and a violation is the
  500 that an `IntegrityError` becomes. `Valid` is the invariant the
  database holds. Foreign keys resolve and numbers are unique per artifact
  because the schema enforces both. Every stored decision names who decided
  only because the approve/reject view refuses an empty `decided_by`
  (backend/artifacts/views.py lines 49-51). The `decided_by` column itself
  would accept an empty string.
- **Serializers.** The derived `status` (`StatusOf`) and the serialized
  view of a version (module `Serializers`) are modelled. Version creation
  assigns `max + 1` and ignores any number the client sends. Artifact
  creation attaches the artifact to the single "Default Project", found or
  created by `get_or_create`.
- **Views.** The endpoints are modelled in module `Views`: get (404),
  approve and reject. `Decide` keeps the code's order of checks: 404 for
  an unknown version, then 400 when `decided_by` is empty, then 409 when a
  decision exists, then the insert.
- **Traces.** Module `Lifecycle` models arbitrary request traces (`Run`)
  and proves what holds after any of them:
  - the invariant is kept;
  - a decided version never changes again and refuses every further
    decision;
  - numbering stays `1..n` for every artifact;
  - *n* accepted creations on a fresh artifact are numbered exactly `1..n`.

  The same module also holds a tagged-variant view of a version's state
  (`Pending | ApprovedBy | RejectedBy`) and proves that it corresponds to
  the stored optional decision.
- **Display strings.** Module `Rendering` models the `__str__` strings of
  artifacts, versions and decisions.
- **Dashboard.** Module `Dashboard` models the filter, the three counts and
  the condition for offering "Review & Decide".

The code and the documented behaviour of the project disagree in a few
places. The model follows the code:
- The next version number is the highest existing number plus one, not the
  count of versions plus one. The two agree whenever an artifact is
  numbered exactly 1..n (`Lifecycle.MaxOfContiguous`). Every request keeps
  such a numbering (`Lifecycle.RunKeepsContiguous`), so starting from an
  empty database they always agree. Numbering written by other means, such
  as a version 0 or a gap, may make them differ.
- Rejecting needs no reason. `reason` and `note` default to empty strings.
- The 404 for an unknown version is checked before the 400 for a missing
  `decided_by`.
- A version create naming an unknown artifact is a 400 validation error
  (the primary-key field rejects it), not a 404.
- `submitted_by` may be blank.
- `version_number` admits 0, so it is a `nat`.

## Model

| member | source | states |
|---|---|---|
| Approvals.DecisionValue | backend/approvals/models.py:7-9 | each decision is stored as its TextChoices value: "APPROVE" exactly for approve, "REJECT" exactly for reject |
| Approvals.ParseDecision | backend/approvals/models.py:7-9 | a stored decision string is accepted exactly when it is "APPROVE" or "REJECT", and parsing inverts the stored value |
| Artifacts.InsertVersion | backend/artifacts/models.py:24-33 | a version row is inserted exactly when its artifact exists (the foreign key), its number is non-negative, and the number is not yet taken for that artifact. The new row is appended undecided under the next primary key and no other table changes. A constraint violation is a server error |
| Artifacts.InsertVersionPreservesValid | backend/artifacts/models.py:24-33 | inserting a version on an existing artifact keeps foreign keys resolved and numbers unique per artifact |
| Artifacts.NewestFirst | backend/artifacts/models.py:34 | the default ordering lists every version exactly once, newest (highest key) first, strictly decreasing |
| Artifacts.InsertedVersionListedFirst | backend/artifacts/models.py:34 | a freshly inserted version heads the ordering, followed by the previous ordering unchanged |
| Serializers.StatusLabel | backend/artifacts/serializers.py:34-37 | each status is sent as its label, and each label belongs to exactly one status |
| Serializers.StatusOf | backend/artifacts/serializers.py:34-37 | status is AWAITING_APPROVAL iff there is no decision, APPROVED iff the decision is APPROVE, REJECTED iff it is REJECT |
| Serializers.ParseStatus | backend/artifacts/serializers.py:34-37 | a status string parses exactly when it is one of the three labels |
| Serializers.Serialize | backend/artifacts/serializers.py:15-37 | the view carries the row's key, artifact, number, url, submitter and nested decision, with the status derived from the decision |
| Serializers.MaxVersion | backend/artifacts/serializers.py:49-52 | the aggregate bounds every number of the artifact and is 0 or one of its numbers (the `or 0` of an empty aggregate) |
| Serializers.VersionNumbers | backend/artifacts/models.py:33 | lists exactly the numbers taken by the artifact's versions |
| Serializers.CreateVersion | backend/artifacts/serializers.py:40-57 | creation succeeds iff the artifact exists and the url is non-blank and valid, else a 400. On success the number is max+1, exceeds every existing number, and leaves no gap. The new version is appended and serialized as awaiting approval |
| Serializers.CreateVersionIgnoresClientNumber | backend/artifacts/serializers.py:43 | a client-supplied version number has no effect on the outcome |
| Serializers.CreateVersionPreservesValid | backend/artifacts/serializers.py:45-57 | a version create keeps the database invariant |
| Serializers.GetOrCreateProject | backend/artifacts/serializers.py:78-81 | succeeds iff at most one project has the name, and every failure is a server error, so two or more matches are a server error. On success the result is the one project with the name. A single match is reused with nothing written. With no match, exactly `Project(name)` is appended under the next key and nothing else changes |
| Serializers.CreateArtifact | backend/artifacts/serializers.py:67-84 | succeeds iff the name is non-blank and at most one default project exists. A blank name is a 400, and any other failure is a server error. On success the artifacts table is the old one plus exactly one row, with the name and type, attached to the only "Default Project". The projects are unchanged when that project exists, and otherwise gain exactly one "Default Project" row. Versions are untouched |
| Serializers.DefaultProjectReused | backend/artifacts/serializers.py:78-83 | after one successful create, a second one succeeds iff its name is non-blank, adds no project and shares the first one's project |
| Serializers.CreateArtifactPreservesValid | backend/artifacts/serializers.py:73-84 | an artifact create keeps the database invariant |
| Views.GetVersion | backend/artifacts/views.py:36-39 | the detail succeeds iff the version exists, else 404, and returns the stored fields with the derived status |
| Views.DecidedByOf | backend/artifacts/views.py:49 | `decided_by` is non-empty exactly when the field is present as a non-empty string |
| Views.OrEmpty | backend/artifacts/views.py:53-54 | an absent `reason`/`note` defaults to "", a string is kept, an explicit null is not a string |
| Views.Decide | backend/artifacts/views.py:46-71 | 404 exactly for an unknown version. Otherwise an empty `decided_by` is 400 and an existing decision is 409. Failing those, a null reason or note is 500, exactly in that case. Ok happens exactly when none apply. The store then gains the decision on that version only, and the response is the decided version with status APPROVED/REJECTED by kind |
| Views.DecideErrorDetails | backend/artifacts/views.py:51-58 | a 400 detail mentions `decided_by` and a 409 detail says a decision already exists |
| Views.ApproveVersion | backend/artifacts/views.py:43-44 | a successful approve yields status APPROVED and an APPROVE decision |
| Views.RejectVersion | backend/artifacts/views.py:74-76 | a successful reject yields status REJECTED and a REJECT decision |
| Views.DecideTouchesOnlyItsDecision | backend/artifacts/views.py:56-66 | a successful decide changes no table except the one version's decision, and every other version is unchanged |
| Views.DecidePreservesValid | backend/artifacts/views.py:56-66 | a decide keeps the database invariant |
| Views.DecidedVersionRefusesDecide | backend/artifacts/views.py:57-58 | a decided version refuses every decide, with 409 whenever `decided_by` is given |
| Views.SecondDecisionConflicts | backend/artifacts/views.py:57-58 | after a successful decide, a second decide of the same version with `decided_by` is a 409 |
| Views.DecideThenGet | backend/artifacts/views.py:67-71 | the decide response equals what a later detail request returns, and it carries a decision of the requested kind made by the given `decided_by` |
| Views.CreateThenGet | backend/artifacts/views.py:28-39 | the create response equals what a later detail request returns, and the version is awaiting approval |
| Views.RejectWithoutReason | backend/artifacts/views.py:53-66 | a reject with only `decided_by` succeeds on a pending version and stores empty reason and note |
| Lifecycle.StepPreservesValid | backend/artifacts/views.py:28-71 | any single request keeps the database invariant |
| Lifecycle.RunPreservesValid | backend/artifacts/views.py:28-71 | any sequence of requests keeps the database invariant |
| Lifecycle.StepOnlyDecides | backend/artifacts/views.py:56-66 | a request leaves an existing version unchanged, or gives an undecided version its first decision |
| Lifecycle.DecisionIsFinal | backend/approvals/models.py:11-15 | once decided, a version stays exactly as it is after any sequence of requests |
| Lifecycle.DecidedAfterTrace | backend/artifacts/views.py:56-58 | after any trace, a decided version refuses a decide with 409 and reads back unchanged |
| Lifecycle.DecideAfterAnyTraceConflicts | backend/artifacts/views.py:56-71 | after a successful decision and any later requests, another decide is 409 and the status is still the one the first decision set |
| Lifecycle.MaxOfContiguous | backend/artifacts/serializers.py:50-52 | when an artifact is numbered 1..k, the maximum is k |
| Lifecycle.NumbersIgnoreDecisions | backend/artifacts/views.py:60-66 | versions differing only in decisions have the same numbers |
| Lifecycle.AppendKeepsContiguous | backend/artifacts/serializers.py:50-55 | appending a version numbered max+1 to an artifact numbered 1..k keeps every artifact contiguous |
| Lifecycle.CreateKeepsContiguous | backend/artifacts/serializers.py:45-57 | a version create keeps every artifact's numbering contiguous |
| Lifecycle.DecideKeepsNumbers | backend/artifacts/views.py:56-66 | a decide changes no artifact's version numbers |
| Lifecycle.StepKeepsContiguous | backend/artifacts/serializers.py:45-57 | any request keeps an artifact numbered 1..k contiguous |
| Lifecycle.RunKeepsContiguous | backend/artifacts/serializers.py:45-57 | any sequence of requests keeps an artifact numbered 1..k contiguous |
| Lifecycle.RunOfCreates | backend/artifacts/views.py:28-33 | a trace made only of version-create requests leaves the same store as running those creates one after another |
| Lifecycle.AcceptedCreate | backend/artifacts/serializers.py:50-55 | the first accepted create on an artifact numbered 1..k succeeds, numbers it 1..k+1, and the remaining creates run from the store it leaves |
| Lifecycle.SequentialCreates | backend/artifacts/serializers.py:45-57 | N accepted creates on an artifact numbered 1..k leave it numbered 1..k+N |
| Lifecycle.SequentialNumbering | backend/artifacts/serializers.py:45-57 | N accepted creations on an artifact numbered 1..k leave it numbered 1..k+N, so a fresh artifact gets exactly 1..N |
| Lifecycle.StateOf | backend/artifacts/serializers.py:34-37 | the tagged state derived from a stored decision is consistent (an approval carries APPROVE, a rejection REJECT) |
| Lifecycle.StateCorrespondence | backend/artifacts/serializers.py:34-37 | the tagged state and the optional decision convert into each other losslessly and give the same status |
| Artifacts.Valid | backend/artifacts/models.py:14-33 | the database invariant: every artifact's project and every version's artifact exist, version numbers are unique per artifact, and every decision names who decided. RunPreservesValid shows that every request trace keeps it |
| Lifecycle.Step | backend/artifacts/views.py:28-71 | one write request: the written store on success, the same store on any error. StepPreservesValid and StepOnlyDecides state its properties |
| Rendering.ProjectStr | backend/artifacts/models.py:9-10 | `Project.__str__`, the project's name |
| Rendering.ArtifactStr | backend/artifacts/models.py:20-21 | `Artifact.__str__`, "<project>: <name>" |
| Rendering.VersionStr | backend/artifacts/models.py:36-37 | `ArtifactVersion.__str__`, "<artifact> v<number>". VersionStrIdentifiesNumber shows that it identifies the number within an artifact |
| Rendering.DecisionStr | backend/approvals/models.py:25-26 | `ApprovalDecision.__str__`, "<version> -> <decision value>". DecisionStrShowsDecision shows that it identifies the decision kind |
| Rendering.ValidStoreRenders | backend/artifacts/models.py:21 | every stored version of a valid database can be rendered |
| Rendering.VersionStrIdentifiesNumber | backend/artifacts/models.py:36-37 | a version renders as its artifact's string, " v" and the number in decimal, and two versions of an artifact render alike iff they have the same number |
| Rendering.DecisionStrShowsDecision | backend/approvals/models.py:25-26 | a decision renders as its version's string followed by the decision value, and two decisions on a version render alike iff they have the same kind |
| Text.ParseNatToString | backend/artifacts/models.py:37 | the decimal rendering of a number reads back as that number |
| Dashboard.ApplyFilter | frontend/src/pages/ApprovalListPage.jsx:14-17 | no status (absent or empty) returns the list unchanged. A status keeps exactly the items that have it, each as many times as it occurs in the input (multiset equality), and drops every other item |
| Dashboard.KeepStatusMultiset | frontend/src/pages/ApprovalListPage.jsx:16 | the filter keeps each matching item with its full multiplicity and no non-matching item |
| Dashboard.KeepStatus | frontend/src/pages/ApprovalListPage.jsx:16 | `items.filter(v => v.status === status)`: no longer than the input, and every kept item has the status |
| Dashboard.CountsOf | frontend/src/pages/ApprovalListPage.jsx:52-54 | the three badge counts are each at most the number of items. CountsOfAppend fixes their values and CountsSumToTotal their sum |
| Dashboard.CountsOfAppend | frontend/src/pages/ApprovalListPage.jsx:52-54 | the counts of an empty list are zero. One more item adds exactly one to the count of its own status and leaves the other two unchanged, so each count is the number of items with that status |
| Dashboard.OffersReview | frontend/src/pages/ApprovalListPage.jsx:146 | the button is shown exactly when the item's status string parses as AWAITING_APPROVAL |
| Dashboard.KeepStatusMembers | frontend/src/pages/ApprovalListPage.jsx:16 | an item is kept iff it is in the list and has the status |
| Dashboard.ApplyFilterIsSubsequence | frontend/src/pages/ApprovalListPage.jsx:14-17 | filtering keeps the original order |
| Dashboard.ApplyFilterIdempotent | frontend/src/pages/ApprovalListPage.jsx:14-17 | filtering twice by a status is filtering once |
| Dashboard.CountsSumToTotal | frontend/src/pages/ApprovalListPage.jsx:52-54 | when every item has a known status, the three counts add up to the number of items |
| Dashboard.StoreCountsSumToTotal | frontend/src/pages/ApprovalListPage.jsx:52-54 | for the store's versions as serialized by `ArtifactVersionSerializer`, every status is known and the counts add up to the number of versions |
| Dashboard.OffersReviewIffDecidable | frontend/src/pages/ApprovalListPage.jsx:146 | the review action is offered for an item iff its version is undecided, that is, iff a decide with `decided_by` would not be refused with 409 |
| Http.Code | backend/artifacts/views.py:51-58 | each error maps to its status code: 400 exactly for a bad request, 404 exactly for not found, 409 exactly for the conflict and 500 exactly for a server error |

## Left out

- Concurrency and transactions. Requests are modelled one at a time, in
  sequence. In `_decide`, the `exists()` check and the `create` take no
  lock. Two concurrent decisions on one undecided version can both pass the
  check. The loser's insert then violates the one-to-one unique index and
  fails with an `IntegrityError`, a 500 rather than the documented 409. The
  model's "a second decision is refused with 409" holds only for requests
  that run one after another.
- Timestamps (`created_at`, `updated_at`, `decided_at`). The newest-first
  ordering is modelled by the primary key, which increases with creation
  order in this append-only model.
- Field length limits (`max_length`).
- URL syntax. The `URLField` validator is the parameter `isUrl` of
  `CreateVersion`.
- Serializers.CreateArtifact: does not model DRF's trimming of surrounding
  whitespace. Only the empty name is refused.
- Serializers.CreateVersion: a DRF 400 lists every invalid field. The model
  reports a single detail for the first failing check.
- Serializers.CreateVersion: does not model DRF's trimming of surrounding
  whitespace from `url` and `submitted_by`. The model stores both exactly as
  sent.
- Serializers.CreateVersion: does not model an explicit null `url` or
  `submitted_by`. The request fields are plain strings, but DRF refuses a
  null for these non-null columns with a 400.
- Serializers.CreateVersion: `version_number` is an unbounded `nat`. The
  `PositiveIntegerField` column has a finite width that is not modelled.
- Views.Decide: request values other than absent, null or a string (numbers,
  lists) are not modelled.
- Deletion. No endpoint deletes rows, so the cascades are not modelled.
- The API root view, which only lists a link.
- Listing versions. The dashboard fetches `GET /api/artifact-versions/`, but
  the view routed there (`ArtifactVersionCreateView`) defines only `post`.
  No list endpoint exists in the backend. `Dashboard.StoreItems` models the
  list the page expects: every version, newest first, as serialized by
  `ArtifactVersionSerializer`.
- The URL routing file. It imports a view that does not exist in the views
  module, so its wiring is not modelled.
- The admin configuration.
- The frontend's fetching, polling every four seconds, navigation and
  rendering. Only the pure filter, the counts and the condition for the
  review button are modelled.
