/** The pure parts of the approvals dashboard
    (frontend/src/pages/ApprovalListPage.jsx): the status filter, the three
    status counts, and when the review action is offered. */
module Dashboard {
  import opened Wrappers
  import opened Approvals
  import opened Artifacts
  import opened Serializers
  import opened Views

  /** A version as the page receives it: the JSON of the serializer, with
      the status as a plain string. */
  datatype Item = Item(
    id: nat,
    versionNumber: nat,
    url: string,
    submittedBy: string,
    status: string,
    decision: Option<ApprovalDecision>)

  function ToItem(v: VersionView): Item {
    Item(v.id, v.versionNumber, v.url, v.submittedBy, StatusLabel(v.status), v.decision)
  }

  /** `items.filter(v => v.status === status)`. */
  function KeepStatus(items: seq<Item>, status: string): (r: seq<Item>)
    ensures |r| <= |items|
    ensures forall k :: 0 <= k < |r| ==> r[k].status == status
  {
    if |items| == 0 then []
    else
      var last := items[|items| - 1];
      KeepStatus(items[..|items| - 1], status) + (if last.status == status then [last] else [])
  }

  /** `applyFilter`: no status (absent, null or the empty string, all falsy
      in JavaScript, modelled as None or Some("")) keeps the list as it is;
      a status keeps exactly the items having it. */
  function ApplyFilter(items: seq<Item>, status: Option<string>): (r: seq<Item>)
    ensures status.None? || status == Some("") ==> r == items
    ensures status.Some? && status.value != "" ==>
      forall x :: x in r <==> x in items && x.status == status.value
    ensures status.Some? && status.value != "" ==>
      forall x :: multiset(r)[x] == if x.status == status.value then multiset(items)[x] else 0
  {
    if status.None? || status.value == "" then items
    else
      KeepStatusMembers(items, status.value);
      KeepStatusMultiset(items, status.value);
      KeepStatus(items, status.value)
  }

  /** An item is kept if and only if it is in the input and has the
      status. */
  lemma {:induction false} KeepStatusMembers(items: seq<Item>, status: string)
    ensures forall x :: x in KeepStatus(items, status) <==> x in items && x.status == status
    decreases |items|
  {
    if |items| > 0 {
      var prefix, last := items[..|items| - 1], items[|items| - 1];
      KeepStatusMembers(prefix, status);
      assert items == prefix + [last];
    }
  }

  /** Every matching item is kept as many times as it occurs, and no other
      item is kept. */
  lemma {:induction false} KeepStatusMultiset(items: seq<Item>, status: string)
    ensures forall x ::
      multiset(KeepStatus(items, status))[x] == if x.status == status then multiset(items)[x] else 0
    decreases |items|
  {
    if |items| > 0 {
      var prefix, last := items[..|items| - 1], items[|items| - 1];
      KeepStatusMultiset(prefix, status);
      assert items == prefix + [last];
    }
  }

  /** `a` is a subsequence of `b`: obtained by deleting elements. */
  predicate IsSubsequence(a: seq<Item>, b: seq<Item>)
    decreases |b|
  {
    || |a| == 0
    || (&& |b| > 0
        && ((a[|a| - 1] == b[|b| - 1] && IsSubsequence(a[..|a| - 1], b[..|b| - 1]))
            || IsSubsequence(a, b[..|b| - 1])))
  }

  /** The filtered list is a subsequence of the input. */
  lemma ApplyFilterIsSubsequence(items: seq<Item>, status: Option<string>)
    ensures IsSubsequence(ApplyFilter(items, status), items)
  {
    if status.Some? && status.value != "" {
      KeepStatusIsSubsequence(items, status.value);
    } else {
      SubsequenceReflexive(items);
    }
  }

  lemma {:induction false} SubsequenceReflexive(a: seq<Item>)
    ensures IsSubsequence(a, a)
    decreases |a|
  {
    if |a| > 0 {
      SubsequenceReflexive(a[..|a| - 1]);
    }
  }

  lemma {:induction false} KeepStatusIsSubsequence(items: seq<Item>, status: string)
    ensures IsSubsequence(KeepStatus(items, status), items)
    decreases |items|
  {
    if |items| > 0 {
      var prefix, last := items[..|items| - 1], items[|items| - 1];
      var r := KeepStatus(items, status);
      KeepStatusIsSubsequence(prefix, status);
      if last.status == status {
        assert r[..|r| - 1] == KeepStatus(prefix, status);
      } else {
        assert r == KeepStatus(prefix, status);
      }
    }
  }

  /** Filtering a list whose items all have the status changes nothing. */
  lemma {:induction false} KeepStatusOfMatching(items: seq<Item>, status: string)
    requires forall i :: 0 <= i < |items| ==> items[i].status == status
    ensures KeepStatus(items, status) == items
    decreases |items|
  {
    if |items| > 0 {
      var prefix := items[..|items| - 1];
      KeepStatusOfMatching(prefix, status);
      assert items == prefix + [items[|items| - 1]];
    }
  }

  /** Applying the filter twice is applying it once. */
  lemma ApplyFilterIdempotent(items: seq<Item>, status: Option<string>)
    ensures ApplyFilter(ApplyFilter(items, status), status) == ApplyFilter(items, status)
  {
    if status.Some? && status.value != "" {
      KeepStatusOfMatching(KeepStatus(items, status.value), status.value);
    }
  }

  /** The three badge counts of the dashboard. */
  datatype Counts = Counts(pending: nat, approved: nat, rejected: nat)

  function CountsOf(items: seq<Item>): (c: Counts)
    ensures c.pending <= |items| && c.approved <= |items| && c.rejected <= |items|
  {
    Counts(
      |KeepStatus(items, StatusLabel(AwaitingApproval))|,
      |KeepStatus(items, StatusLabel(Approved))|,
      |KeepStatus(items, StatusLabel(Rejected))|)
  }

  /** The counts of an empty list are zero, and one more item adds exactly
      one to the count of its own status and leaves the other two as they
      are. */
  lemma CountsOfAppend(items: seq<Item>, x: Item)
    ensures CountsOf([]) == Counts(0, 0, 0)
    ensures var c, c' := CountsOf(items), CountsOf(items + [x]);
      && c'.pending == c.pending + (if x.status == "AWAITING_APPROVAL" then 1 else 0)
      && c'.approved == c.approved + (if x.status == "APPROVED" then 1 else 0)
      && c'.rejected == c.rejected + (if x.status == "REJECTED" then 1 else 0)
  {
    assert (items + [x])[..|items|] == items;
  }

  /** Every item carries one of the three status labels. */
  predicate KnownStatuses(items: seq<Item>) {
    forall i :: 0 <= i < |items| ==> ParseStatus(items[i].status).Some?
  }

  /** When every item has one of the three statuses, the counts add up to
      the number of items. */
  lemma {:induction false} CountsSumToTotal(items: seq<Item>)
    requires KnownStatuses(items)
    ensures var c := CountsOf(items); c.pending + c.approved + c.rejected == |items|
    decreases |items|
  {
    if |items| > 0 {
      CountsSumToTotal(items[..|items| - 1]);
    }
  }

  /** Every version of the store, newest first, as serialized by
      `ArtifactVersionSerializer` and received by the page. */
  function StoreItems(s: Store): (items: seq<Item>)
    ensures |items| == |s.versions|
  {
    var ids := NewestFirst(s);
    seq(|ids|, i requires 0 <= i < |ids| => ToItem(Serialize(ids[i], s.versions[ids[i] - 1])))
  }

  /** Items built from the store always have a known status, so the
      dashboard's three counts add up to the number of versions. */
  lemma StoreCountsSumToTotal(s: Store)
    ensures KnownStatuses(StoreItems(s))
    ensures var c := CountsOf(StoreItems(s)); c.pending + c.approved + c.rejected == |s.versions|
  {
    var items := StoreItems(s);
    forall i | 0 <= i < |items|
      ensures ParseStatus(items[i].status).Some?
    {
      StatusLabelRoundTrip(Serialize(NewestFirst(s)[i], s.versions[NewestFirst(s)[i] - 1]).status);
    }
    CountsSumToTotal(items);
  }

  /** The "Review & Decide" button is shown only for items awaiting
      approval. */
  predicate OffersReview(item: Item): (b: bool)
    ensures b <==> ParseStatus(item.status) == Some(AwaitingApproval)
  {
    item.status == "AWAITING_APPROVAL"
  }

  /** The button is shown exactly for the versions a decision can still be
      recorded on: for an existing version and a request naming who
      decides, the review action is offered if and only if the decide is
      not refused with 409. */
  lemma OffersReviewIffDecidable(s: Store, pk: nat, kind: Decision, body: DecisionBody)
    requires HasVersion(s, pk) && DecidedByOf(body.decidedBy) != ""
    ensures OffersReview(ToItem(GetVersion(s, pk).value)) <==> !(Decide(s, pk, kind, body).Err? && Decide(s, pk, kind, body).error.Conflict?)
    ensures OffersReview(ToItem(GetVersion(s, pk).value)) <==> s.versions[pk - 1].decision.None?
  {
  }
}
