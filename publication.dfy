/**
 * The publication entity and its status graph: the six statuses, the fields
 * a publication carries, the builder's defaults and the closed table of
 * allowed status changes.
 */
module PublicationEntity {
  import opened Wrappers

  /** An instant assigned by the persistence base class; the model never inspects it. */
  type Timestamp = int

  datatype PublicationStatus = Draft | InReview | Approved | Published | Rejected | RequiresChanges

  /** The persisted publication. Every reference field may be null; the status is never null. */
  datatype Publication = Publication(
    id: Option<int>,
    title: Option<string>,
    content: Option<string>,
    authorId: Option<int>,
    status: PublicationStatus,
    reviewComments: Option<string>,
    editorName: Option<string>,
    rejectionReason: Option<string>,
    createdAt: Option<Timestamp>,
    updatedAt: Option<Timestamp>)

  /** `Publication.builder().build()`: nothing is set except the status, which defaults to DRAFT. */
  function NewPublication(): (p: Publication)
    ensures p.status == Draft
    ensures p.id.None? && p.title.None? && p.content.None? && p.authorId.None?
    ensures p.reviewComments.None? && p.editorName.None? && p.rejectionReason.None?
    ensures p.createdAt.None? && p.updatedAt.None?
  {
    Publication(None, None, None, None, Draft, None, None, None, None, None)
  }

  /** `canChangeStatus`: whether a publication whose status is `current` may move to `newStatus`. */
  predicate CanChangeStatus(current: PublicationStatus, newStatus: PublicationStatus) {
    match current
    case Draft => newStatus == InReview
    case InReview => newStatus == Approved || newStatus == Rejected || newStatus == RequiresChanges
    case RequiresChanges => newStatus == InReview
    case Approved => newStatus == Published
    case Published | Rejected => false
  }

  /** The final states. */
  predicate IsTerminal(s: PublicationStatus) {
    s == Published || s == Rejected
  }

  /** The workflow drawn as a table: the statuses each status may move to. */
  function Successors(s: PublicationStatus): set<PublicationStatus> {
    match s
    case Draft => {InReview}
    case InReview => {Approved, Rejected, RequiresChanges}
    case RequiresChanges => {InReview}
    case Approved => {Published}
    case Published => {}
    case Rejected => {}
  }

  /** `canChangeStatus` allows exactly the edges of the table, and the terminal states are the ones without edges. */
  lemma CanChangeStatusMatchesTable(s: PublicationStatus, t: PublicationStatus)
    ensures CanChangeStatus(s, t) <==> t in Successors(s)
    ensures IsTerminal(s) <==> Successors(s) == {}
  {
  }

  /** No status may move to itself, and nothing leads back to DRAFT. */
  lemma NoSelfOrDraftTarget(s: PublicationStatus)
    ensures !CanChangeStatus(s, s)
    ensures !CanChangeStatus(s, Draft)
  {
  }

  /** PUBLISHED and REJECTED have no outgoing change. */
  lemma TerminalIsFinal(s: PublicationStatus, t: PublicationStatus)
    requires IsTerminal(s)
    ensures !CanChangeStatus(s, t)
  {
  }

  /** A sequence of statuses each of which `canChangeStatus` allows from the one before. */
  ghost predicate IsStatusPath(path: seq<PublicationStatus>) {
    forall i :: 0 <= i < |path| - 1 ==> CanChangeStatus(path[i], path[i + 1])
  }

  /** A status that is only reached by a decision taken in review (possibly followed by publication). */
  predicate IsPostReview(s: PublicationStatus) {
    s == Approved || s == Published || s == Rejected || s == RequiresChanges
  }

  /** Starting from DRAFT, no later status past review is reached without IN_REVIEW coming first. */
  lemma {:induction false} ReviewComesFirst(path: seq<PublicationStatus>, j: int)
    requires IsStatusPath(path) && |path| > 0 && path[0] == Draft
    requires 0 <= j < |path| && IsPostReview(path[j])
    ensures exists i :: 0 <= i < j && path[i] == InReview
  {
    assert CanChangeStatus(path[j - 1], path[j]);
    if path[j] == Published {
      assert path[j - 1] == Approved;
      ReviewComesFirst(path, j - 1);
    } else {
      assert path[j - 1] == InReview;
    }
  }

  /** Every PUBLISHED status on a path is entered from APPROVED. */
  lemma PublishedOnlyFromApproved(path: seq<PublicationStatus>, j: int)
    requires IsStatusPath(path) && 0 < j < |path| && path[j] == Published
    ensures path[j - 1] == Approved
  {
    assert CanChangeStatus(path[j - 1], path[j]);
  }

  /** A terminal status can only be the last one on a path: every status that is followed by another is not terminal. */
  lemma TerminalEndsPath(path: seq<PublicationStatus>, j: int)
    requires IsStatusPath(path) && 0 <= j < |path| - 1
    ensures !IsTerminal(path[j])
  {
    assert CanChangeStatus(path[j], path[j + 1]);
  }
}
