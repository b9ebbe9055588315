/**
 * The business rules gating a status change, keyed by the target status:
 * each rule demands that one field of the publication is not blank.
 */
module PublicationStatusValidator {
  import opened Wrappers
  import opened JavaStrings
  import opened PublicationEntity
  import opened PublicationExceptions

  /** The fields a rule may inspect. */
  datatype CheckedField = Content | EditorName | RejectionReason | ReviewComments

  function FieldValue(p: Publication, f: CheckedField): Option<string> {
    match f
    case Content => p.content
    case EditorName => p.editorName
    case RejectionReason => p.rejectionReason
    case ReviewComments => p.reviewComments
  }

  /** A rule: the field that must not be blank, and the message given when it is. */
  datatype Rule = Rule(field: CheckedField, reason: InvalidStateReason)

  /** The rules as a table from target status to rule; PUBLISHED and DRAFT have none. */
  function RuleFor(target: PublicationStatus): Option<Rule> {
    match target
    case InReview => Some(Rule(Content, ContentEmpty))
    case Approved => Some(Rule(EditorName, EditorNameRequired))
    case Rejected => Some(Rule(RejectionReason, RejectionReasonRequired))
    case RequiresChanges => Some(Rule(ReviewComments, ReviewCommentsRequired))
    case Published => None
    case Draft => None
  }

  function ValidateDraftToReview(p: Publication): Outcome<InvalidStateReason> {
    if IsBlank(p.content) then Fail(ContentEmpty) else Pass
  }

  function ValidateReviewToApproved(p: Publication): Outcome<InvalidStateReason> {
    if IsBlank(p.editorName) then Fail(EditorNameRequired) else Pass
  }

  function ValidateReviewToRejected(p: Publication): Outcome<InvalidStateReason> {
    if IsBlank(p.rejectionReason) then Fail(RejectionReasonRequired) else Pass
  }

  /** Every approved publication may be published. */
  function ValidateApprovedToPublished(p: Publication): Outcome<InvalidStateReason> {
    Pass
  }

  function ValidateReviewToRequiresChanges(p: Publication): Outcome<InvalidStateReason> {
    if IsBlank(p.reviewComments) then Fail(ReviewCommentsRequired) else Pass
  }

  /**
   * `validate`: dispatches on the target status. It fails exactly when the
   * target has a rule and the rule's field is blank, with that rule's message.
   */
  function Validate(p: Publication, newStatus: PublicationStatus): (r: Outcome<InvalidStateReason>)
    ensures r.Fail? <==> RuleFor(newStatus).Some? && IsBlank(FieldValue(p, RuleFor(newStatus).value.field))
    ensures r.Fail? ==> r.error == RuleFor(newStatus).value.reason
  {
    match newStatus
    case InReview => ValidateDraftToReview(p)
    case Approved => ValidateReviewToApproved(p)
    case Rejected => ValidateReviewToRejected(p)
    case Published => ValidateApprovedToPublished(p)
    case RequiresChanges => ValidateReviewToRequiresChanges(p)
    case _ => Pass
  }

  /** Entering IN_REVIEW fails exactly when the content is null or only characters up to U+0020. */
  lemma ReviewNeedsContent(p: Publication)
    ensures Validate(p, InReview) == if p.content.None? || OnlyTrimmable(p.content.value) then Fail(ContentEmpty) else Pass
  {
    BlankIff(p.content);
  }

  /** Entering APPROVED fails exactly when the editor name is null or blank. */
  lemma ApprovalNeedsEditor(p: Publication)
    ensures Validate(p, Approved) == if p.editorName.None? || OnlyTrimmable(p.editorName.value) then Fail(EditorNameRequired) else Pass
  {
    BlankIff(p.editorName);
  }

  /** Entering REJECTED fails exactly when the rejection reason is null or blank. */
  lemma RejectionNeedsReason(p: Publication)
    ensures Validate(p, Rejected) == if p.rejectionReason.None? || OnlyTrimmable(p.rejectionReason.value) then Fail(RejectionReasonRequired) else Pass
  {
    BlankIff(p.rejectionReason);
  }

  /** Entering REQUIRES_CHANGES fails exactly when the review comments are null or blank. */
  lemma ChangesNeedComments(p: Publication)
    ensures Validate(p, RequiresChanges) == if p.reviewComments.None? || OnlyTrimmable(p.reviewComments.value) then Fail(ReviewCommentsRequired) else Pass
  {
    BlankIff(p.reviewComments);
  }

  /** PUBLISHED and, through the default branch, DRAFT are never refused. */
  lemma UnruledTargetsPass(p: Publication)
    ensures Validate(p, Published) == Pass
    ensures Validate(p, Draft) == Pass
  {
  }

  /** Each rule reads only its own field: publications that agree on it get the same verdict. */
  lemma ValidateReadsOnlyRuleField(p: Publication, q: Publication, target: PublicationStatus)
    requires RuleFor(target).Some? ==> FieldValue(p, RuleFor(target).value.field) == FieldValue(q, RuleFor(target).value.field)
    ensures Validate(p, target) == Validate(q, target)
  {
  }
}
