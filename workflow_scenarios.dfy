/**
 * Clients of the publications service that follow a publication through the
 * review workflow, using nothing but the service's contracts.
 */
module WorkflowScenarios {
  import opened Wrappers
  import opened JavaStrings
  import opened PublicationEntity
  import opened PublicationDto
  import opened PublicationExceptions
  import opened AuthorServiceClient
  import opened PublicationStatusValidator
  import opened PublicationService

  /** A registry that confirms every author but cannot serve author summaries. */
  function ConfirmingRegistry(): AuthorRegistry {
    AuthorRegistry(id => Body(Some(true)), id => ClientFailure)
  }

  /** A registry that cannot be reached at all. */
  function UnreachableRegistry(): AuthorRegistry {
    AuthorRegistry(id => ClientFailure, id => ClientFailure)
  }

  function Submission(content: string, editor: Option<string>): PublicationDTO {
    PublicationDTO(None, Some("A title"), Some(content), Some(7), None, None, editor, None, None, None, None)
  }

  /** Creation needs a confirmed author: with the registry down nothing is stored, and once it answers one record is. */
  method CreationNeedsRegistry() {
    var service := new PublicationService();
    var fail := service.CreatePublication(Submission("Draft text", None), UnreachableRegistry());
    assert fail == Failure(AuthorServiceUnavailable(Some(7))) && service.rows == map[];
    var created := service.CreatePublication(Submission("Draft text", None), ConfirmingRegistry());
    assert created.Success? && service.rows.Keys == {1} && service.rows[1].status == Draft;
    assert created.value.author.None?;
    var read := service.GetPublicationById(1, UnreachableRegistry());
    assert read.Success? && read.value.content == Some("Draft text") && read.value.author.None?;
  }

  /** Draft, review, approval: each step passes the graph and its rule. */
  method ReviewThenApprove() {
    var service := new PublicationService();
    var created := service.CreatePublication(Submission("Draft text", Some("J. Smith")), ConfirmingRegistry());
    assert created.Success? && 1 in service.rows && service.rows[1].status == Draft;

    ReviewNeedsContent(service.rows[1]);
    assert !OnlyTrimmable("Draft text") by { assert !IsTrimmable("Draft text"[0]); }
    var r := service.ChangeStatus(1, InReview, ConfirmingRegistry());
    assert r.Success? && service.rows[1].status == InReview;

    ApprovalNeedsEditor(service.rows[1]);
    assert !OnlyTrimmable("J. Smith") by { assert !IsTrimmable("J. Smith"[0]); }
    r := service.ChangeStatus(1, Approved, ConfirmingRegistry());
    assert r.Success? && service.rows[1].status == Approved;
  }

  /**
   * Publication, after which no change is accepted. The record starts out
   * APPROVED: `createPublication` keeps a status the DTO carries.
   */
  method PublishedIsFinal() {
    var service := new PublicationService();
    var approved := Submission("Draft text", Some("J. Smith")).(status := Some(Approved));
    var created := service.CreatePublication(approved, ConfirmingRegistry());
    assert created.Success? && 1 in service.rows && service.rows[1].status == Approved;

    var r := service.ChangeStatus(1, Published, ConfirmingRegistry());
    assert r.Success? && service.rows[1].status == Published;
    r := service.ChangeStatus(1, InReview, ConfirmingRegistry());
    assert r == Failure(InvalidState(CannotChangeStatus(Published, InReview)));
  }

  /** Changes requested without comments are refused, and approval needs an editor. */
  method ReviewRulesApply() {
    var service := new PublicationService();
    BlankIff(Some("Draft text"));
    assert !OnlyTrimmable("Draft text") by { assert !IsTrimmable("Draft text"[0]); }

    var created := service.CreatePublication(Submission("Draft text", None), ConfirmingRegistry());
    assert created.Success? && 1 in service.rows;

    var r := service.ChangeStatus(1, InReview, ConfirmingRegistry());
    assert r.Success? && service.rows[1].status == InReview;
    ChangesNeedComments(service.rows[1]);
    r := service.ChangeStatus(1, RequiresChanges, ConfirmingRegistry());
    assert r == Failure(InvalidState(ReviewCommentsRequired));
    ApprovalNeedsEditor(service.rows[1]);
    r := service.ChangeStatus(1, Approved, ConfirmingRegistry());
    assert r == Failure(InvalidState(EditorNameRequired));
    assert service.rows[1].status == InReview;
  }

  /** Content made only of blanks cannot be sent to review. */
  method BlankContentStaysDraft() {
    var service := new PublicationService();
    var created := service.CreatePublication(Submission(" \t", None), ConfirmingRegistry());
    assert created.Success? && 1 in service.rows;
    BlankIff(Some(" \t"));
    var r := service.ChangeStatus(1, InReview, ConfirmingRegistry());
    assert r == Failure(InvalidState(ContentEmpty)) && service.rows[1].status == Draft;
  }
}
