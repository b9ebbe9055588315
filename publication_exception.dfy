/** The failures the publications service reports to its callers. */
module PublicationExceptions {
  import opened Wrappers
  import opened PublicationEntity

  /** What a `PublicationInvalidStateException` says: one exception class, told apart by its message. */
  datatype InvalidStateReason =
    | CannotChangeStatus(from: PublicationStatus, to: PublicationStatus)
    | ContentEmpty
    | EditorNameRequired
    | RejectionReasonRequired
    | ReviewCommentsRequired

  datatype PublicationError =
    | PublicationNotFound(id: int)
    | AuthorNotFound(authorId: Option<int>)
    /** `AuthorServiceException`: the author registry could not be reached. */
    | AuthorServiceUnavailable(authorId: Option<int>)
    | InvalidState(reason: InvalidStateReason)
    /** The `IllegalArgumentException` of `PageRequest.of` for a negative page or a size below one. */
    | IllegalPageRequest
}
