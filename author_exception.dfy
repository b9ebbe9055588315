/** The failures the authors service reports to its callers. */
module AuthorExceptions {
  import opened Wrappers

  datatype AuthorError =
    | AuthorNotFound(id: int)
    | AuthorAlreadyExists(email: Option<string>)
    /** The `IllegalArgumentException` of `PageRequest.of` for a negative page or a size below one. */
    | IllegalPageRequest
}
