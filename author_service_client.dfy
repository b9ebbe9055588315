/**
 * The contract the publications service relies on when it calls the author
 * registry: each call either returns a body (which may be absent) or fails
 * in the HTTP client; the transport itself is not modelled.
 */
module AuthorServiceClient {
  import opened Wrappers
  import opened PublicationDto
  import opened PublicationExceptions

  /** One reply of a registry endpoint: a possibly absent body, or a failure of the HTTP client. */
  datatype Reply<T> = Body(body: Option<T>) | ClientFailure

  /** The registry as seen during one operation: the reply each endpoint gives for each author id. */
  datatype AuthorRegistry = AuthorRegistry(
    existsReply: Option<int> -> Reply<bool>,
    infoReply: Option<int> -> Reply<AuthorInfo>)

  /**
   * `authorExists`: an absent body counts as "does not exist"; a client
   * failure becomes an `AuthorServiceException`.
   */
  function AuthorExists(reg: AuthorRegistry, authorId: Option<int>): (r: Result<bool, PublicationError>)
    ensures r.Failure? <==> reg.existsReply(authorId).ClientFailure?
    ensures r.Failure? ==> r.error == AuthorServiceUnavailable(authorId)
    ensures r == Success(true) <==> reg.existsReply(authorId) == Body(Some(true))
  {
    match reg.existsReply(authorId)
    case ClientFailure => Failure(AuthorServiceUnavailable(authorId))
    case Body(b) => Success(b.Some? && b.value)
  }

  /** `getAuthorInfo`: the body as returned (possibly absent), or an `AuthorServiceException`. */
  function GetAuthorInfo(reg: AuthorRegistry, authorId: Option<int>): (r: Result<Option<AuthorInfo>, PublicationError>)
    ensures r.Failure? <==> reg.infoReply(authorId).ClientFailure?
    ensures r.Failure? ==> r.error == AuthorServiceUnavailable(authorId)
    ensures r.Success? ==> r.value == reg.infoReply(authorId).body
  {
    match reg.infoReply(authorId)
    case ClientFailure => Failure(AuthorServiceUnavailable(authorId))
    case Body(b) => Success(b)
  }
}
