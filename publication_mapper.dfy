/** Field-copy conversions between the publication entity and its transfer object. */
module PublicationMapper {
  import opened Wrappers
  import opened PublicationEntity
  import opened PublicationDto

  /** The builder chain of `entityToDTO`: every entity field is copied; no author summary is attached. */
  function BuildDto(e: Publication): (d: PublicationDTO)
    ensures d.id == e.id && d.title == e.title && d.content == e.content && d.authorId == e.authorId
    ensures d.status == Some(e.status)
    ensures d.reviewComments == e.reviewComments && d.editorName == e.editorName && d.rejectionReason == e.rejectionReason
    ensures d.createdAt == e.createdAt && d.updatedAt == e.updatedAt
    ensures d.author.None?
  {
    PublicationDTO(e.id, e.title, e.content, e.authorId, Some(e.status),
                   e.reviewComments, e.editorName, e.rejectionReason,
                   e.createdAt, e.updatedAt, None)
  }

  /** `entityToDTO`: null maps to null, anything else to its copy. */
  function EntityToDto(e: Option<Publication>): (d: Option<PublicationDTO>)
    ensures d.None? <==> e.None?
    ensures e.Some? ==> d.value == BuildDto(e.value)
  {
    match e
    case None => None
    case Some(p) => Some(BuildDto(p))
  }

  /**
   * The builder chain of `dtoToEntity`: identity, timestamps and author summary
   * are not carried over; a null status becomes the builder's default.
   */
  function BuildEntity(d: PublicationDTO): (e: Publication)
    ensures e.id.None? && e.createdAt.None? && e.updatedAt.None?
    ensures e.title == d.title && e.content == d.content && e.authorId == d.authorId
    ensures e.status == if d.status.Some? then d.status.value else Draft
    ensures e.reviewComments == d.reviewComments && e.editorName == d.editorName && e.rejectionReason == d.rejectionReason
  {
    Publication(None, d.title, d.content, d.authorId,
                if d.status.Some? then d.status.value else NewPublication().status,
                d.reviewComments, d.editorName, d.rejectionReason, None, None)
  }

  /** `dtoToEntity`: null maps to null, anything else to a new entity. */
  function DtoToEntity(d: Option<PublicationDTO>): (e: Option<Publication>)
    ensures e.None? <==> d.None?
    ensures d.Some? ==> e.value == BuildEntity(d.value)
  {
    match d
    case None => None
    case Some(dto) => Some(BuildEntity(dto))
  }

  /** `toDTO`: the identity, applied after enrichment when a page is listed. */
  function ToDto(d: PublicationDTO): (r: PublicationDTO)
    ensures r == d
  {
    d
  }

  /** Entity to DTO and back keeps every business field and forgets only identity and timestamps. */
  lemma EntityRoundTrip(e: Publication)
    ensures DtoToEntity(EntityToDto(Some(e))) == Some(e.(id := None, createdAt := None, updatedAt := None))
  {
  }

  /** DTO to entity and back keeps the business fields, fills a null status with DRAFT and drops identity, timestamps and author. */
  lemma DtoRoundTrip(d: PublicationDTO)
    ensures EntityToDto(DtoToEntity(Some(d))) ==
      Some(d.(id := None, createdAt := None, updatedAt := None, author := None,
              status := Some(if d.status.Some? then d.status.value else Draft)))
  {
  }
}
