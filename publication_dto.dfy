/** The publication transfer object and the author summary attached to it. */
module PublicationDto {
  import opened Wrappers
  import opened PublicationEntity

  /**
   * The author summary returned by the author registry. Its fields belong to
   * the registry; the model carries the summary as one uninterpreted value.
   */
  datatype AuthorInfo = AuthorInfo(summary: string)

  /** `PublicationDTO`: the entity's fields plus an optional author summary; the status may be null here. */
  datatype PublicationDTO = PublicationDTO(
    id: Option<int>,
    title: Option<string>,
    content: Option<string>,
    authorId: Option<int>,
    status: Option<PublicationStatus>,
    reviewComments: Option<string>,
    editorName: Option<string>,
    rejectionReason: Option<string>,
    createdAt: Option<Timestamp>,
    updatedAt: Option<Timestamp>,
    author: Option<AuthorInfo>)
}
