/** The author entity and its transfer object. */
module AuthorEntity {
  import opened Wrappers

  /** An instant assigned by the persistence base class; the model never inspects it. */
  type Timestamp = int

  /** The persisted author. `active` is a nullable `Boolean`. */
  datatype Author = Author(
    id: Option<int>,
    firstName: Option<string>,
    lastName: Option<string>,
    email: Option<string>,
    biography: Option<string>,
    organization: Option<string>,
    active: Option<bool>,
    createdAt: Option<Timestamp>,
    updatedAt: Option<Timestamp>)

  /** `AuthorDTO`: the same fields as the entity. */
  datatype AuthorDTO = AuthorDTO(
    id: Option<int>,
    firstName: Option<string>,
    lastName: Option<string>,
    email: Option<string>,
    biography: Option<string>,
    organization: Option<string>,
    active: Option<bool>,
    createdAt: Option<Timestamp>,
    updatedAt: Option<Timestamp>)
}
