/** Conversions between the author entity and its transfer object, and the partial update of an entity from a DTO. */
module AuthorMapper {
  import opened Wrappers
  import opened AuthorEntity

  /** The builder chain of `entityToDTO`: every field is copied. */
  function BuildDto(e: Author): (d: AuthorDTO)
    ensures d.id == e.id && d.firstName == e.firstName && d.lastName == e.lastName && d.email == e.email
    ensures d.biography == e.biography && d.organization == e.organization && d.active == e.active
    ensures d.createdAt == e.createdAt && d.updatedAt == e.updatedAt
  {
    AuthorDTO(e.id, e.firstName, e.lastName, e.email, e.biography, e.organization,
              e.active, e.createdAt, e.updatedAt)
  }

  /** `entityToDTO`: null maps to null, anything else to its copy. */
  function EntityToDto(e: Option<Author>): (d: Option<AuthorDTO>)
    ensures d.None? <==> e.None?
    ensures e.Some? ==> d.value == BuildDto(e.value)
  {
    match e
    case None => None
    case Some(a) => Some(BuildDto(a))
  }

  /** The builder chain of `dtoToEntity`: identity and timestamps are not carried over; a null `active` becomes true. */
  function BuildEntity(d: AuthorDTO): (e: Author)
    ensures e.id.None? && e.createdAt.None? && e.updatedAt.None?
    ensures e.firstName == d.firstName && e.lastName == d.lastName && e.email == d.email
    ensures e.biography == d.biography && e.organization == d.organization
    ensures e.active == if d.active.Some? then d.active else Some(true)
  {
    Author(None, d.firstName, d.lastName, d.email, d.biography, d.organization,
           Some(if d.active.Some? then d.active.value else true), None, None)
  }

  /** `dtoToEntity`: null maps to null, anything else to a new entity. */
  function DtoToEntity(d: Option<AuthorDTO>): (e: Option<Author>)
    ensures e.None? <==> d.None?
    ensures d.Some? ==> e.value == BuildEntity(d.value)
  {
    match d
    case None => None
    case Some(dto) => Some(BuildEntity(dto))
  }

  /** A non-null DTO value replaces the entity's value; a null one keeps it. */
  function Overlay<T>(fromDto: Option<T>, current: Option<T>): Option<T> {
    if fromDto.Some? then fromDto else current
  }

  /**
   * The entity as `updateEntityFromDTO` leaves it: first name, last name,
   * biography, organization and active are taken from the DTO where the DTO
   * has them; identity, email and timestamps are never touched.
   */
  function Patched(dto: Option<AuthorDTO>, e: Author): (r: Author)
    ensures r.id == e.id && r.email == e.email && r.createdAt == e.createdAt && r.updatedAt == e.updatedAt
    ensures dto.None? ==> r == e
  {
    match dto
    case None => e
    case Some(d) =>
      e.(firstName := Overlay(d.firstName, e.firstName),
         lastName := Overlay(d.lastName, e.lastName),
         biography := Overlay(d.biography, e.biography),
         organization := Overlay(d.organization, e.organization),
         active := Overlay(d.active, e.active))
  }

  /** `updateEntityFromDTO`: the guarded setters, applied one after another to the entity. */
  method UpdateEntityFromDto(dto: Option<AuthorDTO>, entity: Author) returns (updated: Author)
    ensures updated == Patched(dto, entity)
    ensures dto.Some? && dto.value.firstName.Some? ==> updated.firstName == dto.value.firstName
    ensures (dto.None? || dto.value.firstName.None?) ==> updated.firstName == entity.firstName
    ensures dto.Some? && dto.value.lastName.Some? ==> updated.lastName == dto.value.lastName
    ensures (dto.None? || dto.value.lastName.None?) ==> updated.lastName == entity.lastName
    ensures dto.Some? && dto.value.biography.Some? ==> updated.biography == dto.value.biography
    ensures (dto.None? || dto.value.biography.None?) ==> updated.biography == entity.biography
    ensures dto.Some? && dto.value.organization.Some? ==> updated.organization == dto.value.organization
    ensures (dto.None? || dto.value.organization.None?) ==> updated.organization == entity.organization
    ensures dto.Some? && dto.value.active.Some? ==> updated.active == dto.value.active
    ensures (dto.None? || dto.value.active.None?) ==> updated.active == entity.active
    ensures updated.id == entity.id && updated.email == entity.email
  {
    updated := entity;
    if dto.None? {
      return;
    }
    var d := dto.value;
    if d.firstName.Some? {
      updated := updated.(firstName := d.firstName);
    }
    if d.lastName.Some? {
      updated := updated.(lastName := d.lastName);
    }
    if d.biography.Some? {
      updated := updated.(biography := d.biography);
    }
    if d.organization.Some? {
      updated := updated.(organization := d.organization);
    }
    if d.active.Some? {
      updated := updated.(active := d.active);
    }
  }

  /** Applying the same partial update twice is the same as applying it once. */
  lemma PatchIsIdempotent(dto: Option<AuthorDTO>, e: Author)
    ensures Patched(dto, Patched(dto, e)) == Patched(dto, e)
  {
  }

  /** Entity to DTO and back keeps every field except identity and timestamps, provided `active` was set. */
  lemma EntityRoundTrip(e: Author)
    requires e.active.Some?
    ensures DtoToEntity(EntityToDto(Some(e))) == Some(e.(id := None, createdAt := None, updatedAt := None))
  {
  }
}
