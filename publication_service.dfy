/**
 * The lifecycle orchestrator: creation (hard dependency on the author
 * registry), reads and listings (best-effort enrichment with author data)
 * and status changes (graph check, then business rules, then save), over an
 * in-memory repository keyed by generated identity.
 */
module PublicationService {
  import opened Wrappers
  import opened Paging
  import opened PublicationEntity
  import opened PublicationDto
  import opened PublicationExceptions
  import opened PublicationStatusValidator
  import opened PublicationMapper
  import opened AuthorServiceClient

  /**
   * `enrichPublication(PublicationDTO)`: attaches the registry's author
   * summary; any failure is swallowed and the DTO is returned as it was.
   * Only the author field can change.
   */
  function Enrich(reg: AuthorRegistry, dto: PublicationDTO): (r: PublicationDTO)
    ensures r.(author := dto.author) == dto
    ensures GetAuthorInfo(reg, dto.authorId).Failure? ==> r == dto
    ensures GetAuthorInfo(reg, dto.authorId).Success? ==> r.author == GetAuthorInfo(reg, dto.authorId).value
  {
    match GetAuthorInfo(reg, dto.authorId)
    case Success(info) => dto.(author := info)
    case Failure(_) => dto
  }

  /** `enrichPublication(Publication)`: map the entity, then enrich; the result is the entity's copy plus at most an author summary. */
  function EnrichEntity(reg: AuthorRegistry, p: Publication): (r: PublicationDTO)
    ensures r.(author := None) == BuildDto(p)
    ensures GetAuthorInfo(reg, p.authorId).Failure? ==> r == BuildDto(p)
    ensures GetAuthorInfo(reg, p.authorId).Success? ==> r.author == GetAuthorInfo(reg, p.authorId).value
  {
    Enrich(reg, EntityToDto(Some(p)).value)
  }

  /** Soft dependency on read: when the registry cannot be reached, the read still yields the full record, with no author attached. */
  lemma ReadSurvivesRegistryFailure(reg: AuthorRegistry, p: Publication)
    requires reg.infoReply(p.authorId).ClientFailure?
    ensures EnrichEntity(reg, p) == BuildDto(p)
    ensures EnrichEntity(reg, p).status == Some(p.status) && EnrichEntity(reg, p).author.None?
  {
  }

  /** The page's items enriched one by one, in order: `.map(this::enrichPublication).map(publicationMapper::toDTO)`. */
  method EnrichAll(reg: AuthorRegistry, items: seq<Publication>) returns (dtos: seq<PublicationDTO>)
    ensures |dtos| == |items|
    ensures forall i :: 0 <= i < |items| ==> dtos[i] == EnrichEntity(reg, items[i])
  {
    dtos := [];
    var i := 0;
    while i < |items|
      invariant 0 <= i <= |items|
      invariant |dtos| == i
      invariant forall k :: 0 <= k < i ==> dtos[k] == EnrichEntity(reg, items[k])
    {
      var dto := Enrich(reg, EntityToDto(Some(items[i])).value);
      dtos := dtos + [ToDto(dto)];
      i := i + 1;
    }
  }

  /** The ids among `ids` whose record has the given author, in the same order. */
  function WithAuthor(rows: map<int, Publication>, ids: seq<int>, authorId: int): (r: seq<int>)
    requires forall i :: 0 <= i < |ids| ==> ids[i] in rows
    ensures forall i :: 0 <= i < |r| ==> r[i] in rows && rows[r[i]].authorId == Some(authorId)
    ensures |ids| > 0 && Increasing(ids) ==> forall i :: 0 <= i < |r| ==> ids[0] <= r[i]
    ensures Increasing(ids) ==> Increasing(r)
  {
    if ids == [] then []
    else
      var rest := WithAuthor(rows, ids[1..], authorId);
      if rows[ids[0]].authorId == Some(authorId) then [ids[0]] + rest else rest
  }

  /** No id of the author's in `ids` is filtered out. */
  lemma {:induction false} WithAuthorIsComplete(rows: map<int, Publication>, ids: seq<int>, authorId: int, j: int)
    requires forall i :: 0 <= i < |ids| ==> ids[i] in rows
    requires 0 <= j < |ids| && rows[ids[j]].authorId == Some(authorId)
    ensures ids[j] in WithAuthor(rows, ids, authorId)
  {
    if j > 0 {
      WithAuthorIsComplete(rows, ids[1..], authorId, j - 1);
    }
  }

  class PublicationService {
    /** The repository: each stored publication under its generated id. */
    var rows: map<int, Publication>
    /** The identity the repository assigns to the next new publication. */
    var nextId: int

    /** Every stored record carries the id it is stored under, and ids are below the counter. */
    ghost predicate Valid()
      reads this
    {
      1 <= nextId &&
      forall k :: k in rows ==> 1 <= k < nextId && rows[k].id == Some(k)
    }

    constructor ()
      ensures Valid() && rows == map[] && nextId == 1
    {
      rows := map[];
      nextId := 1;
    }

    /** `findById`. */
    function FindById(id: int): (r: Option<Publication>)
      reads this
      ensures r.Some? <==> id in rows
      ensures r.Some? ==> r.value == rows[id]
    {
      if id in rows then Some(rows[id]) else None
    }

    /** `findAll(pageable)`: one page of all records, in id order. */
    function FindAll(page: int, size: int): (r: seq<Publication>)
      reads this
      requires IsValidPageRequest(page, size)
      ensures var ks := KeysInOrder(rows, 1, nextId);
        && |r| == (if page * size >= |ks| then 0 else Min(size, |ks| - page * size))
        && forall i :: 0 <= i < |r| ==> r[i] == rows[ks[page * size + i]]
    {
      assert 0 <= page * size;
      PageRows(rows, KeysInOrder(rows, 1, nextId), page, size)
    }

    /** The ids of the author's records, in increasing order. */
    function AuthorIds(authorId: int): (ids: seq<int>)
      reads this
      ensures forall i :: 0 <= i < |ids| ==> ids[i] in rows && rows[ids[i]].authorId == Some(authorId)
      ensures Increasing(ids)
    {
      WithAuthor(rows, KeysInOrder(rows, 1, nextId), authorId)
    }

    /** No stored record of the author is missing from the author's listing. */
    lemma AuthorIdsAreComplete(authorId: int, k: int)
      requires Valid()
      requires k in rows && rows[k].authorId == Some(authorId)
      ensures k in AuthorIds(authorId)
    {
      var ks := KeysInOrder(rows, 1, nextId);
      KeysInOrderIsComplete(rows, 1, nextId, k);
      var j :| 0 <= j < |ks| && ks[j] == k;
      WithAuthorIsComplete(rows, ks, authorId, j);
    }

    /** `findByAuthorId(authorId, pageable)`: one page of the author's records, in id order. */
    function FindByAuthorId(authorId: int, page: int, size: int): (r: seq<Publication>)
      reads this
      requires IsValidPageRequest(page, size)
      ensures var mine := AuthorIds(authorId);
        && |r| == (if page * size >= |mine| then 0 else Min(size, |mine| - page * size))
        && forall i :: 0 <= i < |r| ==> r[i] == rows[mine[page * size + i]]
      ensures forall i :: 0 <= i < |r| ==> r[i].authorId == Some(authorId)
    {
      assert 0 <= page * size;
      PageRows(rows, AuthorIds(authorId), page, size)
    }

    /** `save`: a record without id is inserted under a fresh id; a record with id overwrites the stored one. */
    method Save(e: Publication) returns (saved: Publication)
      requires Valid()
      requires e.id.Some? ==> e.id.value in rows
      modifies this
      ensures Valid()
      ensures e.id.None? ==> saved == e.(id := Some(old(nextId))) && rows == old(rows)[old(nextId) := saved] && nextId == old(nextId) + 1
      ensures e.id.Some? ==> saved == e && rows == old(rows)[e.id.value := e] && nextId == old(nextId)
    {
      if e.id.None? {
        saved := e.(id := Some(nextId));
        rows := rows[nextId := saved];
        nextId := nextId + 1;
      } else {
        saved := e;
        rows := rows[e.id.value := e];
      }
    }

    /**
     * `createPublication`: the author must be confirmed by the registry before
     * anything is stored. A "no" fails with AuthorNotFound, a registry failure
     * propagates; in both cases the repository is unchanged. Otherwise exactly
     * one record, built from the DTO, is added under a fresh id.
     */
    method CreatePublication(dto: PublicationDTO, reg: AuthorRegistry) returns (r: Result<PublicationDTO, PublicationError>)
      requires Valid()
      modifies this
      ensures Valid()
      ensures AuthorExists(reg, dto.authorId).Failure? ==> r == Failure(AuthorServiceUnavailable(dto.authorId))
      ensures AuthorExists(reg, dto.authorId) == Success(false) ==> r == Failure(AuthorNotFound(dto.authorId))
      ensures AuthorExists(reg, dto.authorId) != Success(true) ==> rows == old(rows) && nextId == old(nextId)
      ensures AuthorExists(reg, dto.authorId) == Success(true) ==>
        var saved := BuildEntity(dto).(id := Some(old(nextId)));
        old(nextId) !in old(rows) && rows == old(rows)[old(nextId) := saved] && nextId == old(nextId) + 1 &&
        r == Success(EnrichEntity(reg, saved))
    {
      var known := AuthorExists(reg, dto.authorId);
      if known.Failure? {
        return Failure(known.error);
      }
      if !known.value {
        return Failure(AuthorNotFound(dto.authorId));
      }
      var publication := DtoToEntity(Some(dto)).value;
      var saved := Save(publication);
      return Success(Enrich(reg, EntityToDto(Some(saved)).value));
    }

    /** `getPublicationById`: a missing id fails; a stored record is always returned, enriched where the registry allows. */
    method GetPublicationById(id: int, reg: AuthorRegistry) returns (r: Result<PublicationDTO, PublicationError>)
      ensures id !in rows ==> r == Failure(PublicationNotFound(id))
      ensures id in rows ==> r == Success(EnrichEntity(reg, rows[id]))
    {
      var found := FindById(id);
      if found.None? {
        return Failure(PublicationNotFound(id));
      }
      return Success(Enrich(reg, EntityToDto(found).value));
    }

    /** `listPublications`: the page of all records in id order, each enriched on its own; an invalid page request fails. */
    method ListPublications(page: int, size: int, reg: AuthorRegistry) returns (r: Result<seq<PublicationDTO>, PublicationError>)
      ensures !IsValidPageRequest(page, size) ==> r == Failure(IllegalPageRequest)
      ensures IsValidPageRequest(page, size) ==>
        && r.Success?
        && |r.value| == |FindAll(page, size)|
        && forall i :: 0 <= i < |r.value| ==> r.value[i] == EnrichEntity(reg, FindAll(page, size)[i])
    {
      if !IsValidPageRequest(page, size) {
        return Failure(IllegalPageRequest);
      }
      var dtos := EnrichAll(reg, FindAll(page, size));
      return Success(dtos);
    }

    /** `listPublicationsByAuthor`: the page of the author's records in id order, each enriched on its own; an invalid page request fails. */
    method ListPublicationsByAuthor(authorId: int, page: int, size: int, reg: AuthorRegistry) returns (r: Result<seq<PublicationDTO>, PublicationError>)
      ensures !IsValidPageRequest(page, size) ==> r == Failure(IllegalPageRequest)
      ensures IsValidPageRequest(page, size) ==>
        && r.Success?
        && |r.value| == |FindByAuthorId(authorId, page, size)|
        && forall i :: 0 <= i < |r.value| ==> r.value[i] == EnrichEntity(reg, FindByAuthorId(authorId, page, size)[i])
      ensures IsValidPageRequest(page, size) ==> forall i :: 0 <= i < |r.value| ==> r.value[i].authorId == Some(authorId)
    {
      if !IsValidPageRequest(page, size) {
        return Failure(IllegalPageRequest);
      }
      var items := FindByAuthorId(authorId, page, size);
      var dtos := EnrichAll(reg, items);
      assert forall i :: 0 <= i < |dtos| ==> dtos[i].authorId == BuildDto(items[i]).authorId;
      return Success(dtos);
    }

    /**
     * `changeStatus`: load, check the status graph, run the business rules,
     * then set the status and save. Every failure leaves the repository as it
     * was; a success changes only the status of that one record.
     */
    method ChangeStatus(id: int, newStatus: PublicationStatus, reg: AuthorRegistry) returns (r: Result<PublicationDTO, PublicationError>)
      requires Valid()
      modifies this
      ensures Valid() && nextId == old(nextId)
      ensures r.Failure? ==> rows == old(rows)
      ensures id !in old(rows) ==> r == Failure(PublicationNotFound(id))
      ensures id in old(rows) && !CanChangeStatus(old(rows)[id].status, newStatus) ==>
        r == Failure(InvalidState(CannotChangeStatus(old(rows)[id].status, newStatus)))
      ensures id in old(rows) && CanChangeStatus(old(rows)[id].status, newStatus) && Validate(old(rows)[id], newStatus).Fail? ==>
        r == Failure(InvalidState(Validate(old(rows)[id], newStatus).error))
      ensures id in old(rows) && CanChangeStatus(old(rows)[id].status, newStatus) && Validate(old(rows)[id], newStatus).Pass? ==>
        rows == old(rows)[id := old(rows)[id].(status := newStatus)] &&
        r == Success(EnrichEntity(reg, rows[id]))
    {
      var found := FindById(id);
      if found.None? {
        return Failure(PublicationNotFound(id));
      }
      var publication := found.value;
      if !CanChangeStatus(publication.status, newStatus) {
        return Failure(InvalidState(CannotChangeStatus(publication.status, newStatus)));
      }
      var verdict := Validate(publication, newStatus);
      if verdict.Fail? {
        return Failure(InvalidState(verdict.error));
      }
      publication := publication.(status := newStatus);
      var updated := Save(publication);
      return Success(Enrich(reg, EntityToDto(Some(updated)).value));
    }
  }
}
