/**
 * The authors service: creation with an email-uniqueness check, reads,
 * partial updates and soft deletion, over an in-memory repository keyed by
 * generated identity.
 */
module AuthorService {
  import opened Wrappers
  import opened Paging
  import opened AuthorEntity
  import opened AuthorExceptions
  import opened AuthorMapper

  /** No two stored authors share an email. */
  ghost predicate EmailsUnique(m: map<int, Author>) {
    forall j, k :: j in m && k in m && m[j].email == m[k].email ==> j == k
  }

  /** The author in `a` made inactive, as `deleteAuthor` leaves it. */
  function Deactivated(a: Author): (r: Author)
    ensures r.active == Some(false)
    ensures r.(active := a.active) == a
  {
    a.(active := Some(false))
  }

  class AuthorService {
    /** The repository: each stored author under its generated id. */
    var authors: map<int, Author>
    /** The identity the repository assigns to the next new author. */
    var nextId: int

    /** Every stored author carries the id it is stored under, and ids are below the counter. */
    ghost predicate Stored()
      reads this
    {
      1 <= nextId &&
      forall k :: k in authors ==> 1 <= k < nextId && authors[k].id == Some(k)
    }

    ghost predicate Valid()
      reads this
    {
      Stored() && EmailsUnique(authors)
    }

    constructor ()
      ensures Valid() && authors == map[] && nextId == 1
    {
      authors := map[];
      nextId := 1;
    }

    /** `existsByEmail`. */
    function ExistsByEmail(email: Option<string>): (b: bool)
      reads this
      ensures b <==> exists k :: k in authors && authors[k].email == email
    {
      exists k :: k in authors && authors[k].email == email
    }

    /** `findById`. */
    function FindById(id: int): (r: Option<Author>)
      reads this
      ensures r.Some? <==> id in authors
      ensures r.Some? ==> r.value == authors[id]
    {
      if id in authors then Some(authors[id]) else None
    }

    /** `findAll(pageable)`: one page of all authors, in id order. */
    function FindAll(page: int, size: int): (r: seq<Author>)
      reads this
      requires IsValidPageRequest(page, size)
      ensures var ks := KeysInOrder(authors, 1, nextId);
        && |r| == (if page * size >= |ks| then 0 else Min(size, |ks| - page * size))
        && forall i :: 0 <= i < |r| ==> r[i] == authors[ks[page * size + i]]
    {
      assert 0 <= page * size;
      PageRows(authors, KeysInOrder(authors, 1, nextId), page, size)
    }

    /** `save`: an author without id is inserted under a fresh id; one with id overwrites the stored one. */
    method Save(e: Author) returns (saved: Author)
      requires Stored()
      requires e.id.Some? ==> e.id.value in authors
      modifies this
      ensures Stored()
      ensures e.id.None? ==> saved == e.(id := Some(old(nextId))) && authors == old(authors)[old(nextId) := saved] && nextId == old(nextId) + 1
      ensures e.id.Some? ==> saved == e && authors == old(authors)[e.id.value := e] && nextId == old(nextId)
    {
      if e.id.None? {
        saved := e.(id := Some(nextId));
        authors := authors[nextId := saved];
        nextId := nextId + 1;
      } else {
        saved := e;
        authors := authors[e.id.value := e];
      }
    }

    /**
     * `createAuthor`: an email already stored fails with AlreadyExists and
     * stores nothing; otherwise exactly one author, built from the DTO, is
     * added under a fresh id, so emails stay unique.
     */
    method CreateAuthor(dto: AuthorDTO) returns (r: Result<AuthorDTO, AuthorError>)
      requires Valid()
      modifies this
      ensures Valid()
      ensures old(ExistsByEmail(dto.email)) ==>
        r == Failure(AuthorAlreadyExists(dto.email)) && authors == old(authors) && nextId == old(nextId)
      ensures !old(ExistsByEmail(dto.email)) ==>
        var saved := BuildEntity(dto).(id := Some(old(nextId)));
        old(nextId) !in old(authors) && authors == old(authors)[old(nextId) := saved] && nextId == old(nextId) + 1 &&
        r == Success(BuildDto(saved))
    {
      if ExistsByEmail(dto.email) {
        return Failure(AuthorAlreadyExists(dto.email));
      }
      var author := DtoToEntity(Some(dto)).value;
      var saved := Save(author);
      return Success(EntityToDto(Some(saved)).value);
    }

    /** `getAuthorById`. */
    method GetAuthorById(id: int) returns (r: Result<AuthorDTO, AuthorError>)
      ensures id !in authors ==> r == Failure(AuthorNotFound(id))
      ensures id in authors ==> r == Success(BuildDto(authors[id]))
    {
      var found := FindById(id);
      if found.None? {
        return Failure(AuthorNotFound(id));
      }
      return Success(EntityToDto(found).value);
    }

    /** `listAuthors`: the page of all authors in id order, each mapped to its DTO; an invalid page request fails. */
    method ListAuthors(page: int, size: int) returns (r: Result<seq<AuthorDTO>, AuthorError>)
      ensures !IsValidPageRequest(page, size) ==> r == Failure(IllegalPageRequest)
      ensures IsValidPageRequest(page, size) ==>
        && r.Success?
        && |r.value| == |FindAll(page, size)|
        && forall i :: 0 <= i < |r.value| ==> r.value[i] == BuildDto(FindAll(page, size)[i])
    {
      if !IsValidPageRequest(page, size) {
        return Failure(IllegalPageRequest);
      }
      var items := FindAll(page, size);
      return Success(seq(|items|, i requires 0 <= i < |items| => EntityToDto(Some(items[i])).value));
    }

    /**
     * `updateAuthor`: a missing id fails and changes nothing; otherwise only
     * that author changes, as the partial update describes.
     */
    method UpdateAuthor(id: int, dto: Option<AuthorDTO>) returns (r: Result<AuthorDTO, AuthorError>)
      requires Valid()
      modifies this
      ensures Valid() && nextId == old(nextId)
      ensures id !in old(authors) ==> r == Failure(AuthorNotFound(id)) && authors == old(authors)
      ensures id in old(authors) ==>
        authors == old(authors)[id := Patched(dto, old(authors)[id])] &&
        r == Success(BuildDto(authors[id]))
    {
      var found := FindById(id);
      if found.None? {
        return Failure(AuthorNotFound(id));
      }
      var author := UpdateEntityFromDto(dto, found.value);
      var updated := Save(author);
      return Success(EntityToDto(Some(updated)).value);
    }

    /**
     * `deleteAuthor`: a soft delete. A missing id fails and changes nothing;
     * otherwise the author stays stored, now inactive, and deleting an
     * inactive author changes nothing.
     */
    method DeleteAuthor(id: int) returns (r: Outcome<AuthorError>)
      requires Valid()
      modifies this
      ensures Valid() && nextId == old(nextId) && authors.Keys == old(authors).Keys
      ensures id !in old(authors) ==> r == Fail(AuthorNotFound(id)) && authors == old(authors)
      ensures id in old(authors) ==> r == Pass && authors == old(authors)[id := Deactivated(old(authors)[id])]
      ensures id in old(authors) && old(authors)[id].active == Some(false) ==> authors == old(authors)
    {
      var found := FindById(id);
      if found.None? {
        return Fail(AuthorNotFound(id));
      }
      var author := found.value.(active := Some(false));
      var _ := Save(author);
      return Pass;
    }

    /** `authorExists`: plain id existence, regardless of `active`. */
    method AuthorExists(id: int) returns (b: bool)
      ensures b <==> id in authors
    {
      return id in authors;
    }
  }
}
