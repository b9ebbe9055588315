# Editorial publications: lifecycle engine and author records, in Dafny

This project models the core of an editorial system made of two services.

The **publications service** moves each publication through a fixed review
workflow: DRAFT → IN_REVIEW → APPROVED / REJECTED / REQUIRES_CHANGES, then
APPROVED → PUBLISHED, and REQUIRES_CHANGES → IN_REVIEW. PUBLISHED and REJECTED
are final. A status change is checked twice: first against the status graph,
then against a business rule for the target status. For example, an editor
name is needed to approve. The service depends on the authors service in two
different ways:

- **Creation** is refused when the author registry says the author does not
  exist, or when the registry cannot be reached.
- **Reads and listings** attach the author's summary only on a best-effort
  basis. Any registry failure is swallowed.

The **authors service** keeps author records. It enforces unique emails on
creation, applies partial updates (only non-null fields overwrite) and
deletes softly (the record stays and is marked inactive).

Layout: one module per modelled source file (author.dfy holds both `Author` and `AuthorDTO`), plus helper modules for null and exceptions, `String.trim`, paging, and client scenarios:

| file | module | models |
|---|---|---|
| wrappers.dfy | `Wrappers` | Java `null` (`Option`), methods that return or throw (`Result`, `Outcome`) |
| java_strings.dfy | `JavaStrings` | `String.trim()` and the "null or blank" test |
| paging.dfy | `Paging` | `PageRequest.of` and the content of one page of an id-ordered table |
| publication.dfy | `PublicationEntity` | `PublicationStatus`, `Publication`, the builder default, `canChangeStatus` |
| publication_dto.dfy | `PublicationDto` | `PublicationDTO` and the author summary |
| publication_exception.dfy | `PublicationExceptions` | the publication service's failures |
| publication_status_validator.dfy | `PublicationStatusValidator` | `validate` and its five rules |
| publication_mapper.dfy | `PublicationMapper` | `entityToDTO`, `dtoToEntity`, `toDTO` |
| author_service_client.dfy | `AuthorServiceClient` | the contract of the author registry client |
| publication_service.dfy | `PublicationService` | the orchestrator, as a class over an in-memory repository |
| author.dfy | `AuthorEntity` | `Author` and `AuthorDTO` |
| author_exception.dfy | `AuthorExceptions` | the authors service's failures |
| author_mapper.dfy | `AuthorMapper` | `entityToDTO`, `dtoToEntity`, `updateEntityFromDTO` |
| author_service.dfy | `AuthorService` | the authors service, as a class over an in-memory repository |
| workflow_scenarios.dfy | `WorkflowScenarios` | client code that walks a publication through the workflow using only the contracts |

How the model is built:

- **Values and classes.** Entities and DTOs are datatypes. Every nullable
  Java reference is an `Option`. The two services are classes. Each keeps its
  repository as a map from generated id to record, plus the next id to hand
  out. The object invariant `Valid()` says that every record is stored under
  its own id. For authors, it also says that no two authors share an email.
- **State-changing methods.** Each one states its whole new state in terms
  of the old one. For every failure it states the exact error and says the
  repository is unchanged.
- **The author registry.** It is a value passed to each publications-service
  call. It gives the reply each endpoint returns for each author id: a body,
  possibly absent, or a failure of the HTTP client.

## Behaviour worth knowing

- **Validation failures.** Every validation failure and every illegal
  transition throws the same exception class,
  `PublicationInvalidStateException`, with a different message each time.
  The model keeps the one class, `InvalidState`, and records the message as
  an `InvalidStateReason`.
- **Status on creation.** `dtoToEntity` keeps the DTO's status when it is
  non-null; only a null status becomes DRAFT. `CreatePublication` does the
  same. Over HTTP every new publication still starts at DRAFT:
  `PublicationDTO.java:32-34` marks `status` read-only for JSON input and
  defaults it to DRAFT, so a request body cannot set it. Only a caller inside
  the service can pass another status, as `WorkflowScenarios.PublishedIsFinal`
  does.
- **Missing authors on read.** A lookup of an unknown author makes the
  authors service throw `AuthorNotFoundException` (AuthorService.java:44-45),
  so the GET answers with an error status. The HTTP client raises that as a
  `RestClientException`, `getAuthorInfo` turns it into
  `AuthorServiceException`, and enrichment swallows it. In the model this is
  a `ClientFailure` reply. An absent body (`Body(None)`) is a separate case,
  and it too leaves the author absent.

## Model

`JavaStrings.Trim` and `JavaStrings.IsBlank` are stated through the rows for
`TrimStart`, `TrimEnd`, `TrimIsEmptyIff` and `BlankIff`. The five rule
functions, `ValidateDraftToReview` to `ValidateReviewToRequiresChanges`, are
stated through `Validate` and the four rule lemmas.

| member | source | states |
|---|---|---|
| `JavaStrings.TrimStart` | publications-service/src/main/java/com/editorial/publications/service/PublicationStatusValidator.java:40 | the leading part of `trim()`: the result is a suffix of the input, everything it drops is at or below U+0020, and it does not start with such a character |
| `JavaStrings.TrimEnd` | publications-service/src/main/java/com/editorial/publications/service/PublicationStatusValidator.java:40 | the trailing part of `trim()`: the result is a prefix, everything dropped is at or below U+0020, and it does not end with such a character |
| `JavaStrings.TrimIsEmptyIff` | publications-service/src/main/java/com/editorial/publications/service/PublicationStatusValidator.java:40 | `s.trim().isEmpty()` holds exactly when every character of `s` is at or below U+0020 |
| `JavaStrings.BlankIff` | publications-service/src/main/java/com/editorial/publications/service/PublicationStatusValidator.java:40 | "null or trims to empty" is the same as "null or only characters up to U+0020" |
| `Paging.PageOf` | publications-service/src/main/java/com/editorial/publications/service/PublicationService.java:68-69 | a page holds the items from offset page × size onward, in order, and at most `size` of them; it is empty past the end |
| `Paging.KeysInOrder` | publications-service/src/main/java/com/editorial/publications/service/PublicationService.java:69 | the ids a table lists are stored ids within the range, in strictly increasing order |
| `Paging.KeysInOrderIsComplete` | publications-service/src/main/java/com/editorial/publications/service/PublicationService.java:69 | no stored id in the range is left out of the listing |
| `Paging.PageRows` | publications-service/src/main/java/com/editorial/publications/service/PublicationService.java:68-69 | the rows of one page of a key order: `size` of them, cut short at the end and zero past it, entry i being the row under the (page × size + i)-th key |
| `PublicationEntity.NewPublication` | publications-service/src/main/java/com/editorial/publications/entity/Publication.java:26-29 | a freshly built publication has status DRAFT and no other field set |
| `PublicationEntity.CanChangeStatusMatchesTable` | publications-service/src/main/java/com/editorial/publications/entity/Publication.java:40-51 | `canChangeStatus` allows exactly the workflow table's edges: DRAFT→IN_REVIEW; IN_REVIEW→APPROVED, REJECTED, REQUIRES_CHANGES; REQUIRES_CHANGES→IN_REVIEW; APPROVED→PUBLISHED; and a status has no edge exactly when it is terminal |
| `PublicationEntity.NoSelfOrDraftTarget` | publications-service/src/main/java/com/editorial/publications/entity/Publication.java:40-51 | no status may change to itself, and no status leads back to DRAFT |
| `PublicationEntity.TerminalIsFinal` | publications-service/src/main/java/com/editorial/publications/entity/Publication.java:49 | from PUBLISHED or REJECTED every target is refused |
| `PublicationEntity.ReviewComesFirst` | publications-service/src/main/java/com/editorial/publications/entity/Publication.java:42-50 | on any chain of allowed changes from DRAFT, APPROVED, PUBLISHED, REJECTED and REQUIRES_CHANGES are only reached after IN_REVIEW: review cannot be skipped |
| `PublicationEntity.PublishedOnlyFromApproved` | publications-service/src/main/java/com/editorial/publications/entity/Publication.java:48 | on any chain of allowed changes, PUBLISHED is entered only from APPROVED |
| `PublicationEntity.TerminalEndsPath` | publications-service/src/main/java/com/editorial/publications/entity/Publication.java:49 | on any chain of allowed changes, a status that is followed by another is not terminal |
| `PublicationStatusValidator.Validate` | publications-service/src/main/java/com/editorial/publications/service/PublicationStatusValidator.java:17-37 | validation fails exactly when the target status has a rule and that rule's field is null or blank, and then with that rule's message; the rule table is IN_REVIEW→content, APPROVED→editor name, REJECTED→rejection reason, REQUIRES_CHANGES→review comments, PUBLISHED and DRAFT→none |
| `PublicationStatusValidator.ReviewNeedsContent` | publications-service/src/main/java/com/editorial/publications/service/PublicationStatusValidator.java:39-43 | entering IN_REVIEW fails with "content cannot be empty" exactly when the content is null or only characters up to U+0020 |
| `PublicationStatusValidator.ApprovalNeedsEditor` | publications-service/src/main/java/com/editorial/publications/service/PublicationStatusValidator.java:45-49 | entering APPROVED fails with "editor name is required" exactly when the editor name is null or blank |
| `PublicationStatusValidator.RejectionNeedsReason` | publications-service/src/main/java/com/editorial/publications/service/PublicationStatusValidator.java:51-55 | entering REJECTED fails with "rejection reason is required" exactly when the reason is null or blank |
| `PublicationStatusValidator.ChangesNeedComments` | publications-service/src/main/java/com/editorial/publications/service/PublicationStatusValidator.java:61-65 | entering REQUIRES_CHANGES fails with "review comments are required" exactly when the comments are null or blank |
| `PublicationStatusValidator.UnruledTargetsPass` | publications-service/src/main/java/com/editorial/publications/service/PublicationStatusValidator.java:28-35 | PUBLISHED always passes, and DRAFT passes through the default branch |
| `PublicationStatusValidator.ValidateReadsOnlyRuleField` | publications-service/src/main/java/com/editorial/publications/service/PublicationStatusValidator.java:17-65 | two publications that agree on the target's rule field get the same verdict: each rule reads only its own field |
| `PublicationMapper.BuildDto` | publications-service/src/main/java/com/editorial/publications/service/PublicationMapper.java:15-26 | the DTO copies id, title, content, author id, status, the three review fields and both timestamps unchanged, and has no author attached |
| `PublicationMapper.EntityToDto` | publications-service/src/main/java/com/editorial/publications/service/PublicationMapper.java:10-27 | null maps to null; any entity maps to its copy |
| `PublicationMapper.BuildEntity` | publications-service/src/main/java/com/editorial/publications/service/PublicationMapper.java:34-42 | the entity takes title, content, author id and the review fields from the DTO, takes the DTO's status or DRAFT when it is null, and has no id or timestamps |
| `PublicationMapper.DtoToEntity` | publications-service/src/main/java/com/editorial/publications/service/PublicationMapper.java:29-43 | null maps to null; any DTO maps to a new entity |
| `PublicationMapper.ToDto` | publications-service/src/main/java/com/editorial/publications/service/PublicationMapper.java:45-47 | `toDTO` returns its argument unchanged |
| `PublicationMapper.EntityRoundTrip` | publications-service/src/main/java/com/editorial/publications/service/PublicationMapper.java:10-43 | entity → DTO → entity gives back the entity with only id and timestamps cleared |
| `PublicationMapper.DtoRoundTrip` | publications-service/src/main/java/com/editorial/publications/service/PublicationMapper.java:10-43 | DTO → entity → DTO keeps the business fields, fills a null status with DRAFT, and clears id, timestamps and author |
| `AuthorServiceClient.AuthorExists` | publications-service/src/main/java/com/editorial/publications/client/AuthorServiceClient.java:31-40 | a client failure becomes an author-service failure for that id; otherwise the answer is "exists" exactly when the body is present and true, so an absent body means "does not exist" |
| `AuthorServiceClient.GetAuthorInfo` | publications-service/src/main/java/com/editorial/publications/client/AuthorServiceClient.java:45-53 | a client failure becomes an author-service failure; otherwise the body is returned as it came, possibly absent |
| `PublicationService.Enrich` | publications-service/src/main/java/com/editorial/publications/service/PublicationService.java:112-121 | enrichment never fails and only the author field can change; on a registry failure the DTO is returned as it was; otherwise the author is whatever the registry returned |
| `PublicationService.EnrichEntity` | publications-service/src/main/java/com/editorial/publications/service/PublicationService.java:126-129 | an enriched entity is its mapped copy plus at most an author; on a registry failure it is exactly the mapped copy, otherwise its author is the registry's reply |
| `PublicationService.ReadSurvivesRegistryFailure` | publications-service/src/main/java/com/editorial/publications/service/PublicationService.java:57-60 | when the registry cannot be reached, a read still returns the whole record, status included, with no author |
| `PublicationService.EnrichAll` | publications-service/src/main/java/com/editorial/publications/service/PublicationService.java:69-71 | a listed page keeps its length and order, and item i is enriched from item i alone |
| `PublicationService.WithAuthor` | publications-service/src/main/java/com/editorial/publications/repository/PublicationRepository.java:19 | the author filter keeps only records of that author, and keeps increasing id order |
| `PublicationService.WithAuthorIsComplete` | publications-service/src/main/java/com/editorial/publications/repository/PublicationRepository.java:19 | the author filter drops none of that author's records |
| `PublicationService.PublicationService.FindById` | publications-service/src/main/java/com/editorial/publications/service/PublicationService.java:58 | the lookup finds a record exactly when the id is stored, and it is the stored record |
| `PublicationService.PublicationService.FindAll` | publications-service/src/main/java/com/editorial/publications/service/PublicationService.java:69 | a page of all records: its length is `size`, cut short at the end of the table and zero past it, and entry i is the record stored under the (page × size + i)-th id in increasing order |
| `PublicationService.PublicationService.AuthorIds` | publications-service/src/main/java/com/editorial/publications/repository/PublicationRepository.java:19 | the ids an author query reads back are stored ids of that author's records, in strictly increasing order |
| `PublicationService.PublicationService.AuthorIdsAreComplete` | publications-service/src/main/java/com/editorial/publications/repository/PublicationRepository.java:19 | every stored record of the author is in the author's listing: none is dropped |
| `PublicationService.PublicationService.FindByAuthorId` | publications-service/src/main/java/com/editorial/publications/service/PublicationService.java:80 | a page of the author's records: its length is `size`, cut short at the end of the author's listing and zero past it; entry i is the record under the (page × size + i)-th id of that listing; and every record on it belongs to the author |
| `PublicationService.PublicationService.Save` | publications-service/src/main/java/com/editorial/publications/service/PublicationService.java:45 | a record without id is stored under the next id, which is then advanced; a record with id replaces the stored one |
| `PublicationService.PublicationService.CreatePublication` | publications-service/src/main/java/com/editorial/publications/service/PublicationService.java:38-51 | a registry failure propagates and a "no" fails with AuthorNotFound, both leaving the repository unchanged; on "yes" exactly one record, built from the DTO, is added under a fresh id, and its enriched copy is returned |
| `PublicationService.PublicationService.GetPublicationById` | publications-service/src/main/java/com/editorial/publications/service/PublicationService.java:57-61 | a missing id fails with PublicationNotFound; a stored record is always returned, enriched |
| `PublicationService.PublicationService.ListPublications` | publications-service/src/main/java/com/editorial/publications/service/PublicationService.java:67-72 | an invalid page request fails; otherwise the result is the requested page of records in id order, each enriched on its own |
| `PublicationService.PublicationService.ListPublicationsByAuthor` | publications-service/src/main/java/com/editorial/publications/service/PublicationService.java:78-83 | the same for the author's records only; every item has that author id |
| `PublicationService.PublicationService.ChangeStatus` | publications-service/src/main/java/com/editorial/publications/service/PublicationService.java:88-107 | a missing id fails with PublicationNotFound; an edge the graph refuses fails with InvalidState, naming both statuses; a failed rule fails with that rule's message; every failure leaves the repository unchanged; a success changes only that record's status and returns its enriched copy |
| `AuthorMapper.BuildDto` | authors-service/src/main/java/com/editorial/authors/service/AuthorMapper.java:15-25 | the DTO copies every field unchanged |
| `AuthorMapper.EntityToDto` | authors-service/src/main/java/com/editorial/authors/service/AuthorMapper.java:10-26 | null maps to null; any entity maps to its copy |
| `AuthorMapper.BuildEntity` | authors-service/src/main/java/com/editorial/authors/service/AuthorMapper.java:33-40 | the entity takes the name, email, biography and organization from the DTO, takes `active` from the DTO or true when it is null, and has no id or timestamps |
| `AuthorMapper.DtoToEntity` | authors-service/src/main/java/com/editorial/authors/service/AuthorMapper.java:28-41 | null maps to null; any DTO maps to a new entity |
| `AuthorMapper.Patched` | authors-service/src/main/java/com/editorial/authors/service/AuthorMapper.java:43-63 | a partial update never changes id, email or timestamps, and a null DTO changes nothing |
| `AuthorMapper.UpdateEntityFromDto` | authors-service/src/main/java/com/editorial/authors/service/AuthorMapper.java:43-63 | first name, last name, biography, organization and active are overwritten exactly when the DTO's value is non-null and are otherwise kept; id and email never change |
| `AuthorMapper.PatchIsIdempotent` | authors-service/src/main/java/com/editorial/authors/service/AuthorMapper.java:48-62 | applying the same partial update twice equals applying it once |
| `AuthorMapper.EntityRoundTrip` | authors-service/src/main/java/com/editorial/authors/service/AuthorMapper.java:10-41 | entity → DTO → entity gives back the entity with only id and timestamps cleared, when `active` was set |
| `AuthorService.Deactivated` | authors-service/src/main/java/com/editorial/authors/service/AuthorService.java:78 | a soft delete sets `active` to false and changes no other field |
| `AuthorService.AuthorService.ExistsByEmail` | authors-service/src/main/java/com/editorial/authors/service/AuthorService.java:29 | the email check holds exactly when some stored author has that email |
| `AuthorService.AuthorService.FindById` | authors-service/src/main/java/com/editorial/authors/service/AuthorService.java:44 | the lookup finds an author exactly when the id is stored, and it is the stored author |
| `AuthorService.AuthorService.FindAll` | authors-service/src/main/java/com/editorial/authors/service/AuthorService.java:55 | a page of all authors: its length is `size`, cut short at the end of the table and zero past it, and entry i is the author stored under the (page × size + i)-th id in increasing order |
| `AuthorService.AuthorService.Save` | authors-service/src/main/java/com/editorial/authors/service/AuthorService.java:34 | an author without id is stored under the next id; one with id replaces the stored one |
| `AuthorService.AuthorService.CreateAuthor` | authors-service/src/main/java/com/editorial/authors/service/AuthorService.java:28-37 | an email already stored fails with AlreadyExists and stores nothing; otherwise exactly one author, built from the DTO, is added under a fresh id; emails stay unique |
| `AuthorService.AuthorService.GetAuthorById` | authors-service/src/main/java/com/editorial/authors/service/AuthorService.java:43-47 | a missing id fails with AuthorNotFound; otherwise the stored author is returned as a DTO |
| `AuthorService.AuthorService.ListAuthors` | authors-service/src/main/java/com/editorial/authors/service/AuthorService.java:53-57 | an invalid page request fails; otherwise the result is the requested page of authors in id order, each mapped to its DTO |
| `AuthorService.AuthorService.UpdateAuthor` | authors-service/src/main/java/com/editorial/authors/service/AuthorService.java:62-70 | a missing id fails with AuthorNotFound and changes nothing; otherwise only that author changes, as the partial update describes; emails stay unique |
| `AuthorService.AuthorService.DeleteAuthor` | authors-service/src/main/java/com/editorial/authors/service/AuthorService.java:75-81 | a missing id fails with AuthorNotFound and changes nothing; otherwise the author stays stored, now inactive, so the set of stored ids is unchanged; deleting an inactive author changes nothing |
| `AuthorService.AuthorService.AuthorExists` | authors-service/src/main/java/com/editorial/authors/service/AuthorService.java:87-89 | existence is plain id existence, whatever `active` says |

## Left out

- REST controllers, the global exception handler and the error-to-HTTP mapping: framework routing. Errors are kept only as datatype constructors.
- The web frontend: UI state and HTTP calls.
- The HTTP transport of the author-registry client (URL building, `RestTemplate`, the timeout setting). The registry is a value giving each endpoint's reply per author id. Exceptions other than `RestClientException`, which the client does not translate, are not modelled.
- Registry replies are fixed for the length of one service call: two items of one page with the same author get the same reply. Different calls may be given different registries.
- `AuthorInfoDTO.java` is not part of this model. The author summary is one uninterpreted value.
- Timestamps are assigned by the persistence base class, which is not part of this model. The model carries `createdAt` and `updatedAt` unchanged and never sets them.
- Bean-validation annotations on the DTOs (`@NotBlank`, `@Size`, `@Positive`) and database column constraints (NOT NULL, UNIQUE, lengths): the model's `save` accepts any values.
- Page metadata (total elements, total pages) is not modelled; only the page content is. An unsorted `findAll` is read back in ascending id order, which the database does not promise.
- In-place updates: entities and DTOs are values. `setStatus`, `setActive`, `setAuthor` and the setters of `updateEntityFromDTO` produce new values, and the repository map is reassigned. Aliasing of the managed JPA entity is not captured.
- Identities are unbounded integers; overflow of a 64-bit `Long` id is not modelled.
- `@Transactional` boundaries and logging. That a failure before `save` stores nothing is stated by each method's contract.
- Concurrency and locking: the code has none.
- `Author.getFullName` and the entity's field initializer `active = true`: neither is used by the modelled operations. `dtoToEntity` always sets `active`.
