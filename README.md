# Revision-controlled document store of the multi-tenant integration adapter

This project models the document store at the centre of the multi-tenant integration adapter. It also models the rules of the data-sync protocol that sit around the store:

- **Two-level tenant store** (`MultitenantPersistence`). A nested map organisation → solution → document id → record. Inserts always assign revision 1 and create the organisation and solution scopes on demand. Updates and deletes are compare-and-swap operations on the record's (id, type, revision). A delete prunes the scopes it leaves empty.
- **Single-scope store** (`Persistence`). The same rules over one flat map from document id to record.
- **Record types.** `DocumentReference` (`References`) and the two stored-record classes (`Documents`) compare and hash on (id, type, revision) and never look at the JSON body. `BusinessDocument` (`BusinessDocuments`) validates identifiers: 1 to 250 characters, each one unreserved in the sense of section 2.3 of RFC 3986.
- **Protocol mapping** (`Protocol`, `Integration`, `ImplIntegration`). `makeETag`/`parseRevision` turn a revision into `"N"` and back. A store outcome becomes a reply: 201/204 with an ETag, 404 for a missing read, or the status of the `UpdateException`.
  - The organisation-scoped controller answers the `_clientsession` document type itself and never calls its store for it.
- **Java semantics the core relies on** (`Java`). 64-bit `long` arithmetic with wrap-around, `String.valueOf(long)`, `Long.parseLong`, and the `hashCode` recipes of `String` and `long`.

How the model is built:

- Each stateful store is a `class` whose field is a Dafny `map` (`organizations`, `documents`). Its methods update that field in place.
- Each store method is proved against a specification function on values (`InsertSpec`, `UpdateSpec`, `DeleteSpec`, `ListSpec`, `RetrieveSpec`). The lemmas state what the operations promise about those functions:
  - outcomes and both directions of every success condition;
  - the new listing;
  - the empty-scope invariant;
  - "nothing else changes";
  - round trips.
- Revisions are Java `long`s, so `rev + 1` wraps from `LONG_MAX` to `LONG_MIN` (`Java.Inc`).
- An exception the controllers do not catch (an invalid id in the validating constructor, a malformed `If-Match` header, a body without `_rev`) is a `Response.Uncaught` value. It is not an HTTP status.

The two-level store's code does not match the class it constructs:

- The store constructs `new BusinessDocument(id, type, rev, body)` and reads `getBody()` from it.
- The `BusinessDocument` class, however, is abstract, has no body, and its four-argument constructor takes a map of attachments, not a body. It does not override `equals` either.
- The stored record is therefore read as the concrete record of `impl/integration/Document.java`: the validating constructor plus a body, with equality on (id, type, revision). This is the only reading under which `replace` and `remove` act as the compare-and-swap the protocol describes.

## Model

| member | source | states |
|---|---|---|
| Java.Inc | src/main/java/com/appearnetworks/aiq/multitenant/persistence/InMemoryPersistenceService.java:98 | `rev + 1` on a `long`: one more below `LONG_MAX`, `LONG_MIN` at `LONG_MAX`, and never the revision it started from |
| Java.WrapLong | src/main/java/com/appearnetworks/aiq/multitenant/persistence/InMemoryPersistenceService.java:98 | truncation to a `long` leaves every in-range value unchanged |
| Java.WrapLongCongruent | src/main/java/com/appearnetworks/aiq/multitenant/persistence/InMemoryPersistenceService.java:98 | truncation to a `long` keeps the value modulo 2^64 |
| Java.StringHashCode | src/main/java/com/appearnetworks/aiq/multitenant/integration/DocumentReference.java:48-49 | `String.hashCode()` in `int` arithmetic equals the polynomial `s[0]*31^(n-1) + ... + s[n-1]` modulo 2^32 |
| Java.LongHashCode | src/main/java/com/appearnetworks/aiq/multitenant/integration/DocumentReference.java:50 | `(int) (v ^ (v >>> 32))`: a non-negative `long` that fits in an `int` hashes to itself, and -1 hashes to 0 |
| Java.WrapInt | src/main/java/com/appearnetworks/aiq/multitenant/integration/DocumentReference.java:48-51 | truncation to an `int` leaves every in-range value unchanged |
| Java.WrapIntCongruent | src/main/java/com/appearnetworks/aiq/multitenant/integration/DocumentReference.java:48-51 | truncation to an `int` keeps the value modulo 2^32, as `int` overflow does |
| Java.ParseLong | src/main/java/com/appearnetworks/aiq/multitenant/integration/IntegrationProtocol.java:287 | `Long.parseLong` fails only with `NumberFormatException` |
| Java.NatToDecimalDigits | src/main/java/com/appearnetworks/aiq/multitenant/integration/IntegrationProtocol.java:283 | the decimal form of a natural number is non-empty, all digits, and denotes that number (by induction) |
| Java.ParseLongRejectsNonDigit | src/main/java/com/appearnetworks/aiq/multitenant/integration/IntegrationProtocol.java:287 | any character other than a digit or a leading sign makes `parseLong` throw `NumberFormatException` |
| Java.LongToString | src/main/java/com/appearnetworks/aiq/multitenant/integration/IntegrationProtocol.java:283 | `String.valueOf(long)`: a minus sign exactly for negative values, then a non-empty run of decimal digits that denotes the magnitude |
| Java.ParseLongOfLongToString | src/main/java/com/appearnetworks/aiq/multitenant/integration/IntegrationProtocol.java:282-288 | `parseLong(String.valueOf(r)) == r` for every `long`, `LONG_MIN` included |
| BusinessDocuments.MatchesStarIff | src/main/java/com/appearnetworks/aiq/multitenant/integration/BusinessDocument.java:78 | the regular expression `[a-zA-Z0-9.~_-]*` matches a string exactly when every character is in the class (by induction) |
| BusinessDocuments.ValidIdIff | src/main/java/com/appearnetworks/aiq/multitenant/integration/BusinessDocument.java:78-83 | the test in `validateId` (pattern `[…]+` and length at most 250) accepts exactly the strings of 1 to 250 unreserved characters |
| BusinessDocuments.EmptyIdRejected | src/main/java/com/appearnetworks/aiq/multitenant/integration/BusinessDocument.java:78 | the empty string is not a valid identifier |
| BusinessDocuments.OverlongIdRejected | src/main/java/com/appearnetworks/aiq/multitenant/integration/BusinessDocument.java:81 | 251 valid characters are still rejected |
| BusinessDocuments.ValidateId | src/main/java/com/appearnetworks/aiq/multitenant/integration/BusinessDocument.java:80-83 | passes exactly for a valid identifier; otherwise throws `IllegalArgumentException("Invalid <name>: <id>")` |
| BusinessDocuments.NewWithoutAttachments | src/main/java/com/appearnetworks/aiq/multitenant/integration/BusinessDocument.java:35-37 | succeeds exactly when id and type are valid, with the arguments as fields and no attachments; reports the id before the type |
| BusinessDocuments.CheckAttachmentNames | src/main/java/com/appearnetworks/aiq/multitenant/integration/BusinessDocument.java:50-54 | finds no bad name exactly when every attachment name is valid; a name it reports is in the map and invalid |
| BusinessDocuments.New | src/main/java/com/appearnetworks/aiq/multitenant/integration/BusinessDocument.java:47-59 | succeeds exactly when id, type and every attachment name are valid, and then holds exactly the arguments; the failure names the id first, then the type, then an attachment; with no attachments it agrees with the three-argument constructor |
| References.FromDocument | src/main/java/com/appearnetworks/aiq/multitenant/integration/DocumentReference.java:28-30 | a reference built from a document carries its id, type and revision |
| References.Equals | src/main/java/com/appearnetworks/aiq/multitenant/integration/DocumentReference.java:32-44 | `equals` holds exactly when revision, id and type are all equal |
| References.EqualsReflexive | src/main/java/com/appearnetworks/aiq/multitenant/integration/DocumentReference.java:34 | every reference equals itself |
| References.EqualsSymmetric | src/main/java/com/appearnetworks/aiq/multitenant/integration/DocumentReference.java:37-43 | `a.equals(b)` exactly when `b.equals(a)` |
| References.HashCode | src/main/java/com/appearnetworks/aiq/multitenant/integration/DocumentReference.java:46-52 | `hashCode` in `int` arithmetic equals `31^2 * hash(id) + 31 * hash(type) + hash(rev)` modulo 2^32, over the string polynomials |
| References.EqualsImpliesSameHash | src/main/java/com/appearnetworks/aiq/multitenant/integration/DocumentReference.java:46-52 | equal references have equal `hashCode` |
| Documents.WithRev | src/main/java/com/appearnetworks/aiq/multitenant/persistence/InMemoryPersistenceService.java:70 | `body.put("_rev", r)` sets `_rev` to `r` and keeps every other member |
| Documents.NewDocument | src/main/java/com/appearnetworks/aiq/multitenant/impl/integration/Document.java:10-13 | the record is built exactly when id and type are valid, with the given body; otherwise the exception of the `BusinessDocument` constructor |
| Documents.Reference | src/main/java/com/appearnetworks/aiq/multitenant/integration/DocumentReference.java:28-30 | the reference of a record is its (id, type, revision) |
| Documents.Equals | src/main/java/com/appearnetworks/aiq/persistence/Document.java:20-32 | `equals` holds exactly when the two records have the same reference |
| Documents.TenantEquals | src/main/java/com/appearnetworks/aiq/multitenant/impl/integration/Document.java:19-30 | `equals` holds exactly when the two records have the same reference |
| Documents.EqualsIgnoresBody | src/main/java/com/appearnetworks/aiq/persistence/Document.java:20-32 | records that differ only in their body are equal under both `equals` |
| Documents.DifferentIdentityNotEqual | src/main/java/com/appearnetworks/aiq/persistence/Document.java:27-29 | records that differ in revision, id or type are unequal under both `equals` |
| Documents.HashCode | src/main/java/com/appearnetworks/aiq/persistence/Document.java:34-40 | a record's `hashCode` is its reference's `hashCode`, so the body is ignored |
| Documents.HashCodeConsistent | src/main/java/com/appearnetworks/aiq/multitenant/impl/integration/Document.java:32-38 | records equal under either `equals` hash alike |
| Documents.ReferenceSetMember | src/main/java/com/appearnetworks/aiq/persistence/InMemoryPersistenceService.java:22-28 | in a map keyed by id, a reference is listed exactly when its id is stored with that type and revision |
| Documents.ReferenceSetInsert | src/main/java/com/appearnetworks/aiq/persistence/InMemoryPersistenceService.java:22-28 | adding a record under a new id adds exactly its reference to the listing |
| Documents.ReferenceSetRemove | src/main/java/com/appearnetworks/aiq/persistence/InMemoryPersistenceService.java:22-28 | removing a record removes exactly its reference from the listing |
| Documents.ReferenceSetReplace | src/main/java/com/appearnetworks/aiq/persistence/InMemoryPersistenceService.java:22-28 | replacing a record swaps its old reference for the new one in the listing |
| Documents.OnlyReferenceOnlyRecord | src/main/java/com/appearnetworks/aiq/multitenant/persistence/InMemoryPersistenceService.java:128 | a scope that lists one reference holds nothing but that record |
| Documents.CollectReferences | src/main/java/com/appearnetworks/aiq/persistence/InMemoryPersistenceService.java:22-28 | the list loop yields one reference per stored record: length equals the map's size, membership equals the listing, ids are distinct |
| Updates.HttpStatus.Code | src/main/java/com/appearnetworks/aiq/multitenant/integration/UpdateException.java:8-17 | each status has its standard code (200, 201, 204, 403, 404, 405, 409, 412, 413) and no other status shares it |
| MultitenantPersistence.InMemoryPersistenceService.constructor | src/main/java/com/appearnetworks/aiq/multitenant/persistence/InMemoryPersistenceService.java:21 | a new store has no organisation and is well formed |
| MultitenantPersistence.InMemoryPersistenceService.List | src/main/java/com/appearnetworks/aiq/multitenant/persistence/InMemoryPersistenceService.java:24-36 | empty for an unknown organisation or solution; otherwise one reference per stored record, with distinct ids and exactly the listed references |
| MultitenantPersistence.InMemoryPersistenceService.Retrieve | src/main/java/com/appearnetworks/aiq/multitenant/persistence/InMemoryPersistenceService.java:39-52 | the stored body exactly when organisation, solution and id all exist, else `null`; the body's `_rev` is the stored revision |
| MultitenantPersistence.InMemoryPersistenceService.Insert | src/main/java/com/appearnetworks/aiq/multitenant/persistence/InMemoryPersistenceService.java:55-84 | keeps the store well formed; outcome and new tree are those of `InsertSpec`, including registration of new scopes only on success |
| MultitenantPersistence.InMemoryPersistenceService.Update | src/main/java/com/appearnetworks/aiq/multitenant/persistence/InMemoryPersistenceService.java:87-110 | keeps the store well formed; outcome and new tree are those of `UpdateSpec` |
| MultitenantPersistence.InMemoryPersistenceService.Delete | src/main/java/com/appearnetworks/aiq/multitenant/persistence/InMemoryPersistenceService.java:113-135 | keeps the store well formed; outcome and new tree are those of `DeleteSpec`, empty scopes pruned |
| MultitenantPersistence.InsertPreservesWellFormed | src/main/java/com/appearnetworks/aiq/multitenant/persistence/InMemoryPersistenceService.java:76-81 | an insert never leaves an empty organisation or solution map, and stores only validated, stamped records |
| MultitenantPersistence.UpdatePreservesWellFormed | src/main/java/com/appearnetworks/aiq/multitenant/persistence/InMemoryPersistenceService.java:102-107 | an update keeps the empty-scope invariant |
| MultitenantPersistence.DeletePreservesWellFormed | src/main/java/com/appearnetworks/aiq/multitenant/persistence/InMemoryPersistenceService.java:128-134 | the pruning after a delete keeps the empty-scope invariant |
| MultitenantPersistence.EveryOperationPreservesWellFormed | src/main/java/com/appearnetworks/aiq/multitenant/persistence/InMemoryPersistenceService.java:55-135 | every store operation, whatever its arguments and outcome, keeps the invariant |
| MultitenantPersistence.InsertOutcome | src/main/java/com/appearnetworks/aiq/multitenant/persistence/InMemoryPersistenceService.java:68-83 | success exactly for valid id and type and an id new to the scope; it returns 1, stores the body stamped with `_rev` 1, and adds (id, type, 1) to the listing; CONFLICT for a taken id; the constructor's exception for an invalid one; a failure changes nothing |
| MultitenantPersistence.InsertSuccess | src/main/java/com/appearnetworks/aiq/multitenant/persistence/InMemoryPersistenceService.java:72-81 | a successful insert had a valid, new id and writes exactly one record into the (possibly new) scope |
| MultitenantPersistence.RetrieveIsScopeLookup | src/main/java/com/appearnetworks/aiq/multitenant/persistence/InMemoryPersistenceService.java:39-52 | `retrieve` is a lookup in the scope, an unknown scope reading as empty |
| MultitenantPersistence.ListedIff | src/main/java/com/appearnetworks/aiq/multitenant/persistence/InMemoryPersistenceService.java:24-36 | a reference is listed exactly when its id is stored in the scope with that type and revision; listed ids and types are valid |
| MultitenantPersistence.UpdateOutcome | src/main/java/com/appearnetworks/aiq/multitenant/persistence/InMemoryPersistenceService.java:87-110 | success exactly when the reference is listed, returning `rev + 1`; otherwise no change, with the constructor's exception for an invalid id or type in an existing scope and PRECONDITION_FAILED in every other case |
| MultitenantPersistence.UpdateCases | src/main/java/com/appearnetworks/aiq/multitenant/persistence/InMemoryPersistenceService.java:87-110 | `update` succeeds exactly when organisation and solution exist, id and type are valid and the stored record has the reference's (id, type, rev); a failure leaves the tree as it was and is the constructor's exception for an invalid id or type in an existing scope, PRECONDITION_FAILED otherwise |
| MultitenantPersistence.UpdateSuccess | src/main/java/com/appearnetworks/aiq/multitenant/persistence/InMemoryPersistenceService.java:102-107 | a successful update found the reference stored and overwrites exactly that record |
| MultitenantPersistence.OverwriteEffect | src/main/java/com/appearnetworks/aiq/multitenant/persistence/InMemoryPersistenceService.java:102-105 | overwriting one record: it reads back, and its new reference replaces the old one in the listing |
| MultitenantPersistence.UpdateEffect | src/main/java/com/appearnetworks/aiq/multitenant/persistence/InMemoryPersistenceService.java:98-109 | after a successful update the record holds revision `rev + 1` with `_rev` stamped to match, and the listing swaps the old reference for the new |
| MultitenantPersistence.DeleteOutcome | src/main/java/com/appearnetworks/aiq/multitenant/persistence/InMemoryPersistenceService.java:113-126 | success exactly when the reference is listed; otherwise no change, with the constructor's exception for an invalid id or type in an existing scope and PRECONDITION_FAILED in every other case |
| MultitenantPersistence.DeleteCases | src/main/java/com/appearnetworks/aiq/multitenant/persistence/InMemoryPersistenceService.java:113-126 | `delete` passes exactly when organisation and solution exist, id and type are valid and the stored record has the reference's (id, type, rev); a failure leaves the tree as it was and is the constructor's exception for an invalid id or type in an existing scope, PRECONDITION_FAILED otherwise |
| MultitenantPersistence.DeleteSuccess | src/main/java/com/appearnetworks/aiq/multitenant/persistence/InMemoryPersistenceService.java:124-134 | a successful delete found the reference stored and removes exactly that record, pruning empty maps |
| MultitenantPersistence.DeleteStored | src/main/java/com/appearnetworks/aiq/multitenant/persistence/InMemoryPersistenceService.java:113-135 | deleting a stored, valid reference always passes |
| MultitenantPersistence.RemoveEffect | src/main/java/com/appearnetworks/aiq/multitenant/persistence/InMemoryPersistenceService.java:124-134 | removing one record and pruning: it reads as absent and drops out of the listing |
| MultitenantPersistence.DeleteEffect | src/main/java/com/appearnetworks/aiq/multitenant/persistence/InMemoryPersistenceService.java:113-135 | after a successful delete the id reads as `null` and its reference is no longer listed |
| MultitenantPersistence.PruneScope | src/main/java/com/appearnetworks/aiq/multitenant/persistence/InMemoryPersistenceService.java:128-134 | pruning leaves exactly the given records in the scope, unregisters an emptied solution, and changes no other scope |
| MultitenantPersistence.OtherScopesUntouched | src/main/java/com/appearnetworks/aiq/multitenant/persistence/InMemoryPersistenceService.java:55-135 | insert, update and delete on one (organisation, solution) leave every other scope as it was |
| MultitenantPersistence.RegisteredScopesNonEmpty | src/main/java/com/appearnetworks/aiq/multitenant/persistence/InMemoryPersistenceService.java:128-134 | in a well-formed tree no registered organisation or solution map is empty |
| MultitenantPersistence.PruneUndoesWrite | src/main/java/com/appearnetworks/aiq/multitenant/persistence/InMemoryPersistenceService.java:76-81 | pruning a freshly written scope back to its old records restores the tree, registration included |
| MultitenantPersistence.DeleteUndoesWrite | src/main/java/com/appearnetworks/aiq/multitenant/persistence/InMemoryPersistenceService.java:72-81 | deleting, at its own reference, a record just written under a new id passes and leaves the tree as before the write, registrations included |
| MultitenantPersistence.InsertThenDeleteRestores | src/main/java/com/appearnetworks/aiq/multitenant/persistence/InMemoryPersistenceService.java:55-135 | inserting a new record and deleting it at revision 1 passes and restores the tree exactly |
| MultitenantPersistence.SameRevisionUpdatesOneWins | src/main/java/com/appearnetworks/aiq/multitenant/persistence/InMemoryPersistenceService.java:102-107 | two updates presenting the same revision never both succeed; when it is current the first wins and the second gets PRECONDITION_FAILED |
| MultitenantPersistence.DeletingLastRecordPrunesScope | src/main/java/com/appearnetworks/aiq/multitenant/persistence/InMemoryPersistenceService.java:128-130 | deleting the only record of a scope passes, empties the listing and unregisters the solution |
| Persistence.InMemoryPersistenceService.constructor | src/test/java/com/appearnetworks/aiq/persistence/InMemoryPersistenceServiceTest.java:38-42 | a new store holds nothing |
| Persistence.InMemoryPersistenceService.List | src/main/java/com/appearnetworks/aiq/persistence/InMemoryPersistenceService.java:22-28 | one reference per stored record: as many as records, exactly the listed references, distinct ids |
| Persistence.InMemoryPersistenceService.Retrieve | src/main/java/com/appearnetworks/aiq/persistence/InMemoryPersistenceService.java:31-36 | the stored body or `null`; its `_rev` is the stored revision |
| Persistence.InMemoryPersistenceService.Insert | src/main/java/com/appearnetworks/aiq/persistence/InMemoryPersistenceService.java:39-53 | keeps the store invariant; outcome and new map are those of `InsertSpec` |
| Persistence.InMemoryPersistenceService.Update | src/main/java/com/appearnetworks/aiq/persistence/InMemoryPersistenceService.java:56-70 | keeps the store invariant; outcome and new map are those of `UpdateSpec` |
| Persistence.InMemoryPersistenceService.Delete | src/main/java/com/appearnetworks/aiq/persistence/InMemoryPersistenceService.java:73-83 | keeps the store invariant; outcome and new map are those of `DeleteSpec` |
| Persistence.EveryOperationPreservesStoreOk | src/main/java/com/appearnetworks/aiq/persistence/InMemoryPersistenceService.java:39-83 | every operation keeps each record under its own id with `_rev` equal to its revision |
| Persistence.ListedIff | src/main/java/com/appearnetworks/aiq/persistence/InMemoryPersistenceService.java:22-28 | a reference is listed exactly when its id is stored with that type and revision |
| Persistence.InsertOutcome | src/main/java/com/appearnetworks/aiq/persistence/InMemoryPersistenceService.java:39-53 | success exactly for a new id: returns 1, reads back with `_rev` 1, adds (id, type, 1) to the listing; CONFLICT and no change for a taken id |
| Persistence.UpdateOutcome | src/main/java/com/appearnetworks/aiq/persistence/InMemoryPersistenceService.java:56-70 | success exactly when the reference is listed: returns `rev + 1`, reads back the new body stamped to match, and lists the new reference instead of the old; otherwise PRECONDITION_FAILED and no change |
| Persistence.DeleteOutcome | src/main/java/com/appearnetworks/aiq/persistence/InMemoryPersistenceService.java:73-83 | success exactly when the reference is listed: the id then reads `null` and its reference is gone; otherwise PRECONDITION_FAILED and no change |
| Persistence.OtherIdsUntouched | src/main/java/com/appearnetworks/aiq/persistence/InMemoryPersistenceService.java:39-83 | no operation changes what another id reads |
| Persistence.WrongTypeFails | src/main/java/com/appearnetworks/aiq/persistence/Document.java:27-29 | a reference with the stored id and revision but another type fails update and delete with PRECONDITION_FAILED and changes nothing |
| Persistence.DocumentLifecycle | src/test/java/com/appearnetworks/aiq/persistence/InMemoryPersistenceServiceTest.java:38-125 | the store's scenario: empty, insert gives 1, update gives a larger 2 with the new body, a stale update and a stale delete fail with PRECONDITION_FAILED without change, and the current delete empties the store |
| Protocol.MakeETag | src/main/java/com/appearnetworks/aiq/multitenant/integration/IntegrationProtocol.java:282-284 | the ETag is the decimal revision between double quotes |
| Protocol.ParseRevision | src/main/java/com/appearnetworks/aiq/multitenant/integration/IntegrationProtocol.java:286-288 | shorter than two characters: `StringIndexOutOfBoundsException`; otherwise `parseLong` of the string without its first and last character; it fails only with those two exceptions |
| Protocol.ParseRevisionOfMakeETag | src/main/java/com/appearnetworks/aiq/multitenant/integration/IntegrationProtocol.java:282-288 | `parseRevision(makeETag(r)) == r` for every `long` |
| Protocol.MakeETagInjective | src/main/java/com/appearnetworks/aiq/multitenant/integration/IntegrationProtocol.java:282-284 | distinct revisions get distinct ETags |
| Protocol.ParseRevisionIgnoresEnds | src/main/java/com/appearnetworks/aiq/multitenant/integration/IntegrationProtocol.java:286-288 | the first and last characters are dropped unchecked, quotes or not |
| Protocol.ParseRevisionRejectsNonDigit | src/main/java/com/appearnetworks/aiq/multitenant/integration/IntegrationProtocol.java:286-288 | a non-numeric middle raises `NumberFormatException`, never an update failure |
| Protocol.FailureResponse | src/main/java/com/appearnetworks/aiq/multitenant/integration/IntegrationProtocol.java:124-127 | an `UpdateException` becomes a reply with its own status and nothing else; any other exception escapes |
| Protocol.GetResponse | src/main/java/com/appearnetworks/aiq/multitenant/integration/IntegrationProtocol.java:78-90 | 404 for `null`; 200 with the body and the ETag of its `_rev` otherwise; a body without `_rev` fails on the null member |
| Protocol.InsertResponse | src/main/java/com/appearnetworks/aiq/multitenant/integration/IntegrationProtocol.java:114-127 | 201 with the ETag of the returned revision and no body, or the failure's reply |
| Protocol.UpdateResponse | src/main/java/com/appearnetworks/aiq/multitenant/integration/IntegrationProtocol.java:145-156 | 204 with the ETag of the new revision and no body, or the failure's reply |
| Protocol.DeleteResponse | src/main/java/com/appearnetworks/aiq/multitenant/integration/IntegrationProtocol.java:172-180 | 204 without ETag, or the failure's reply |
| Integration.InsertReference | src/main/java/com/appearnetworks/aiq/multitenant/integration/IntegrationProtocol.java:119 | an insert always passes the path's id and type with revision 0 |
| Integration.IntegrationProtocol.constructor | src/main/java/com/appearnetworks/aiq/multitenant/integration/IntegrationProtocol.java:46-47 | given a consistent store, the controller works on that store and starts consistent |
| Integration.IntegrationProtocol.ListDocuments | src/main/java/com/appearnetworks/aiq/multitenant/integration/IntegrationProtocol.java:63-68 | the store's listing of the scope: one reference per record, exactly the listed ones |
| Integration.IntegrationProtocol.GetDocument | src/main/java/com/appearnetworks/aiq/multitenant/integration/IntegrationProtocol.java:73-91 | the reply is `GetResponse` of the store's `retrieve` |
| Integration.IntegrationProtocol.Attachment | src/main/java/com/appearnetworks/aiq/multitenant/integration/IntegrationProtocol.java:93-101 | every attachment endpoint answers 404 |
| Integration.IntegrationProtocol.InsertDocument | src/main/java/com/appearnetworks/aiq/multitenant/integration/IntegrationProtocol.java:106-128 | inserts with revision 0 and replies `InsertResponse` of the store's outcome; the store changes as `InsertSpec` says |
| Integration.IntegrationProtocol.UpdateDocument | src/main/java/com/appearnetworks/aiq/multitenant/integration/IntegrationProtocol.java:134-157 | a malformed `If-Match` escapes as an exception with the store untouched; otherwise updates with the parsed revision and replies `UpdateResponse` |
| Integration.IntegrationProtocol.DeleteDocument | src/main/java/com/appearnetworks/aiq/multitenant/integration/IntegrationProtocol.java:162-181 | a malformed `If-Match` escapes with the store untouched; otherwise deletes with the parsed revision and replies `DeleteResponse` |
| Integration.GetDocumentReply | src/main/java/com/appearnetworks/aiq/multitenant/integration/IntegrationProtocol.java:78-90 | on a well-formed store a read is 404 exactly for an unknown id, else 200 with the ETag of the stored revision, never an exception |
| Integration.InsertETagEnablesUpdate | src/main/java/com/appearnetworks/aiq/multitenant/integration/IntegrationProtocol.java:114-156 | the ETag a created document gets parses to 1, and an update presenting it succeeds with revision 2 |
| ImplIntegration.GetDocument | src/main/java/com/appearnetworks/aiq/multitenant/impl/integration/IntegrationProtocol.java:69-89 | reads the organisation's store by id alone, whatever the type, and replies as `Protocol.GetResponse` maps the result: 404, 200 with the ETag of `_rev`, or the null-member exception |
| ImplIntegration.InsertDocument | src/main/java/com/appearnetworks/aiq/multitenant/impl/integration/IntegrationProtocol.java:103-128 | a client session is answered on the spot with 201, ETag of revision 1 and an empty JSON object; any other type is inserted with revision 0 and the reply is `Protocol.InsertResponse` of the store's outcome |
| ImplIntegration.UpdateDocument | src/main/java/com/appearnetworks/aiq/multitenant/impl/integration/IntegrationProtocol.java:134-161 | `If-Match` is parsed first; a client session gets 204 with the ETag of `rev + 1`; any other type is updated with the parsed revision and the reply is `Protocol.UpdateResponse` of the store's outcome |
| ImplIntegration.DeleteDocument | src/main/java/com/appearnetworks/aiq/multitenant/impl/integration/IntegrationProtocol.java:166-187 | `If-Match` is parsed first; a client session gets 204; any other type is deleted with the parsed revision and the reply is `Protocol.DeleteResponse` of the store's outcome |
| ImplIntegration.ClientSessionETag | src/main/java/com/appearnetworks/aiq/multitenant/impl/integration/IntegrationProtocol.java:115 | a client session's insert ETag is `"1"` |
| ImplIntegration.ClientSessionNeverCallsStore | src/main/java/com/appearnetworks/aiq/multitenant/impl/integration/IntegrationProtocol.java:112-116 | insert, update and delete of a client session answer the same whatever the store would return, so they never reach it |
| ImplIntegration.ClientSessionUpdateAdvances | src/main/java/com/appearnetworks/aiq/multitenant/impl/integration/IntegrationProtocol.java:145-148 | a client session's update answers 204 with an ETag that parses to the next revision |
| ImplIntegration.OtherTypesCallStore | src/main/java/com/appearnetworks/aiq/multitenant/impl/integration/IntegrationProtocol.java:118-182 | every other type reaches the store with the path's id and type and the revision of the `If-Match` ETag, and its reply is the store's outcome mapped by `Protocol` |

## Left out

- Concurrency: the `synchronized` store methods and the atomicity of `ConcurrentHashMap`. Each store call is one atomic step.
- Logging, `@PostConstruct` logging configuration, the Spring request mapping, and the `userId`/`deviceId` headers the handlers never read.
- The framework's handling of uncaught exceptions. It normally answers 500; the model stops at `Response.Uncaught`.
- Aliasing of the mutable JSON body (`ObjectNode`). The stores keep the caller's object and stamp `_rev` into it before the outcome is known, so a failed insert or update still changes the caller's body. Bodies here are values: only the stored copy is stamped.
- The JSON body beyond `_rev`. Its other members are an opaque map. A non-numeric `_rev` read through `asLong()` is not modelled; a missing one is (`NullPointerException`).
- In-place mutation of the inner maps of the two-level store. The model writes the changed scope back into the outer maps. Nothing else holds a reference to those inner maps, so the two are indistinguishable.
- `null` fields in `equals` and `hashCode`, and the `getClass` checks. No caller in the core builds a reference or record with a `null` id or type.
- The `String.hashCode` of characters outside the Basic Multilingual Plane. Dafny `char` is a code point, Java's is a UTF-16 unit.
- `Long.parseLong` of non-ASCII Unicode digits, which Java accepts.
- The validation `HttpHeaders.setETag` applies to an ETag. Every ETag built here is already quoted.
- Attachment storage. All attachment endpoints of both controllers answer 404. `Integration.IntegrationProtocol.Attachment` states this for the two-level controller; the organisation-scoped controller's copies are the same constant reply.
- The logout, heartbeat, client-session and `comessage` endpoints. They return constant statuses and never touch the store.
- The organisation-scoped store behind the second controller. Its implementation is not part of this model, so each of that controller's handlers takes the store operation it calls as a function parameter. The model therefore does not say what that store keeps between calls.
- `listDocuments` of the organisation-scoped controller (`impl/integration/IntegrationProtocol.java:58-67`) returns that store's listing unchanged. With the store not part of this model there is nothing to state about it, so it has no member.
- The base class `integrationframework.BusinessDocument` of the single-scope store's record is not part of this model. That record is modelled as non-validating.
- The two-level store's construction of the abstract `BusinessDocument`. It is modelled as the concrete validating record with body-ignoring equality, as described above.
