/**
 * The controller of the two-level integration protocol, served under
 * `/aiq/integration/{orgId}/{solutionId}`: each document handler makes at most one call
 * into the two-level store and turns its outcome into a reply.
 */
module Integration {
  import opened Wrappers
  import opened Java
  import opened References
  import opened Documents
  import opened Updates
  import opened Protocol
  import opened MultitenantPersistence

  /** The reference every insert passes: the store assigns the revision, so the one sent is 0. */
  function InsertReference(docType: string, docId: string): (r: DocumentReference)
    ensures r.id == docId && r.docType == docType && r.rev == 0
  {
    DocumentReference(docId, docType, 0)
  }

  class IntegrationProtocol {
    var persistenceService: InMemoryPersistenceService

    ghost predicate Valid()
      reads this, persistenceService
    {
      persistenceService.Valid()
    }

    constructor (store: InMemoryPersistenceService)
      requires store.Valid()
      ensures Valid() && persistenceService == store
    {
      persistenceService := store;
    }

    /** `listDocuments`: the store's listing of the scope, passed through. */
    method ListDocuments(orgId: string, solutionId: string) returns (refs: seq<DocumentReference>)
      requires Valid()
      ensures forall r :: r in refs <==> r in MultitenantPersistence.ListSpec(persistenceService.organizations, orgId, solutionId)
      ensures |refs| == |ScopeOf(persistenceService.organizations, orgId, solutionId)|
    {
      refs := persistenceService.List(orgId, solutionId);
    }

    method GetDocument(orgId: string, solutionId: string, docType: string, docId: string) returns (resp: Response)
      requires Valid()
      ensures resp == GetResponse(MultitenantPersistence.RetrieveSpec(persistenceService.organizations, orgId, solutionId, docId))
    {
      var document := persistenceService.Retrieve(orgId, solutionId, docId);
      if document.None? {
        return Response(NOT_FOUND, None, None);
      }
      var json := document.value;
      if json.rev.None? {
        return Uncaught(NullPointerException);
      }
      var revision := json.rev.value;
      return Response(OK, Some(MakeETag(revision)), Some(json));
    }

    /** Every attachment endpoint (read, insert, update, delete) answers 404 and leaves the store alone. */
    method Attachment(orgId: string, solutionId: string, docType: string, docId: string, name: string) returns (resp: Response)
      ensures resp.Response? && resp.status.Code() == 404
    {
      return Response(NOT_FOUND, None, None);
    }

    method InsertDocument(orgId: string, solutionId: string, docType: string, docId: string, doc: Body) returns (resp: Response)
      requires Valid()
      modifies persistenceService
      ensures Valid()
      ensures var (r, t') := InsertSpec(old(persistenceService.organizations), orgId, solutionId, InsertReference(docType, docId), doc);
        resp == InsertResponse(r) && persistenceService.organizations == t'
    {
      var revision := persistenceService.Insert(orgId, solutionId, DocumentReference(docId, docType, 0), doc);
      if revision.Failure? {
        return FailureResponse(revision.error);
      }
      return Response(CREATED, Some(MakeETag(revision.value)), None);
    }

    method UpdateDocument(ifMatch: string, orgId: string, solutionId: string, docType: string, docId: string, doc: Body) returns (resp: Response)
      requires Valid()
      modifies persistenceService
      ensures Valid()
      ensures ParseRevision(ifMatch).Failure? ==>
        resp == Uncaught(ParseRevision(ifMatch).error) && persistenceService.organizations == old(persistenceService.organizations)
      ensures ParseRevision(ifMatch).Success? ==>
        var (r, t') := UpdateSpec(old(persistenceService.organizations), orgId, solutionId, DocumentReference(docId, docType, ParseRevision(ifMatch).value), doc);
        resp == UpdateResponse(r) && persistenceService.organizations == t'
    {
      var currentRevision := ParseRevision(ifMatch);
      if currentRevision.Failure? {
        return Uncaught(currentRevision.error);
      }
      var revision := persistenceService.Update(orgId, solutionId, DocumentReference(docId, docType, currentRevision.value), doc);
      if revision.Failure? {
        return FailureResponse(revision.error);
      }
      return Response(NO_CONTENT, Some(MakeETag(revision.value)), None);
    }

    method DeleteDocument(ifMatch: string, orgId: string, solutionId: string, docType: string, docId: string) returns (resp: Response)
      requires Valid()
      modifies persistenceService
      ensures Valid()
      ensures ParseRevision(ifMatch).Failure? ==>
        resp == Uncaught(ParseRevision(ifMatch).error) && persistenceService.organizations == old(persistenceService.organizations)
      ensures ParseRevision(ifMatch).Success? ==>
        var (r, t') := DeleteSpec(old(persistenceService.organizations), orgId, solutionId, DocumentReference(docId, docType, ParseRevision(ifMatch).value));
        resp == DeleteResponse(r) && persistenceService.organizations == t'
    {
      var currentRevision := ParseRevision(ifMatch);
      if currentRevision.Failure? {
        return Uncaught(currentRevision.error);
      }
      var outcome := persistenceService.Delete(orgId, solutionId, DocumentReference(docId, docType, currentRevision.value));
      if outcome.Fail? {
        return FailureResponse(outcome.error);
      }
      return Response(NO_CONTENT, None, None);
    }
  }

  // ---------------------------------------------------------------------------
  // What the protocol promises a client

  /** On a well-formed store a read never fails on a missing `_rev`: 404 for an unknown id, else 200 with the ETag of the stored revision. */
  lemma GetDocumentReply(t: Tree, orgId: string, solutionId: string, docId: string)
    requires WellFormed(t)
    ensures var resp := GetResponse(MultitenantPersistence.RetrieveSpec(t, orgId, solutionId, docId));
      && resp.Response?
      && (resp.status == NOT_FOUND <==> docId !in ScopeOf(t, orgId, solutionId))
      && (docId in ScopeOf(t, orgId, solutionId) ==>
            resp.status == OK && resp.etag == Some(MakeETag(ScopeOf(t, orgId, solutionId)[docId].rev)))
  {
    RetrieveIsScopeLookup(t, orgId, solutionId, docId);
    if docId in ScopeOf(t, orgId, solutionId) {
      assert SolutionsOk(t[orgId]) && ScopeOk(t[orgId][solutionId]);
      assert StoredOk(docId, t[orgId][solutionId][docId]);
    }
  }

  /** A created document's ETag, sent back as `If-Match`, names the stored revision, so the update it guards succeeds. */
  lemma InsertETagEnablesUpdate(t: Tree, orgId: string, solutionId: string, docType: string, docId: string, doc: Body, doc2: Body)
    requires WellFormed(t)
    requires InsertSpec(t, orgId, solutionId, InsertReference(docType, docId), doc).0.Success?
    ensures var (r, t1) := InsertSpec(t, orgId, solutionId, InsertReference(docType, docId), doc);
      var etag := InsertResponse(r).etag.value;
      && ParseRevision(etag) == Success(1)
      && UpdateSpec(t1, orgId, solutionId, DocumentReference(docId, docType, ParseRevision(etag).value), doc2).0 == Success(2)
  {
    var (r, t1) := InsertSpec(t, orgId, solutionId, InsertReference(docType, docId), doc);
    ParseRevisionOfMakeETag(1);
    InsertOutcome(t, orgId, solutionId, InsertReference(docType, docId), doc);
    InsertPreservesWellFormed(t, orgId, solutionId, InsertReference(docType, docId), doc);
    var ref1 := DocumentReference(docId, docType, 1);
    assert ref1 in MultitenantPersistence.ListSpec(t1, orgId, solutionId);
    UpdateOutcome(t1, orgId, solutionId, ref1, doc2);
  }
}
