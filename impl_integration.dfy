/**
 * The controller of the organisation-scoped integration protocol, served under
 * `/aiq/integration`: like the two-level controller, except that documents of type
 * `_clientsession` are answered on the spot and every other document goes to a store
 * keyed by organisation name alone.
 *
 * That store is reached through an interface whose implementation is not part of this
 * model, so each handler takes the store operation it may call as a parameter, and its
 * contract ties the reply to whatever that call returns: it is the shared mapping of
 * `Protocol` applied to the call's outcome.
 */
module ImplIntegration {
  import opened Wrappers
  import opened Java
  import opened References
  import opened Documents
  import opened Updates
  import opened Protocol

  const CLIENT_SESSION_DOC_TYPE: string := "_clientsession"

  /** `getDocument`: a read of the organisation's store by id alone; 404, or 200 with the ETag of `_rev`. */
  function GetDocument(orgName: string, docType: string, docId: string,
                       retrieve: (string, string) -> Option<Body>): (resp: Response)
    ensures resp == GetResponse(retrieve(orgName, docId))
  {
    var document := retrieve(orgName, docId);
    if document.None? then Response(NOT_FOUND, None, None)
    else
      var json := document.value;
      if json.rev.None? then Uncaught(NullPointerException)
      else Response(OK, Some(MakeETag(json.rev.value)), Some(json))
  }

  /**
   * `insertDocument`: a client session gets 201, the ETag of revision 1 and an empty JSON
   * object as its backend context; any other type is inserted with revision 0 and gets 201
   * with the ETag of the revision the store assigned, or the status of its `UpdateException`.
   */
  function InsertDocument(orgName: string, docType: string, docId: string, doc: Body,
                          insert: (string, DocumentReference, Body) -> Result<Long, Failure>): (resp: Response)
    ensures docType == CLIENT_SESSION_DOC_TYPE ==> resp == Response(CREATED, Some(MakeETag(1)), Some(EMPTY_OBJECT))
    ensures docType != CLIENT_SESSION_DOC_TYPE ==>
      resp == InsertResponse(insert(orgName, DocumentReference(docId, docType, 0), doc))
  {
    if docType == CLIENT_SESSION_DOC_TYPE then
      Response(CREATED, Some(MakeETag(1)), Some(EMPTY_OBJECT))
    else
      match insert(orgName, DocumentReference(docId, docType, 0), doc)
      case Success(revision) => Response(CREATED, Some(MakeETag(revision)), None)
      case Failure(UpdateException(status)) => Response(status, None, None)
      case Failure(Unchecked(e)) => Uncaught(e)
  }

  /**
   * `updateDocument`: the `If-Match` revision is parsed first, whatever the type; a client
   * session then gets 204 and the ETag of the next revision, any other type is updated and
   * gets 204 with the ETag of the store's new revision, or the status of its `UpdateException`.
   */
  function UpdateDocument(ifMatch: string, orgName: string, docType: string, docId: string, doc: Body,
                          update: (string, DocumentReference, Body) -> Result<Long, Failure>): (resp: Response)
    ensures ParseRevision(ifMatch).Failure? ==> resp == Uncaught(ParseRevision(ifMatch).error)
    ensures ParseRevision(ifMatch).Success? && docType == CLIENT_SESSION_DOC_TYPE ==>
      resp == Response(NO_CONTENT, Some(MakeETag(Inc(ParseRevision(ifMatch).value))), None)
    ensures ParseRevision(ifMatch).Success? && docType != CLIENT_SESSION_DOC_TYPE ==>
      resp == UpdateResponse(update(orgName, DocumentReference(docId, docType, ParseRevision(ifMatch).value), doc))
  {
    match ParseRevision(ifMatch)
    case Failure(e) => Uncaught(e)
    case Success(currentRevision) =>
      if docType == CLIENT_SESSION_DOC_TYPE then
        Response(NO_CONTENT, Some(MakeETag(Inc(currentRevision))), None)
      else
        match update(orgName, DocumentReference(docId, docType, currentRevision), doc)
        case Success(revision) => Response(NO_CONTENT, Some(MakeETag(revision)), None)
        case Failure(UpdateException(status)) => Response(status, None, None)
        case Failure(Unchecked(e)) => Uncaught(e)
  }

  /**
   * `deleteDocument`: the `If-Match` revision is parsed first; a client session then gets
   * 204, any other type is deleted and gets 204, or the status of its `UpdateException`.
   */
  function DeleteDocument(ifMatch: string, orgName: string, docType: string, docId: string,
                          delete: (string, DocumentReference) -> Outcome<Failure>): (resp: Response)
    ensures ParseRevision(ifMatch).Failure? ==> resp == Uncaught(ParseRevision(ifMatch).error)
    ensures ParseRevision(ifMatch).Success? && docType == CLIENT_SESSION_DOC_TYPE ==>
      resp == Response(NO_CONTENT, None, None)
    ensures ParseRevision(ifMatch).Success? && docType != CLIENT_SESSION_DOC_TYPE ==>
      resp == DeleteResponse(delete(orgName, DocumentReference(docId, docType, ParseRevision(ifMatch).value)))
  {
    match ParseRevision(ifMatch)
    case Failure(e) => Uncaught(e)
    case Success(currentRevision) =>
      if docType == "_clientsession" then Response(NO_CONTENT, None, None)
      else
        match delete(orgName, DocumentReference(docId, docType, currentRevision))
        case Pass => Response(NO_CONTENT, None, None)
        case Fail(UpdateException(status)) => Response(status, None, None)
        case Fail(Unchecked(e)) => Uncaught(e)
  }

  /** The ETag of revision 1 is the three characters `"1"`. */
  lemma ClientSessionETag()
    ensures MakeETag(1) == "\"1\""
  {
    assert NatToDecimal(1) == "1";
  }

  /** A client session never reaches the store: insert, update and delete answer the same whatever the store would do. */
  lemma ClientSessionNeverCallsStore(ifMatch: string, orgName: string, docId: string, doc: Body,
                                     insert1: (string, DocumentReference, Body) -> Result<Long, Failure>,
                                     insert2: (string, DocumentReference, Body) -> Result<Long, Failure>,
                                     delete1: (string, DocumentReference) -> Outcome<Failure>,
                                     delete2: (string, DocumentReference) -> Outcome<Failure>)
    ensures InsertDocument(orgName, CLIENT_SESSION_DOC_TYPE, docId, doc, insert1) ==
      InsertDocument(orgName, CLIENT_SESSION_DOC_TYPE, docId, doc, insert2)
    ensures UpdateDocument(ifMatch, orgName, CLIENT_SESSION_DOC_TYPE, docId, doc, insert1) ==
      UpdateDocument(ifMatch, orgName, CLIENT_SESSION_DOC_TYPE, docId, doc, insert2)
    ensures DeleteDocument(ifMatch, orgName, CLIENT_SESSION_DOC_TYPE, docId, delete1) ==
      DeleteDocument(ifMatch, orgName, CLIENT_SESSION_DOC_TYPE, docId, delete2)
  {
  }

  /** A client session's update ETag names the revision after the one presented, so the session can chain updates. */
  lemma ClientSessionUpdateAdvances(rev: Long, orgName: string, docId: string, doc: Body,
                                    update: (string, DocumentReference, Body) -> Result<Long, Failure>)
    ensures var resp := UpdateDocument(MakeETag(rev), orgName, CLIENT_SESSION_DOC_TYPE, docId, doc, update);
      resp.Response? && resp.status.Code() == 204 &&
      ParseRevision(resp.etag.value) == Success(Inc(rev))
  {
    ParseRevisionOfMakeETag(rev);
    ParseRevisionOfMakeETag(Inc(rev));
  }

  /**
   * Every other type reaches the store with the path's id and type, and an update or delete
   * with the `If-Match` revision; the reply is the store's outcome as `Protocol` maps it.
   */
  lemma OtherTypesCallStore(rev: Long, orgName: string, docType: string, docId: string, doc: Body,
                            insert: (string, DocumentReference, Body) -> Result<Long, Failure>,
                            update: (string, DocumentReference, Body) -> Result<Long, Failure>,
                            delete: (string, DocumentReference) -> Outcome<Failure>)
    requires docType != CLIENT_SESSION_DOC_TYPE
    ensures InsertDocument(orgName, docType, docId, doc, insert) ==
      InsertResponse(insert(orgName, DocumentReference(docId, docType, 0), doc))
    ensures UpdateDocument(MakeETag(rev), orgName, docType, docId, doc, update) ==
      UpdateResponse(update(orgName, DocumentReference(docId, docType, rev), doc))
    ensures DeleteDocument(MakeETag(rev), orgName, docType, docId, delete) ==
      DeleteResponse(delete(orgName, DocumentReference(docId, docType, rev)))
  {
    ParseRevisionOfMakeETag(rev);
  }
}
