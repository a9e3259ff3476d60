/**
 * The single-scope in-memory document store: one map from document id to record.
 * It validates nothing; an insert is a put-if-absent, an update a replace-if-equal and
 * a delete a remove-if-equal, where record equality compares id, type and revision.
 *
 * The functions `InsertSpec`, `UpdateSpec` and `DeleteSpec` give each operation's
 * outcome and new map; the class `InMemoryPersistenceService` runs the same steps on
 * its `documents` field. A failed operation returns the HTTP status of the
 * `UpdateException` it throws.
 */
module Persistence {
  import opened Wrappers
  import opened Java
  import opened References
  import opened Documents
  import opened Updates

  type Store = map<string, Document>

  /** Stands in for the `null` body of the expected record; equality never reads it. */
  const NO_BODY: Body := EMPTY_OBJECT

  /** The store invariant: every record sits under its own id with `_rev` in sync. */
  predicate StoreOk(docs: Store) {
    forall k :: k in docs ==> Stamped(k, docs[k])
  }

  function ListSpec(docs: Store): set<DocumentReference> {
    ReferenceSet(docs)
  }

  function RetrieveSpec(docs: Store, docId: string): Option<Body> {
    if docId in docs then Some(docs[docId].body) else None
  }

  function InsertSpec(docs: Store, docRef: DocumentReference, body: Body): (Result<Long, HttpStatus>, Store) {
    var initialRevision: Long := 1;
    if docRef.id in docs then (Failure(CONFLICT), docs)
    else (Success(initialRevision), docs[docRef.id := Document(docRef.id, docRef.docType, initialRevision, WithRev(body, initialRevision))])
  }

  function UpdateSpec(docs: Store, docRef: DocumentReference, body: Body): (Result<Long, HttpStatus>, Store) {
    var updatedRevision := Inc(docRef.rev);
    var expected := Document(docRef.id, docRef.docType, docRef.rev, NO_BODY);
    var replacement := Document(docRef.id, docRef.docType, updatedRevision, WithRev(body, updatedRevision));
    if docRef.id in docs && Documents.Equals(expected, docs[docRef.id]) then (Success(updatedRevision), docs[docRef.id := replacement])
    else (Failure(PRECONDITION_FAILED), docs)
  }

  function DeleteSpec(docs: Store, docRef: DocumentReference): (Outcome<HttpStatus>, Store) {
    var expected := Document(docRef.id, docRef.docType, docRef.rev, NO_BODY);
    if docRef.id in docs && Documents.Equals(expected, docs[docRef.id]) then (Pass, docs - {docRef.id})
    else (Fail(PRECONDITION_FAILED), docs)
  }

  class InMemoryPersistenceService {
    var documents: Store

    ghost predicate Valid()
      reads this
    {
      StoreOk(documents)
    }

    constructor ()
      ensures Valid() && documents == map[]
    {
      documents := map[];
    }

    /** One reference per stored record, in the map's iteration order. */
    method List() returns (refs: seq<DocumentReference>)
      requires Valid()
      ensures |refs| == |documents|
      ensures forall r :: r in refs <==> r in ListSpec(documents)
      ensures forall i, j :: 0 <= i < j < |refs| ==> refs[i].id != refs[j].id
    {
      refs := CollectReferences(documents);
      forall r | r in ListSpec(documents)
        ensures r in refs
      {
        var id :| id in documents && r == Reference(documents[id]);
      }
    }

    /** The stored body, or `None` (`null`) for an unknown id. */
    method Retrieve(docId: string) returns (r: Option<Body>)
      requires Valid()
      ensures r == RetrieveSpec(documents, docId)
      ensures r.Some? ==> r.value.rev == Some(documents[docId].rev)
    {
      if docId in documents {
        r := Some(documents[docId].body);
      } else {
        r := None;
      }
    }

    method Insert(docRef: DocumentReference, body: Body) returns (r: Result<Long, HttpStatus>)
      requires Valid()
      modifies this
      ensures Valid()
      ensures (r, documents) == InsertSpec(old(documents), docRef, body)
    {
      var initialRevision: Long := 1;
      var stamped := WithRev(body, initialRevision);
      // putIfAbsent
      var existing := if docRef.id in documents then Some(documents[docRef.id]) else None;
      if existing.None? {
        documents := documents[docRef.id := Document(docRef.id, docRef.docType, initialRevision, stamped)];
        return Success(initialRevision);
      } else {
        return Failure(CONFLICT);
      }
    }

    method Update(docRef: DocumentReference, body: Body) returns (r: Result<Long, HttpStatus>)
      requires Valid()
      modifies this
      ensures Valid()
      ensures (r, documents) == UpdateSpec(old(documents), docRef, body)
    {
      var updatedRevision := Inc(docRef.rev);
      var stamped := WithRev(body, updatedRevision);
      var expected := Document(docRef.id, docRef.docType, docRef.rev, NO_BODY);
      // replace(key, expected, replacement)
      var wasReplaced := docRef.id in documents && Documents.Equals(expected, documents[docRef.id]);
      if wasReplaced {
        documents := documents[docRef.id := Document(docRef.id, docRef.docType, updatedRevision, stamped)];
        return Success(updatedRevision);
      } else {
        return Failure(PRECONDITION_FAILED);
      }
    }

    method Delete(docRef: DocumentReference) returns (r: Outcome<HttpStatus>)
      requires Valid()
      modifies this
      ensures Valid()
      ensures (r, documents) == DeleteSpec(old(documents), docRef)
    {
      var expected := Document(docRef.id, docRef.docType, docRef.rev, NO_BODY);
      // remove(key, expected)
      var wasRemoved := docRef.id in documents && Documents.Equals(expected, documents[docRef.id]);
      if wasRemoved {
        documents := documents - {docRef.id};
        return Pass;
      } else {
        return Fail(PRECONDITION_FAILED);
      }
    }
  }

  // ---------------------------------------------------------------------------
  // What the operations promise

  /** Every operation keeps the store invariant, whatever its arguments. */
  lemma EveryOperationPreservesStoreOk(docs: Store, docRef: DocumentReference, body: Body)
    requires StoreOk(docs)
    ensures StoreOk(InsertSpec(docs, docRef, body).1)
    ensures StoreOk(UpdateSpec(docs, docRef, body).1)
    ensures StoreOk(DeleteSpec(docs, docRef).1)
  {
  }

  /** In the store a reference is listed exactly when its id is stored with that type and revision. */
  lemma ListedIff(docs: Store, docRef: DocumentReference)
    requires StoreOk(docs)
    ensures docRef in ListSpec(docs) <==> docRef.id in docs && Reference(docs[docRef.id]) == docRef
  {
    ReferenceSetMember(docs, docRef);
  }

  /** `insert`: revision 1 and one more listed reference for a new id, CONFLICT and no change for a taken one. */
  lemma InsertOutcome(docs: Store, docRef: DocumentReference, body: Body)
    requires StoreOk(docs)
    ensures var (r, docs') := InsertSpec(docs, docRef, body);
      && (r.Success? <==> docRef.id !in docs)
      && (r.Success? ==>
            && r.value == 1
            && RetrieveSpec(docs', docRef.id) == Some(WithRev(body, 1))
            && ListSpec(docs') == ListSpec(docs) + {DocumentReference(docRef.id, docRef.docType, 1)})
      && (r.Failure? ==> r.error == CONFLICT && docs' == docs)
  {
    if docRef.id !in docs {
      ReferenceSetInsert(docs, docRef.id, Document(docRef.id, docRef.docType, 1, WithRev(body, 1)));
    }
  }

  /** `update` succeeds exactly when the reference is listed; it then lists the advanced revision instead, and otherwise fails with PRECONDITION_FAILED and changes nothing. */
  lemma UpdateOutcome(docs: Store, docRef: DocumentReference, body: Body)
    requires StoreOk(docs)
    ensures var (r, docs') := UpdateSpec(docs, docRef, body);
      && (r.Success? <==> docRef in ListSpec(docs))
      && (r.Success? ==>
            && r.value == Inc(docRef.rev)
            && RetrieveSpec(docs', docRef.id) == Some(WithRev(body, Inc(docRef.rev)))
            && ListSpec(docs') == ListSpec(docs) - {docRef} + {DocumentReference(docRef.id, docRef.docType, Inc(docRef.rev))})
      && (r.Failure? ==> r.error == PRECONDITION_FAILED && docs' == docs)
  {
    ListedIff(docs, docRef);
    if docRef in ListSpec(docs) {
      var d := Document(docRef.id, docRef.docType, Inc(docRef.rev), WithRev(body, Inc(docRef.rev)));
      ReferenceSetReplace(docs, docRef.id, d);
    }
  }

  /** `delete` succeeds exactly when the reference is listed; it then no longer is, and otherwise fails with PRECONDITION_FAILED and changes nothing. */
  lemma DeleteOutcome(docs: Store, docRef: DocumentReference)
    requires StoreOk(docs)
    ensures var (r, docs') := DeleteSpec(docs, docRef);
      && (r.Pass? <==> docRef in ListSpec(docs))
      && (r.Pass? ==> RetrieveSpec(docs', docRef.id) == None && ListSpec(docs') == ListSpec(docs) - {docRef})
      && (r.Fail? ==> r.error == PRECONDITION_FAILED && docs' == docs)
  {
    ListedIff(docs, docRef);
    if docRef in ListSpec(docs) {
      ReferenceSetRemove(docs, docRef.id);
    }
  }

  /** Records of other ids are never touched. */
  lemma OtherIdsUntouched(docs: Store, docRef: DocumentReference, body: Body, id: string)
    requires id != docRef.id
    ensures RetrieveSpec(InsertSpec(docs, docRef, body).1, id) == RetrieveSpec(docs, id)
    ensures RetrieveSpec(UpdateSpec(docs, docRef, body).1, id) == RetrieveSpec(docs, id)
    ensures RetrieveSpec(DeleteSpec(docs, docRef).1, id) == RetrieveSpec(docs, id)
  {
  }

  /** A reference with the stored id and revision but another type matches nothing: update and delete fail and change nothing. */
  lemma WrongTypeFails(docs: Store, docRef: DocumentReference, body: Body)
    requires docRef.id in docs && docs[docRef.id].rev == docRef.rev && docs[docRef.id].docType != docRef.docType
    ensures UpdateSpec(docs, docRef, body) == (Failure(PRECONDITION_FAILED), docs)
    ensures DeleteSpec(docs, docRef) == (Fail(PRECONDITION_FAILED), docs)
  {
  }

  /**
   * The life of one document in a fresh store: it is created at revision 1, updated to
   * revision 2, refused an update that presents revision 1 again, deleted at revision 2,
   * and then refused a delete at revision 1.
   */
  lemma DocumentLifecycle(id: string, docType: string, b1: Body, b2: Body, b3: Body)
    ensures var (r1, s1) := InsertSpec(map[], DocumentReference(id, docType, 0), b1);
      var (r2, s2) := UpdateSpec(s1, DocumentReference(id, docType, 1), b2);
      var (r3, s3) := UpdateSpec(s2, DocumentReference(id, docType, 1), b3);
      var (r4, s4) := DeleteSpec(s3, DocumentReference(id, docType, 2));
      var (r5, s5) := DeleteSpec(s4, DocumentReference(id, docType, 1));
      && ListSpec(map[]) == {} && RetrieveSpec(map[], id) == None
      && r1 == Success(1) && ListSpec(s1) == {DocumentReference(id, docType, 1)}
      && r2 == Success(2) && r2.value > r1.value && ListSpec(s2) == {DocumentReference(id, docType, 2)}
      && RetrieveSpec(s2, id) == Some(WithRev(b2, 2))
      && r3 == Failure(PRECONDITION_FAILED) && s3 == s2
      && r4 == Pass && ListSpec(s4) == {} && RetrieveSpec(s4, id) == None
      && r5 == Fail(PRECONDITION_FAILED) && s5 == s4
  {
    var empty: Store := map[];
    InsertOutcome(empty, DocumentReference(id, docType, 0), b1);
    var s1 := InsertSpec(empty, DocumentReference(id, docType, 0), b1).1;
    UpdateOutcome(s1, DocumentReference(id, docType, 1), b2);
    var s2 := UpdateSpec(s1, DocumentReference(id, docType, 1), b2).1;
    UpdateOutcome(s2, DocumentReference(id, docType, 1), b3);
    DeleteOutcome(s2, DocumentReference(id, docType, 2));
    var s4 := DeleteSpec(s2, DocumentReference(id, docType, 2)).1;
    DeleteOutcome(s4, DocumentReference(id, docType, 1));
  }
}
