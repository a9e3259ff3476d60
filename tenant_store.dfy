/**
 * The two-level, multi-tenant in-memory document store: organisation -> solution ->
 * document id -> record. Inserts create scopes on demand, updates and deletes are
 * compare-and-swap operations on (id, type, revision), and a delete prunes the scopes
 * it leaves empty.
 *
 * The functions `InsertSpec`, `UpdateSpec` and `DeleteSpec` give each operation's
 * outcome and new tree; the class `InMemoryPersistenceService` runs the same steps
 * on its `organizations` field, and the lemmas state what the operations promise.
 */
module MultitenantPersistence {
  import opened Wrappers
  import opened Java
  import opened BusinessDocuments
  import opened References
  import opened Documents
  import opened Updates

  type Scope = map<string, Document>
  type Solutions = map<string, Scope>
  type Tree = map<string, Solutions>

  /**
   * Stands in for the `null` body of the expected record that update and delete build;
   * record equality never reads the body, so any value serves.
   */
  const NO_BODY: Body := EMPTY_OBJECT

  /** A stored record: kept under its id, `_rev` in sync, id and type validated. */
  predicate StoredOk(key: string, d: Document) {
    Stamped(key, d) && ValidId(d.id) && ValidId(d.docType)
  }

  /** A registered document scope: never empty, every record stored correctly. */
  predicate ScopeOk(docs: Scope) {
    docs != map[] && forall id :: id in docs ==> StoredOk(id, docs[id])
  }

  /** A registered organisation: never empty, every solution scope registered correctly. */
  ghost predicate SolutionsOk(solutions: Solutions) {
    solutions != map[] && forall sol :: sol in solutions ==> ScopeOk(solutions[sol])
  }

  /** The store invariant: no registered organisation or solution map is empty. */
  ghost predicate WellFormed(t: Tree) {
    forall org :: org in t ==> SolutionsOk(t[org])
  }

  lemma WellFormedAfterSet(t: Tree, org: string, solutions: Solutions)
    requires WellFormed(t) && SolutionsOk(solutions)
    ensures WellFormed(t[org := solutions])
  {
  }

  lemma SolutionsOkAfterSet(solutions: Solutions, sol: string, docs: Scope)
    requires forall s :: s in solutions ==> ScopeOk(solutions[s])
    requires ScopeOk(docs)
    ensures SolutionsOk(solutions[sol := docs])
  {
    assert sol in solutions[sol := docs];
  }

  lemma ScopeOkAfterRemove(docs: Scope, id: string)
    requires forall k :: k in docs ==> StoredOk(k, docs[k])
    requires |docs - {id}| != 0
    ensures ScopeOk(docs - {id})
  {
  }

  lemma SolutionsOkAfterRemove(solutions: Solutions, sol: string)
    requires forall s :: s in solutions ==> ScopeOk(solutions[s])
    requires |solutions - {sol}| != 0
    ensures SolutionsOk(solutions - {sol})
  {
  }

  lemma WellFormedAfterRemove(t: Tree, org: string)
    requires WellFormed(t)
    ensures WellFormed(t - {org})
  {
  }

  lemma ScopeOkAfterSet(docs: Scope, id: string, d: Document)
    requires forall k :: k in docs ==> StoredOk(k, docs[k])
    requires StoredOk(id, d)
    ensures ScopeOk(docs[id := d])
  {
    assert id in docs[id := d];
  }

  function SolutionsOf(t: Tree, org: string): Solutions {
    if org in t then t[org] else map[]
  }

  /** The records of a scope; an unknown scope reads as empty. */
  function ScopeOf(t: Tree, org: string, sol: string): Scope {
    if org in t && sol in t[org] then t[org][sol] else map[]
  }

  function ListSpec(t: Tree, org: string, sol: string): set<DocumentReference> {
    ReferenceSet(ScopeOf(t, org, sol))
  }

  function RetrieveSpec(t: Tree, org: string, sol: string, docId: string): Option<Body> {
    if org !in t then None
    else if sol !in t[org] then None
    else if docId !in t[org][sol] then None
    else Some(t[org][sol][docId].body)
  }

  function InsertSpec(t: Tree, org: string, sol: string, docRef: DocumentReference, body: Body): (Result<Long, Failure>, Tree) {
    var solutions := SolutionsOf(t, org);
    var documents := if sol in solutions then solutions[sol] else map[];
    var initialRevision: Long := 1;
    match NewDocument(docRef.id, docRef.docType, initialRevision, WithRev(body, initialRevision))
    case Failure(e) => (Failure(Unchecked(e)), t)
    case Success(d) =>
      if docRef.id in documents then (Failure(UpdateException(CONFLICT)), t)
      else (Success(initialRevision), t[org := solutions[sol := documents[docRef.id := d]]])
  }

  function UpdateSpec(t: Tree, org: string, sol: string, docRef: DocumentReference, body: Body): (Result<Long, Failure>, Tree) {
    if org !in t || sol !in t[org] then (Failure(UpdateException(PRECONDITION_FAILED)), t)
    else
      var documents := t[org][sol];
      var updatedRevision := Inc(docRef.rev);
      match NewDocument(docRef.id, docRef.docType, docRef.rev, NO_BODY)
      case Failure(e) => (Failure(Unchecked(e)), t)
      case Success(expected) =>
        // built from the same id and type as `expected`, so its validation passes too
        var replacement := Document(docRef.id, docRef.docType, updatedRevision, WithRev(body, updatedRevision));
        if docRef.id in documents && TenantEquals(documents[docRef.id], expected) then
          (Success(updatedRevision), t[org := t[org][sol := documents[docRef.id := replacement]]])
        else (Failure(UpdateException(PRECONDITION_FAILED)), t)
  }

  /** Removes `scope` and then `org` from the tree when they are left empty. */
  function Prune(t: Tree, org: string, sol: string, documents: Scope): Tree
    requires org in t
  {
    var solutions := if documents == map[] then t[org] - {sol} else t[org][sol := documents];
    if solutions == map[] then t - {org} else t[org := solutions]
  }

  function DeleteSpec(t: Tree, org: string, sol: string, docRef: DocumentReference): (Outcome<Failure>, Tree) {
    if org !in t || sol !in t[org] then (Fail(UpdateException(PRECONDITION_FAILED)), t)
    else
      var documents := t[org][sol];
      match NewDocument(docRef.id, docRef.docType, docRef.rev, NO_BODY)
      case Failure(e) => (Fail(Unchecked(e)), t)
      case Success(expected) =>
        if docRef.id in documents && TenantEquals(expected, documents[docRef.id]) then
          (Pass, Prune(t, org, sol, documents - {docRef.id}))
        else (Fail(UpdateException(PRECONDITION_FAILED)), t)
  }

  /** The exception the record constructor throws for an invalid reference, if any. */
  function IdentityError(docRef: DocumentReference): Exception
    requires !(ValidId(docRef.id) && ValidId(docRef.docType))
  {
    NewWithoutAttachments(docRef.id, docRef.docType, docRef.rev).error
  }

  class InMemoryPersistenceService {
    var organizations: Tree

    ghost predicate Valid()
      reads this
    {
      WellFormed(organizations)
    }

    constructor ()
      ensures Valid() && organizations == map[]
    {
      organizations := map[];
    }

    /** One reference per record of the scope; nothing for an unknown scope. */
    method List(orgId: string, solutionId: string) returns (refs: seq<DocumentReference>)
      requires Valid()
      ensures |refs| == |ScopeOf(organizations, orgId, solutionId)|
      ensures forall r :: r in refs <==> r in ListSpec(organizations, orgId, solutionId)
      ensures forall i, j :: 0 <= i < j < |refs| ==> refs[i].id != refs[j].id
      ensures (orgId !in organizations || solutionId !in organizations[orgId]) ==> refs == []
    {
      if orgId !in organizations {
        return [];
      }
      var solutions := organizations[orgId];
      if solutionId !in solutions {
        return [];
      }
      var documents := solutions[solutionId];
      refs := CollectReferences(documents);
      forall r | r in ListSpec(organizations, orgId, solutionId)
        ensures r in refs
      {
        var id :| id in documents && r == Reference(documents[id]);
      }
    }

    /** The stored body when organisation, solution and id all exist, `None` (`null`) otherwise. */
    method Retrieve(orgId: string, solutionId: string, docId: string) returns (r: Option<Body>)
      requires Valid()
      ensures r.Some? <==> docId in ScopeOf(organizations, orgId, solutionId)
      ensures r.Some? ==> r.value == organizations[orgId][solutionId][docId].body
      ensures r.Some? ==> r.value.rev == Some(organizations[orgId][solutionId][docId].rev)
      ensures r == RetrieveSpec(organizations, orgId, solutionId, docId)
    {
      if orgId !in organizations {
        return None;
      }
      var solutions := organizations[orgId];
      if solutionId !in solutions {
        return None;
      }
      var documents := solutions[solutionId];
      if docId !in documents {
        return None;
      }
      r := Some(documents[docId].body);
    }

    method Insert(orgId: string, solutionId: string, docRef: DocumentReference, body: Body) returns (r: Result<Long, Failure>)
      requires Valid()
      modifies this
      ensures Valid()
      ensures (r, organizations) == InsertSpec(old(organizations), orgId, solutionId, docRef, body)
    {
      ghost var before := organizations;
      var solutions: Solutions := map[];
      var hasOrganization := orgId in organizations;
      if hasOrganization {
        solutions := organizations[orgId];
      }
      var documents: Scope := map[];
      var hasSolution := solutionId in solutions;
      if hasSolution {
        documents := solutions[solutionId];
      }
      var initialRevision: Long := 1;
      var stamped := WithRev(body, initialRevision);
      var created := NewDocument(docRef.id, docRef.docType, initialRevision, stamped);
      if created.Failure? {
        return Failure(Unchecked(created.error));
      }
      if docRef.id in documents {
        return Failure(UpdateException(CONFLICT));
      }
      documents := documents[docRef.id := created.value];
      // the scope maps are values here: registering them is writing them back
      solutions := solutions[solutionId := documents];
      organizations := organizations[orgId := solutions];
      r := Success(initialRevision);
      InsertPreservesWellFormed(before, orgId, solutionId, docRef, body);
    }

    method Update(orgId: string, solutionId: string, docRef: DocumentReference, body: Body) returns (r: Result<Long, Failure>)
      requires Valid()
      modifies this
      ensures Valid()
      ensures (r, organizations) == UpdateSpec(old(organizations), orgId, solutionId, docRef, body)
    {
      ghost var before := organizations;
      if orgId !in organizations {
        return Failure(UpdateException(PRECONDITION_FAILED));
      }
      var solutions := organizations[orgId];
      if solutionId !in solutions {
        return Failure(UpdateException(PRECONDITION_FAILED));
      }
      var documents := solutions[solutionId];
      var updatedRevision := Inc(docRef.rev);
      var stamped := WithRev(body, updatedRevision);
      var expected := NewDocument(docRef.id, docRef.docType, docRef.rev, NO_BODY);
      if expected.Failure? {
        return Failure(Unchecked(expected.error));
      }
      var replacement := Document(docRef.id, docRef.docType, updatedRevision, stamped);
      if !(docRef.id in documents && TenantEquals(documents[docRef.id], expected.value)) {
        return Failure(UpdateException(PRECONDITION_FAILED));
      }
      documents := documents[docRef.id := replacement];
      organizations := organizations[orgId := solutions[solutionId := documents]];
      r := Success(updatedRevision);
      UpdatePreservesWellFormed(before, orgId, solutionId, docRef, body);
    }

    method Delete(orgId: string, solutionId: string, docRef: DocumentReference) returns (r: Outcome<Failure>)
      requires Valid()
      modifies this
      ensures Valid()
      ensures (r, organizations) == DeleteSpec(old(organizations), orgId, solutionId, docRef)
    {
      ghost var before := organizations;
      if orgId !in organizations {
        return Fail(UpdateException(PRECONDITION_FAILED));
      }
      var solutions := organizations[orgId];
      if solutionId !in solutions {
        return Fail(UpdateException(PRECONDITION_FAILED));
      }
      var documents := solutions[solutionId];
      var expected := NewDocument(docRef.id, docRef.docType, docRef.rev, NO_BODY);
      if expected.Failure? {
        return Fail(Unchecked(expected.error));
      }
      if !(docRef.id in documents && TenantEquals(expected.value, documents[docRef.id])) {
        return Fail(UpdateException(PRECONDITION_FAILED));
      }
      documents := documents - {docRef.id};
      if |documents| == 0 {
        solutions := solutions - {solutionId};
      } else {
        solutions := solutions[solutionId := documents];
      }
      if |solutions| == 0 {
        organizations := organizations - {orgId};
      } else {
        organizations := organizations[orgId := solutions];
      }
      r := Pass;
      DeletePreservesWellFormed(before, orgId, solutionId, docRef);
    }
  }

  // ---------------------------------------------------------------------------
  // What the operations promise

  lemma InsertPreservesWellFormed(t: Tree, org: string, sol: string, docRef: DocumentReference, body: Body)
    requires WellFormed(t)
    ensures WellFormed(InsertSpec(t, org, sol, docRef, body).1)
  {
    var (r, t') := InsertSpec(t, org, sol, docRef, body);
    if r.Success? {
      var solutions := SolutionsOf(t, org);
      var documents := if sol in solutions then solutions[sol] else map[];
      var d := Document(docRef.id, docRef.docType, 1, WithRev(body, 1));
      assert StoredOk(docRef.id, d);
      ScopeOkAfterSet(documents, docRef.id, d);
      SolutionsOkAfterSet(solutions, sol, documents[docRef.id := d]);
      WellFormedAfterSet(t, org, solutions[sol := documents[docRef.id := d]]);
    }
  }

  lemma UpdatePreservesWellFormed(t: Tree, org: string, sol: string, docRef: DocumentReference, body: Body)
    requires WellFormed(t)
    ensures WellFormed(UpdateSpec(t, org, sol, docRef, body).1)
  {
    var (r, t') := UpdateSpec(t, org, sol, docRef, body);
    if r.Success? {
      var documents := t[org][sol];
      var replacement := Document(docRef.id, docRef.docType, Inc(docRef.rev), WithRev(body, Inc(docRef.rev)));
      assert StoredOk(docRef.id, replacement);
      ScopeOkAfterSet(documents, docRef.id, replacement);
      SolutionsOkAfterSet(t[org], sol, documents[docRef.id := replacement]);
      WellFormedAfterSet(t, org, t[org][sol := documents[docRef.id := replacement]]);
    }
  }

  lemma DeletePreservesWellFormed(t: Tree, org: string, sol: string, docRef: DocumentReference)
    requires WellFormed(t)
    ensures WellFormed(DeleteSpec(t, org, sol, docRef).1)
  {
    var (r, t') := DeleteSpec(t, org, sol, docRef);
    if r.Pass? {
      var documents := t[org][sol] - {docRef.id};
      assert t' == Prune(t, org, sol, documents);
      var solutions: Solutions;
      if |documents| == 0 {
        solutions := t[org] - {sol};
      } else {
        ScopeOkAfterRemove(t[org][sol], docRef.id);
        solutions := t[org][sol := documents];
        SolutionsOkAfterSet(t[org], sol, documents);
      }
      if |solutions| == 0 {
        assert t' == t - {org};
        WellFormedAfterRemove(t, org);
      } else {
        if |documents| == 0 {
          SolutionsOkAfterRemove(t[org], sol);
        }
        assert t' == t[org := solutions];
        WellFormedAfterSet(t, org, solutions);
      }
    }
  }

  /** Every operation keeps the store invariant, whatever its arguments. */
  lemma EveryOperationPreservesWellFormed(t: Tree, org: string, sol: string, docRef: DocumentReference, body: Body)
    requires WellFormed(t)
    ensures WellFormed(InsertSpec(t, org, sol, docRef, body).1)
    ensures WellFormed(UpdateSpec(t, org, sol, docRef, body).1)
    ensures WellFormed(DeleteSpec(t, org, sol, docRef).1)
  {
    InsertPreservesWellFormed(t, org, sol, docRef, body);
    UpdatePreservesWellFormed(t, org, sol, docRef, body);
    DeletePreservesWellFormed(t, org, sol, docRef);
  }

  /** Overwriting one record of a scope: it reads back, and its new reference is listed in place of the old one. */
  lemma OverwriteEffect(t: Tree, org: string, sol: string, id: string, d: Document)
    requires org in t && sol in t[org] && id in t[org][sol]
    requires forall k :: k in t[org][sol] ==> t[org][sol][k].id == k
    ensures var t' := t[org := t[org][sol := t[org][sol][id := d]]];
      && ScopeOf(t', org, sol) == ScopeOf(t, org, sol)[id := d]
      && RetrieveSpec(t', org, sol, id) == Some(d.body)
      && ListSpec(t', org, sol) == ListSpec(t, org, sol) - {Reference(t[org][sol][id])} + {Reference(d)}
  {
    var docs := t[org][sol];
    var t' := t[org := t[org][sol := docs[id := d]]];
    assert ScopeOf(t', org, sol) == docs[id := d];
    ReferenceSetReplace(docs, id, d);
  }

  /** Removing one record of a scope, pruning what is left empty: it reads as absent, and its reference is no longer listed. */
  lemma RemoveEffect(t: Tree, org: string, sol: string, id: string)
    requires org in t && sol in t[org] && id in t[org][sol]
    requires forall k :: k in t[org][sol] ==> t[org][sol][k].id == k
    ensures var t' := Prune(t, org, sol, t[org][sol] - {id});
      && ScopeOf(t', org, sol) == ScopeOf(t, org, sol) - {id}
      && RetrieveSpec(t', org, sol, id) == None
      && ListSpec(t', org, sol) == ListSpec(t, org, sol) - {Reference(t[org][sol][id])}
  {
    var docs := t[org][sol];
    var t' := Prune(t, org, sol, docs - {id});
    PruneScope(t, org, sol, docs - {id});
    RetrieveIsScopeLookup(t', org, sol, id);
    ReferenceSetRemove(docs, id);
  }

  /** `insert`: revision 1 for a new id in the scope, CONFLICT for a taken one, and the constructor's exception for an invalid id or type. */
  lemma InsertOutcome(t: Tree, org: string, sol: string, docRef: DocumentReference, body: Body)
    ensures var (r, t') := InsertSpec(t, org, sol, docRef, body);
      && (r.Success? <==> ValidId(docRef.id) && ValidId(docRef.docType) && docRef.id !in ScopeOf(t, org, sol))
      && (r.Success? ==>
            && r.value == 1
            && org in t' && sol in t'[org]
            && ScopeOf(t', org, sol) == ScopeOf(t, org, sol)[docRef.id := Document(docRef.id, docRef.docType, 1, WithRev(body, 1))]
            && RetrieveSpec(t', org, sol, docRef.id) == Some(WithRev(body, 1))
            && ListSpec(t', org, sol) == ListSpec(t, org, sol) + {DocumentReference(docRef.id, docRef.docType, 1)})
      && (r.Failure? ==> t' == t)
      && (!(ValidId(docRef.id) && ValidId(docRef.docType)) ==> r == Failure(Unchecked(IdentityError(docRef))))
      && (ValidId(docRef.id) && ValidId(docRef.docType) && docRef.id in ScopeOf(t, org, sol) ==>
            r == Failure(UpdateException(CONFLICT)))
  {
    var (r, t') := InsertSpec(t, org, sol, docRef, body);
    if r.Success? {
      var d := Document(docRef.id, docRef.docType, 1, WithRev(body, 1));
      ReferenceSetInsert(ScopeOf(t, org, sol), docRef.id, d);
    }
  }

  lemma RetrieveIsScopeLookup(t: Tree, org: string, sol: string, docId: string)
    ensures RetrieveSpec(t, org, sol, docId) ==
      if docId in ScopeOf(t, org, sol) then Some(ScopeOf(t, org, sol)[docId].body) else None
  {
  }

  /** Pruning leaves exactly the given records in the scope, and no other scope changes. */
  lemma PruneScope(t: Tree, org: string, sol: string, documents: Scope)
    requires org in t
    ensures ScopeOf(Prune(t, org, sol, documents), org, sol) == documents
    ensures forall o, s :: (o != org || s != sol) ==> ScopeOf(Prune(t, org, sol, documents), o, s) == ScopeOf(t, o, s)
    ensures documents == map[] ==> var t' := Prune(t, org, sol, documents); org in t' ==> sol !in t'[org]
  {
    var solutions := if documents == map[] then t[org] - {sol} else t[org][sol := documents];
    if documents != map[] {
      assert sol in solutions;
    }
    forall o, s | o != org || s != sol
      ensures ScopeOf(Prune(t, org, sol, documents), o, s) == ScopeOf(t, o, s)
    {
      if o == org && solutions == map[] {
        assert s !in solutions;
      }
    }
  }

  /** In a well-formed tree a reference is listed exactly when its id is stored with that type and revision. */
  lemma ListedIff(t: Tree, org: string, sol: string, docRef: DocumentReference)
    requires WellFormed(t)
    ensures docRef in ListSpec(t, org, sol) <==>
      org in t && sol in t[org] && docRef.id in t[org][sol] && Reference(t[org][sol][docRef.id]) == docRef
    ensures docRef in ListSpec(t, org, sol) ==> ValidId(docRef.id) && ValidId(docRef.docType)
  {
    var docs := ScopeOf(t, org, sol);
    if docRef in ListSpec(t, org, sol) {
      var k :| k in docs && docRef == Reference(docs[k]);
      assert StoredOk(k, docs[k]);
    }
    if org in t && sol in t[org] && docRef.id in docs && Reference(docs[docRef.id]) == docRef {
      assert docRef in ReferenceSet(docs);
    }
  }

  /** `update` succeeds exactly when the stored record's (id, type, rev) equals the reference; a failure changes nothing and is PRECONDITION_FAILED, or the constructor's exception for an invalid id or type in an existing scope. */
  lemma UpdateOutcome(t: Tree, org: string, sol: string, docRef: DocumentReference, body: Body)
    requires WellFormed(t)
    ensures var (r, t') := UpdateSpec(t, org, sol, docRef, body);
      && (r.Success? <==> docRef in ListSpec(t, org, sol))
      && (r.Success? ==> r.value == Inc(docRef.rev))
      && (r.Failure? ==> t' == t)
      && (r.Failure? && !(org in t && sol in t[org] && !(ValidId(docRef.id) && ValidId(docRef.docType))) ==>
            r.error == UpdateException(PRECONDITION_FAILED))
      && (org in t && sol in t[org] && !(ValidId(docRef.id) && ValidId(docRef.docType)) ==>
            r == Failure(Unchecked(IdentityError(docRef))))
  {
    UpdateCases(t, org, sol, docRef, body);
    ListedIff(t, org, sol, docRef);
  }

  /** The cases of `update`, read off the tree without the store invariant. */
  lemma UpdateCases(t: Tree, org: string, sol: string, docRef: DocumentReference, body: Body)
    ensures var (r, t') := UpdateSpec(t, org, sol, docRef, body);
      && (r.Success? <==>
            org in t && sol in t[org] && ValidId(docRef.id) && ValidId(docRef.docType) &&
            docRef.id in t[org][sol] && Reference(t[org][sol][docRef.id]) == docRef)
      && (r.Success? ==> r.value == Inc(docRef.rev))
      && (r.Failure? ==> t' == t)
      && (r.Failure? && !(org in t && sol in t[org] && !(ValidId(docRef.id) && ValidId(docRef.docType))) ==>
            r.error == UpdateException(PRECONDITION_FAILED))
      && (org in t && sol in t[org] && !(ValidId(docRef.id) && ValidId(docRef.docType)) ==>
            r == Failure(Unchecked(IdentityError(docRef))))
  {
    if org in t && sol in t[org] && ValidId(docRef.id) && ValidId(docRef.docType) {
      var expected := Document(docRef.id, docRef.docType, docRef.rev, NO_BODY);
      assert NewDocument(docRef.id, docRef.docType, docRef.rev, NO_BODY) == Success(expected);
    }
  }

  /** What a successful `update` found in the tree, and the tree it leaves. */
  lemma UpdateSuccess(t: Tree, org: string, sol: string, docRef: DocumentReference, body: Body)
    requires WellFormed(t)
    requires UpdateSpec(t, org, sol, docRef, body).0.Success?
    ensures org in t && sol in t[org] && docRef.id in t[org][sol]
    ensures Reference(t[org][sol][docRef.id]) == docRef
    ensures forall k :: k in t[org][sol] ==> t[org][sol][k].id == k
    ensures UpdateSpec(t, org, sol, docRef, body).1 ==
      t[org := t[org][sol := t[org][sol][docRef.id := Document(docRef.id, docRef.docType, Inc(docRef.rev), WithRev(body, Inc(docRef.rev)))]]]
  {
    assert SolutionsOk(t[org]) && ScopeOk(t[org][sol]);
  }

  /** A successful `update` stores the new body under revision `rev + 1`, stamped into `_rev`, and lists the new reference instead of the old. */
  lemma UpdateEffect(t: Tree, org: string, sol: string, docRef: DocumentReference, body: Body)
    requires WellFormed(t)
    requires UpdateSpec(t, org, sol, docRef, body).0.Success?
    ensures var t' := UpdateSpec(t, org, sol, docRef, body).1;
      var d := Document(docRef.id, docRef.docType, Inc(docRef.rev), WithRev(body, Inc(docRef.rev)));
      && ScopeOf(t', org, sol) == ScopeOf(t, org, sol)[docRef.id := d]
      && RetrieveSpec(t', org, sol, docRef.id) == Some(WithRev(body, Inc(docRef.rev)))
      && ListSpec(t', org, sol) == ListSpec(t, org, sol) - {docRef} + {Reference(d)}
  {
    var docs := t[org][sol];
    var d := Document(docRef.id, docRef.docType, Inc(docRef.rev), WithRev(body, Inc(docRef.rev)));
    UpdateSuccess(t, org, sol, docRef, body);
    OverwriteEffect(t, org, sol, docRef.id, d);
  }

  /** `delete` removes the record exactly when its (id, type, rev) equals the reference; a failure changes nothing and is PRECONDITION_FAILED, or the constructor's exception for an invalid id or type in an existing scope. */
  lemma DeleteOutcome(t: Tree, org: string, sol: string, docRef: DocumentReference)
    requires WellFormed(t)
    ensures var (r, t') := DeleteSpec(t, org, sol, docRef);
      && (r.Pass? <==> docRef in ListSpec(t, org, sol))
      && (r.Fail? ==> t' == t)
      && (r.Fail? && !(org in t && sol in t[org] && !(ValidId(docRef.id) && ValidId(docRef.docType))) ==>
            r.error == UpdateException(PRECONDITION_FAILED))
      && (org in t && sol in t[org] && !(ValidId(docRef.id) && ValidId(docRef.docType)) ==>
            r == Fail(Unchecked(IdentityError(docRef))))
  {
    DeleteCases(t, org, sol, docRef);
    ListedIff(t, org, sol, docRef);
  }

  /** The cases of `delete`, read off the tree without the store invariant. */
  lemma DeleteCases(t: Tree, org: string, sol: string, docRef: DocumentReference)
    ensures var (r, t') := DeleteSpec(t, org, sol, docRef);
      && (r.Pass? <==>
            org in t && sol in t[org] && ValidId(docRef.id) && ValidId(docRef.docType) &&
            docRef.id in t[org][sol] && Reference(t[org][sol][docRef.id]) == docRef)
      && (r.Fail? ==> t' == t)
      && (r.Fail? && !(org in t && sol in t[org] && !(ValidId(docRef.id) && ValidId(docRef.docType))) ==>
            r.error == UpdateException(PRECONDITION_FAILED))
      && (org in t && sol in t[org] && !(ValidId(docRef.id) && ValidId(docRef.docType)) ==>
            r == Fail(Unchecked(IdentityError(docRef))))
  {
    if org in t && sol in t[org] && ValidId(docRef.id) && ValidId(docRef.docType) {
      var expected := Document(docRef.id, docRef.docType, docRef.rev, NO_BODY);
      assert NewDocument(docRef.id, docRef.docType, docRef.rev, NO_BODY) == Success(expected);
    }
  }

  /** What a successful `delete` found in the tree, and the tree it leaves. */
  lemma DeleteSuccess(t: Tree, org: string, sol: string, docRef: DocumentReference)
    requires WellFormed(t)
    requires DeleteSpec(t, org, sol, docRef).0.Pass?
    ensures org in t && sol in t[org] && docRef.id in t[org][sol]
    ensures Reference(t[org][sol][docRef.id]) == docRef
    ensures forall k :: k in t[org][sol] ==> t[org][sol][k].id == k
    ensures DeleteSpec(t, org, sol, docRef).1 == Prune(t, org, sol, t[org][sol] - {docRef.id})
  {
    assert SolutionsOk(t[org]) && ScopeOk(t[org][sol]);
  }

  /** `delete` of a stored, valid reference passes and prunes what it leaves empty. */
  lemma DeleteStored(t: Tree, org: string, sol: string, docRef: DocumentReference)
    requires org in t && sol in t[org] && docRef.id in t[org][sol]
    requires Reference(t[org][sol][docRef.id]) == docRef
    requires ValidId(docRef.id) && ValidId(docRef.docType)
    ensures DeleteSpec(t, org, sol, docRef) == (Pass, Prune(t, org, sol, t[org][sol] - {docRef.id}))
  {
  }

  /** After a successful `delete` the id reads as absent and its reference is no longer listed. */
  lemma DeleteEffect(t: Tree, org: string, sol: string, docRef: DocumentReference)
    requires WellFormed(t)
    requires DeleteSpec(t, org, sol, docRef).0.Pass?
    ensures var t' := DeleteSpec(t, org, sol, docRef).1;
      && ScopeOf(t', org, sol) == ScopeOf(t, org, sol) - {docRef.id}
      && RetrieveSpec(t', org, sol, docRef.id) == None
      && ListSpec(t', org, sol) == ListSpec(t, org, sol) - {docRef}
  {
    var docs := t[org][sol];
    DeleteSuccess(t, org, sol, docRef);
    RemoveEffect(t, org, sol, docRef.id);
  }

  /** Operations on one (organisation, solution) scope never change any other scope. */
  lemma OtherScopesUntouched(t: Tree, org: string, sol: string, docRef: DocumentReference, body: Body, org2: string, sol2: string)
    requires org2 != org || sol2 != sol
    ensures ScopeOf(InsertSpec(t, org, sol, docRef, body).1, org2, sol2) == ScopeOf(t, org2, sol2)
    ensures ScopeOf(UpdateSpec(t, org, sol, docRef, body).1, org2, sol2) == ScopeOf(t, org2, sol2)
    ensures ScopeOf(DeleteSpec(t, org, sol, docRef).1, org2, sol2) == ScopeOf(t, org2, sol2)
  {
    if org in t && sol in t[org] {
      PruneScope(t, org, sol, t[org][sol] - {docRef.id});
    }
  }

  /** Pruning the scope an insert wrote, back to its former records, gives the former tree. */
  lemma PruneUndoesWrite(t: Tree, org: string, sol: string, id: string, d: Document)
    requires org in t ==> t[org] != map[]
    requires org in t && sol in t[org] ==> t[org][sol] != map[]
    requires id !in ScopeOf(t, org, sol)
    ensures var documents := ScopeOf(t, org, sol);
      Prune(t[org := SolutionsOf(t, org)[sol := documents[id := d]]], org, sol, documents) == t
  {
    var solutions := SolutionsOf(t, org);
    var documents := ScopeOf(t, org, sol);
    var t1 := t[org := solutions[sol := documents[id := d]]];
    if sol in solutions {
      assert sol in solutions && solutions[sol := documents] == solutions;
      assert t1[org][sol := documents] == solutions;
      assert t[org := solutions] == t;
    } else {
      assert documents == map[];
      var solutions' := t1[org] - {sol};
      assert solutions' == solutions;
      if org in t {
        assert t[org := solutions] == t;
      } else {
        assert solutions == map[];
        assert t1 - {org} == t;
      }
    }
  }

  /** What a successful `insert` found in the tree, and the tree it leaves. */
  lemma InsertSuccess(t: Tree, org: string, sol: string, docRef: DocumentReference, body: Body)
    requires InsertSpec(t, org, sol, docRef, body).0.Success?
    ensures ValidId(docRef.id) && ValidId(docRef.docType) && docRef.id !in ScopeOf(t, org, sol)
    ensures InsertSpec(t, org, sol, docRef, body).1 ==
      t[org := SolutionsOf(t, org)[sol := ScopeOf(t, org, sol)[docRef.id := Document(docRef.id, docRef.docType, 1, WithRev(body, 1))]]]
  {
  }

  /** In a well-formed tree a registered organisation or scope is never empty. */
  lemma RegisteredScopesNonEmpty(t: Tree, org: string, sol: string)
    requires WellFormed(t)
    ensures org in t ==> t[org] != map[]
    ensures org in t && sol in t[org] ==> t[org][sol] != map[]
  {
    if org in t {
      assert SolutionsOk(t[org]);
      if sol in t[org] {
        assert ScopeOk(t[org][sol]);
      }
    }
  }

  /** Inserting a new record and then deleting it with the returned revision restores the tree exactly, pruned scopes included. */
  lemma InsertThenDeleteRestores(t: Tree, org: string, sol: string, docRef: DocumentReference, body: Body)
    requires WellFormed(t)
    requires InsertSpec(t, org, sol, docRef, body).0.Success?
    ensures var t1 := InsertSpec(t, org, sol, docRef, body).1;
      DeleteSpec(t1, org, sol, DocumentReference(docRef.id, docRef.docType, 1)) == (Pass, t)
  {
    InsertSuccess(t, org, sol, docRef, body);
    RegisteredScopesNonEmpty(t, org, sol);
    DeleteUndoesWrite(t, org, sol, DocumentReference(docRef.id, docRef.docType, 1), Document(docRef.id, docRef.docType, 1, WithRev(body, 1)));
  }

  /** Deleting a record just written under a new id, at its own reference, restores the tree. */
  lemma DeleteUndoesWrite(t: Tree, org: string, sol: string, docRef: DocumentReference, d: Document)
    requires org in t ==> t[org] != map[]
    requires org in t && sol in t[org] ==> t[org][sol] != map[]
    requires ValidId(docRef.id) && ValidId(docRef.docType) && docRef.id !in ScopeOf(t, org, sol)
    requires Reference(d) == docRef
    ensures var t1 := t[org := SolutionsOf(t, org)[sol := ScopeOf(t, org, sol)[docRef.id := d]]];
      DeleteSpec(t1, org, sol, docRef) == (Pass, t)
  {
    var documents := ScopeOf(t, org, sol);
    var t1 := t[org := SolutionsOf(t, org)[sol := documents[docRef.id := d]]];
    assert org in t1 && sol in t1[org] && t1[org][sol] == documents[docRef.id := d];
    assert documents[docRef.id := d] - {docRef.id} == documents;
    DeleteStored(t1, org, sol, docRef);
    PruneUndoesWrite(t, org, sol, docRef.id, d);
  }

  /**
   * Two updates presenting the same expected revision, run one after the other: at most
   * one succeeds, and when the reference is current exactly the first one does.
   */
  lemma SameRevisionUpdatesOneWins(t: Tree, org: string, sol: string, docRef: DocumentReference, b1: Body, b2: Body)
    requires WellFormed(t)
    ensures var (r1, t1) := UpdateSpec(t, org, sol, docRef, b1);
      var (r2, t2) := UpdateSpec(t1, org, sol, docRef, b2);
      && !(r1.Success? && r2.Success?)
      && (docRef in ListSpec(t, org, sol) ==> r1 == Success(Inc(docRef.rev)) && r2 == Failure(UpdateException(PRECONDITION_FAILED)))
  {
    var (r1, t1) := UpdateSpec(t, org, sol, docRef, b1);
    UpdateOutcome(t, org, sol, docRef, b1);
    UpdatePreservesWellFormed(t, org, sol, docRef, b1);
    UpdateOutcome(t1, org, sol, docRef, b2);
    if r1.Success? {
      var newRef := DocumentReference(docRef.id, docRef.docType, Inc(docRef.rev));
      assert newRef != docRef;
      assert docRef !in ListSpec(t1, org, sol);
    }
  }

  /** A scope that loses its last record reads exactly like a scope never created. */
  lemma DeletingLastRecordPrunesScope(t: Tree, org: string, sol: string, docRef: DocumentReference)
    requires WellFormed(t)
    requires ListSpec(t, org, sol) == {docRef}
    ensures var (r, t') := DeleteSpec(t, org, sol, docRef);
      r.Pass? && ListSpec(t', org, sol) == {} && (org in t' ==> sol !in t'[org])
  {
    DeleteOutcome(t, org, sol, docRef);
    DeleteSuccess(t, org, sol, docRef);
    var docs := t[org][sol];
    assert ListSpec(t, org, sol) == ReferenceSet(docs);
    OnlyReferenceOnlyRecord(docs, docRef);
    PruneScope(t, org, sol, docs - {docRef.id});
  }
}
