/**
 * The stored record: a business document plus its JSON body. Both stores keep records
 * of this shape; equality and hashing look at id, type and revision and never at the body.
 */
module Documents {
  import opened Wrappers
  import opened Java
  import opened BusinessDocuments
  import opened References

  /**
   * A JSON object body: its members other than `_rev`, kept opaque, and the value of its
   * `_rev` member when it has one.
   */
  datatype Body = Body(members: map<string, string>, rev: Option<Long>)

  /** `mapper.createObjectNode()`: the empty JSON object. */
  const EMPTY_OBJECT: Body := Body(map[], None)

  /** `body.put("_rev", r)`: sets `_rev` and keeps every other member. */
  function WithRev(b: Body, r: Long): (b': Body)
    ensures b'.rev == Some(r) && b'.members == b.members
  {
    b.(rev := Some(r))
  }

  datatype Document = Document(id: string, docType: string, rev: Long, body: Body)

  /**
   * The validating constructor of the multi-tenant record: the three-argument
   * `BusinessDocument` constructor runs first, then the body is set.
   */
  function NewDocument(id: string, docType: string, rev: Long, body: Body): (r: Result<Document, Exception>)
    ensures r.Success? <==> ValidId(id) && ValidId(docType)
    ensures r.Success? ==> r.value == Document(id, docType, rev, body)
    ensures r.Failure? ==> r.error == NewWithoutAttachments(id, docType, rev).error
  {
    if ValidId(id) && ValidId(docType) then Success(Document(id, docType, rev, body))
    else Failure(NewWithoutAttachments(id, docType, rev).error)
  }

  /** The record seen through its superclass: no attachments. */
  function AsBusinessDocument(d: Document): BusinessDocument {
    BusinessDocument(d.id, d.docType, d.rev, None)
  }

  /** `new DocumentReference(document)`. */
  function Reference(d: Document): (r: DocumentReference)
    ensures r == DocumentReference(d.id, d.docType, d.rev)
  {
    FromDocument(AsBusinessDocument(d))
  }

  /** `equals` of the single-scope record: an if-chain over revision, id and type. */
  function Equals(a: Document, b: Document): (r: bool)
    ensures r <==> Reference(a) == Reference(b)
  {
    if a.rev != b.rev then false
    else if a.id != b.id then false
    else if a.docType != b.docType then false
    else true
  }

  /** `equals` of the multi-tenant record: one conjunction over revision, id and type. */
  function TenantEquals(a: Document, b: Document): (r: bool)
    ensures r <==> Reference(a) == Reference(b)
  {
    a.rev == b.rev && !(a.id != b.id) && !(a.docType != b.docType)
  }

  /** Bodies never matter to equality: a record equals any other record with the same id, type and revision. */
  lemma EqualsIgnoresBody(a: Document, b1: Body, b2: Body)
    ensures Equals(a.(body := b1), a.(body := b2)) && TenantEquals(a.(body := b1), a.(body := b2))
    ensures Equals(a.(body := b1), a) == Equals(a.(body := b2), a)
  {
  }

  /** Records that differ in revision, id or type are never equal. */
  lemma DifferentIdentityNotEqual(a: Document, b: Document)
    requires a.rev != b.rev || a.id != b.id || a.docType != b.docType
    ensures !Equals(a, b) && !TenantEquals(a, b)
  {
  }

  /** `hashCode` of both records: the same recipe as the reference's, so the body is ignored. */
  function HashCode(d: Document): (h: Int)
    ensures h == References.HashCode(Reference(d))
  {
    var r := Reference(d);
    assert r.id == d.id && r.docType == d.docType && r.rev == d.rev;
    WrapInt(31 * WrapInt(31 * StringHashCode(d.id) + StringHashCode(d.docType)) + LongHashCode(d.rev))
  }

  /** Equal records hash alike, as `equals` and `hashCode` must agree. */
  lemma HashCodeConsistent(a: Document, b: Document)
    requires Equals(a, b) || TenantEquals(a, b)
    ensures HashCode(a) == HashCode(b) && HashCode(a) == References.HashCode(Reference(b))
  {
    assert Reference(a) == Reference(b);
  }

  /** How a store keeps a record: under its own id, with `_rev` in the body equal to its revision. */
  predicate Stamped(key: string, d: Document) {
    d.id == key && d.body.rev == Some(d.rev)
  }

  /** The references a scope lists, as a set. */
  function ReferenceSet(docs: map<string, Document>): set<DocumentReference> {
    set id | id in docs :: Reference(docs[id])
  }

  /** Keyed by id, a scope lists a reference exactly when that id is stored with that type and revision. */
  lemma ReferenceSetMember(docs: map<string, Document>, docRef: DocumentReference)
    requires forall k :: k in docs ==> docs[k].id == k
    ensures docRef in ReferenceSet(docs) <==> docRef.id in docs && Reference(docs[docRef.id]) == docRef
  {
    if docRef in ReferenceSet(docs) {
      var k :| k in docs && docRef == Reference(docs[k]);
    }
  }

  lemma ReferenceSetInsert(docs: map<string, Document>, id: string, d: Document)
    requires id !in docs
    ensures ReferenceSet(docs[id := d]) == ReferenceSet(docs) + {Reference(d)}
  {
    var docs' := docs[id := d];
    forall r | r in ReferenceSet(docs')
      ensures r in ReferenceSet(docs) + {Reference(d)}
    {
      var k :| k in docs' && r == Reference(docs'[k]);
      if k != id {
        assert r == Reference(docs[k]);
      }
    }
    forall r | r in ReferenceSet(docs)
      ensures r in ReferenceSet(docs')
    {
      var k :| k in docs && r == Reference(docs[k]);
      assert docs'[k] == docs[k];
    }
    assert Reference(docs'[id]) in ReferenceSet(docs');
  }

  lemma ReferenceSetRemove(docs: map<string, Document>, id: string)
    requires id in docs
    requires forall k :: k in docs ==> docs[k].id == k
    ensures ReferenceSet(docs - {id}) == ReferenceSet(docs) - {Reference(docs[id])}
  {
    var docs' := docs - {id};
    forall r | r in ReferenceSet(docs)
      ensures r in ReferenceSet(docs') <==> r != Reference(docs[id])
    {
      var k :| k in docs && r == Reference(docs[k]);
      if k != id {
        assert k in docs' && docs'[k] == docs[k];
        assert r in ReferenceSet(docs');
      }
    }
  }

  lemma ReferenceSetReplace(docs: map<string, Document>, id: string, d: Document)
    requires id in docs
    requires forall k :: k in docs ==> docs[k].id == k
    ensures ReferenceSet(docs[id := d]) == ReferenceSet(docs) - {Reference(docs[id])} + {Reference(d)}
  {
    ReferenceSetRemove(docs, id);
    ReferenceSetInsert(docs - {id}, id, d);
    assert (docs - {id})[id := d] == docs[id := d];
  }

  /** A scope listing a single reference holds a single record. */
  lemma OnlyReferenceOnlyRecord(docs: map<string, Document>, docRef: DocumentReference)
    requires forall k :: k in docs ==> docs[k].id == k
    requires ReferenceSet(docs) == {docRef}
    ensures docs - {docRef.id} == map[]
  {
    forall k | k in docs
      ensures k == docRef.id
    {
      assert Reference(docs[k]) in ReferenceSet(docs);
    }
    assert forall k :: k !in docs - {docRef.id};
  }

  /**
   * The listing loop: one `new DocumentReference(document)` per stored record, in
   * whatever order the map is iterated.
   */
  method CollectReferences(docs: map<string, Document>) returns (refs: seq<DocumentReference>)
    requires forall id :: id in docs ==> docs[id].id == id
    ensures |refs| == |docs|
    ensures forall i :: 0 <= i < |refs| ==> refs[i].id in docs && refs[i] == Reference(docs[refs[i].id])
    ensures forall id :: id in docs ==> Reference(docs[id]) in refs
    ensures forall i, j :: 0 <= i < j < |refs| ==> refs[i].id != refs[j].id
  {
    refs := [];
    var remaining := docs.Keys;
    while remaining != {}
      invariant remaining <= docs.Keys
      invariant |refs| + |remaining| == |docs.Keys|
      invariant forall i :: 0 <= i < |refs| ==> refs[i].id in docs && refs[i].id !in remaining && refs[i] == Reference(docs[refs[i].id])
      invariant forall id :: id in docs && id !in remaining ==> Reference(docs[id]) in refs
      invariant forall i, j :: 0 <= i < j < |refs| ==> refs[i].id != refs[j].id
      decreases remaining
    {
      var id :| id in remaining;
      refs := refs + [Reference(docs[id])];
      remaining := remaining - {id};
    }
    assert |docs.Keys| == |docs|;
  }
}
