/** The (id, type, revision) triple used both to list documents and as the expected value of a compare-and-swap. */
module References {
  import opened Java
  import opened BusinessDocuments

  datatype DocumentReference = DocumentReference(id: string, docType: string, rev: Long)

  /** The constructor that copies a document's id, type and revision. */
  function FromDocument(d: BusinessDocument): (r: DocumentReference)
    ensures r.id == d.id && r.docType == d.docType && r.rev == d.rev
  {
    DocumentReference(d.id, d.docType, d.rev)
  }

  /** `equals`: compares the revision, then the id, then the type. */
  function Equals(a: DocumentReference, b: DocumentReference): (r: bool)
    ensures r <==> a == b
  {
    if a.rev != b.rev then false
    else if a.id != b.id then false
    else if a.docType != b.docType then false
    else true
  }

  lemma EqualsReflexive(a: DocumentReference)
    ensures Equals(a, a)
  {
  }

  lemma EqualsSymmetric(a: DocumentReference, b: DocumentReference)
    ensures Equals(a, b) <==> Equals(b, a)
  {
  }

  /**
   * `hashCode`: `31 * (31 * hash(id) + hash(type)) + hash(rev)` in `int` arithmetic, which
   * is that polynomial over the string polynomials up to the multiples of 2^32 overflow drops.
   */
  function HashCode(r: DocumentReference): (h: Int)
    ensures (h - (31 * 31 * HashPolynomial(r.id) + 31 * HashPolynomial(r.docType) + LongHashCode(r.rev))) % 0x1_0000_0000 == 0
  {
    var idHash, typeHash, revHash := StringHashCode(r.id), StringHashCode(r.docType), LongHashCode(r.rev);
    HashCombine3(idHash, HashPolynomial(r.id), typeHash, HashPolynomial(r.docType), revHash);
    WrapInt(31 * WrapInt(31 * idHash + typeHash) + revHash)
  }

  /** The `int` recipe of `hashCode` keeps the three-term polynomial modulo 2^32. */
  lemma HashCombine3(a: int, a': int, b: int, b': int, c: int)
    requires (a - a') % 0x1_0000_0000 == 0 && (b - b') % 0x1_0000_0000 == 0
    ensures (WrapInt(31 * WrapInt(31 * a + b) + c) - (31 * 31 * a' + 31 * b' + c)) % 0x1_0000_0000 == 0
  {
    var inner := 31 * a + b;
    var outer := 31 * WrapInt(inner) + c;
    HashCombine(a, a', b, b');
    WrapIntCongruent(inner);
    CongruentTrans(WrapInt(inner), inner, 31 * a' + b');
    CongruentStep(WrapInt(inner), 31 * a' + b', c);
    WrapIntCongruent(outer);
    CongruentTrans(WrapInt(outer), outer, 31 * (31 * a' + b') + c);
    assert 31 * (31 * a' + b') + c == 31 * 31 * a' + 31 * b' + c;
  }

  /** `31 * a + b` respects congruence modulo 2^32 in both operands. */
  lemma HashCombine(a: int, a': int, b: int, b': int)
    requires (a - a') % 0x1_0000_0000 == 0 && (b - b') % 0x1_0000_0000 == 0
    ensures ((31 * a + b) - (31 * a' + b')) % 0x1_0000_0000 == 0
  {
    var p := (a - a') / 0x1_0000_0000;
    var q := (b - b') / 0x1_0000_0000;
    assert (31 * a + b) - (31 * a' + b') == (31 * p + q) * 0x1_0000_0000;
  }

  lemma EqualsImpliesSameHash(a: DocumentReference, b: DocumentReference)
    requires Equals(a, b)
    ensures HashCode(a) == HashCode(b)
  {
  }
}
