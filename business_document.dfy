/**
 * The validating base record of the data-sync protocol: document id, type and
 * revision, plus optional attachments. Ids, types and attachment names are limited to
 * the unreserved characters of RFC 3986 section 2.3 and to 1..250 characters.
 */
module BusinessDocuments {
  import opened Wrappers
  import opened Java

  const MAX_ID_LENGTH: nat := 250

  /** One character of the class `[a-zA-Z0-9.~_-]`. */
  predicate IsIdChar(c: char) {
    ('a' <= c <= 'z') || ('A' <= c <= 'Z') || ('0' <= c <= '9') || c == '.' || c == '~' || c == '_' || c == '-'
  }

  /** Whole-string match of the regular expression `[a-zA-Z0-9.~_-]*`. */
  predicate MatchesStar(s: string)
    decreases |s|
  {
    s == [] || (IsIdChar(s[0]) && MatchesStar(s[1..]))
  }

  /** Whole-string match of the identifier pattern `[a-zA-Z0-9.~_-]+`. */
  predicate MatchesIdPattern(s: string) {
    s != [] && IsIdChar(s[0]) && MatchesStar(s[1..])
  }

  /** An identifier: 1 to 250 characters, each one unreserved. */
  predicate ValidId(s: string) {
    0 < |s| <= MAX_ID_LENGTH && forall i :: 0 <= i < |s| ==> IsIdChar(s[i])
  }

  lemma {:induction false} MatchesStarIff(s: string)
    ensures MatchesStar(s) <==> forall i :: 0 <= i < |s| ==> IsIdChar(s[i])
    decreases |s|
  {
    if s != [] {
      MatchesStarIff(s[1..]);
      assert forall i :: 1 <= i < |s| ==> s[i] == s[1..][i - 1];
    }
  }

  /** The test `validateId` makes (the pattern matches and the length is at most 250) accepts exactly the valid identifiers. */
  lemma ValidIdIff(s: string)
    ensures (MatchesIdPattern(s) && |s| <= MAX_ID_LENGTH) <==> ValidId(s)
  {
    if s != [] {
      MatchesStarIff(s[1..]);
      assert forall i :: 1 <= i < |s| ==> s[i] == s[1..][i - 1];
    }
  }

  /** The empty string is rejected: the pattern needs at least one character. */
  lemma EmptyIdRejected()
    ensures !ValidId("")
  {
  }

  /** 251 valid characters are still rejected by the length bound. */
  lemma OverlongIdRejected(s: string)
    requires |s| == MAX_ID_LENGTH + 1
    requires forall i :: 0 <= i < |s| ==> IsIdChar(s[i])
    ensures !ValidId(s)
  {
  }

  /** The exception `validateId` throws, with its message. */
  function InvalidId(name: string, value: string): Exception {
    IllegalArgumentException("Invalid " + name + ": " + value)
  }

  /** `validateId(id, name)`: passes or throws `IllegalArgumentException("Invalid <name>: <id>")`. */
  function ValidateId(id: string, name: string): (r: Outcome<Exception>)
    ensures r.Pass? <==> ValidId(id)
    ensures r.Fail? ==> r.error == InvalidId(name, id)
  {
    ValidIdIff(id);
    if !MatchesIdPattern(id) || |id| > MAX_ID_LENGTH then Fail(InvalidId(name, id)) else Pass
  }

  datatype AttachmentReference = AttachmentReference(rev: Long, contentType: string)

  /** A constructed business document; its getters are the fields. */
  datatype BusinessDocument = BusinessDocument(
    id: string,
    docType: string,
    rev: Long,
    attachments: Option<map<string, AttachmentReference>>)

  /** The three-argument constructor: a document without attachments. */
  function NewWithoutAttachments(id: string, docType: string, rev: Long): (r: Result<BusinessDocument, Exception>)
    ensures r.Success? <==> ValidId(id) && ValidId(docType)
    ensures r.Success? ==> r.value == BusinessDocument(id, docType, rev, None)
    ensures !ValidId(id) ==> r == Failure(InvalidId("document id", id))
    ensures ValidId(id) && !ValidId(docType) ==> r == Failure(InvalidId("document type", docType))
  {
    match ValidateId(id, "document id")
    case Fail(e) => Failure(e)
    case Pass =>
      match ValidateId(docType, "document type")
      case Fail(e) => Failure(e)
      case Pass => Success(BusinessDocument(id, docType, rev, None))
  }

  /**
   * The constructor's loop over the attachment names: returns the first invalid name
   * met (in whatever order the map is iterated), or `None` when all are valid.
   */
  method CheckAttachmentNames(names: set<string>) returns (bad: Option<string>)
    ensures bad.None? <==> forall name :: name in names ==> ValidId(name)
    ensures bad.Some? ==> bad.value in names && !ValidId(bad.value)
  {
    var remaining := names;
    while remaining != {}
      invariant remaining <= names
      invariant forall name :: name in names && name !in remaining ==> ValidId(name)
      decreases remaining
    {
      var name :| name in remaining;
      if !ValidId(name) {
        return Some(name);
      }
      remaining := remaining - {name};
    }
    return None;
  }

  /**
   * The four-argument constructor: validates the id, then the type, then every
   * attachment name, and only then sets the fields.
   */
  method New(id: string, docType: string, rev: Long, attachments: Option<map<string, AttachmentReference>>)
    returns (r: Result<BusinessDocument, Exception>)
    ensures r.Success? <==>
      ValidId(id) && ValidId(docType) && (attachments.Some? ==> forall name :: name in attachments.value ==> ValidId(name))
    ensures r.Success? ==> r.value == BusinessDocument(id, docType, rev, attachments)
    ensures !ValidId(id) ==> r == Failure(InvalidId("document id", id))
    ensures ValidId(id) && !ValidId(docType) ==> r == Failure(InvalidId("document type", docType))
    ensures ValidId(id) && ValidId(docType) && r.Failure? ==>
      attachments.Some? && exists name :: name in attachments.value && !ValidId(name) && r.error == InvalidId("attachment name", name)
    ensures attachments.None? ==> r == NewWithoutAttachments(id, docType, rev)
  {
    var idCheck := ValidateId(id, "document id");
    if idCheck.Fail? {
      return Failure(idCheck.error);
    }
    var typeCheck := ValidateId(docType, "document type");
    if typeCheck.Fail? {
      return Failure(typeCheck.error);
    }
    if attachments.Some? {
      var bad := CheckAttachmentNames(attachments.value.Keys);
      if bad.Some? {
        return Failure(InvalidId("attachment name", bad.value));
      }
    }
    r := Success(BusinessDocument(id, docType, rev, attachments));
  }
}
