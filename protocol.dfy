/**
 * What both integration controllers share: the HTTP reply, the ETag that carries a
 * revision (`makeETag` / `parseRevision`), and how a store outcome becomes a reply.
 */
module Protocol {
  import opened Wrappers
  import opened Java
  import opened Documents
  import opened Updates

  /**
   * A handler's result: a `ResponseEntity` (status, optional ETag header, optional JSON
   * body), or an exception the handler does not catch and lets escape to the framework.
   */
  datatype Response =
    | Response(status: HttpStatus, etag: Option<string>, body: Option<Body>)
    | Uncaught(exception: Exception)

  const QUOTE: char := '"'

  /** `makeETag(rev)`: the decimal revision between double quotes. */
  function MakeETag(rev: Long): (etag: string)
    ensures |etag| >= 3 && etag[0] == QUOTE && etag[|etag| - 1] == QUOTE
    ensures etag[1..|etag| - 1] == LongToString(rev)
  {
    NatToDecimalDigits(if rev < 0 then -(rev as int) else rev);
    [QUOTE] + LongToString(rev) + [QUOTE]
  }

  /**
   * `parseRevision(etag)`: `Long.parseLong(etag.substring(1, etag.length() - 1))`. The
   * substring throws for a string shorter than two characters; the first and last
   * characters are dropped unchecked.
   */
  function ParseRevision(etag: string): (r: Result<Long, Exception>)
    ensures |etag| < 2 ==> r == Failure(StringIndexOutOfBoundsException)
    ensures |etag| >= 2 ==> r == ParseLong(etag[1..|etag| - 1])
    ensures r.Failure? ==> r.error == StringIndexOutOfBoundsException || r.error == NumberFormatException
  {
    if |etag| < 2 then Failure(StringIndexOutOfBoundsException)
    else ParseLong(etag[1..|etag| - 1])
  }

  /** The round trip: the revision in an ETag this adapter made parses back to itself. */
  lemma ParseRevisionOfMakeETag(rev: Long)
    ensures ParseRevision(MakeETag(rev)) == Success(rev)
  {
    ParseLongOfLongToString(rev);
  }

  /** Distinct revisions get distinct ETags. */
  lemma MakeETagInjective(a: Long, b: Long)
    ensures MakeETag(a) == MakeETag(b) ==> a == b
  {
    ParseRevisionOfMakeETag(a);
    ParseRevisionOfMakeETag(b);
  }

  /** Whatever the enclosing characters, quotes or not, only the middle is parsed. */
  lemma ParseRevisionIgnoresEnds(first: char, middle: string, last: char)
    ensures ParseRevision([first] + middle + [last]) == ParseLong(middle)
  {
    var etag := [first] + middle + [last];
    assert etag[1..|etag| - 1] == middle;
  }

  /** A middle that is not a signed decimal number is a `NumberFormatException`, never an update failure. */
  lemma ParseRevisionRejectsNonDigit(etag: string, i: int)
    requires 1 <= i < |etag| - 1
    requires !IsDigit(etag[i])
    requires !(i == 1 && (etag[i] == '-' || etag[i] == '+'))
    ensures ParseRevision(etag) == Failure(NumberFormatException)
  {
    var middle := etag[1..|etag| - 1];
    assert middle[i - 1] == etag[i];
    ParseLongRejectsNonDigit(middle, i - 1);
  }

  /** A failed store call as a reply: an `UpdateException` answers with its own status; anything else escapes. */
  function FailureResponse(f: Failure): (resp: Response)
    ensures f.UpdateException? ==> resp.Response? && resp.status == f.status && resp.etag.None? && resp.body.None?
    ensures f.Unchecked? ==> resp == Uncaught(f.exception)
  {
    match f
    case UpdateException(status) => Response(status, None, None)
    case Unchecked(e) => Uncaught(e)
  }

  /**
   * `getDocument` after `retrieve`: 404 for `null`, otherwise 200 with the body and the
   * ETag of its `_rev` member; a body without `_rev` fails on the null member.
   */
  function GetResponse(retrieved: Option<Body>): (resp: Response)
    ensures retrieved.None? ==> resp == Response(NOT_FOUND, None, None)
    ensures retrieved.Some? && retrieved.value.rev.Some? ==>
      resp.Response? && resp.status.Code() == 200 &&
      resp.etag == Some(MakeETag(retrieved.value.rev.value)) && resp.body == retrieved
    ensures retrieved.Some? && retrieved.value.rev.None? ==> resp == Uncaught(NullPointerException)
  {
    match retrieved
    case None => Response(NOT_FOUND, None, None)
    case Some(json) =>
      match json.rev
      case None => Uncaught(NullPointerException)
      case Some(revision) => Response(OK, Some(MakeETag(revision)), Some(json))
  }

  /** `insertDocument` after `insert`: 201 with the ETag of the new revision, or the failure's reply. */
  function InsertResponse(outcome: Result<Long, Failure>): (resp: Response)
    ensures outcome.Success? ==>
      resp.Response? && resp.status.Code() == 201 && resp.etag == Some(MakeETag(outcome.value)) && resp.body.None?
    ensures outcome.Failure? ==> resp == FailureResponse(outcome.error)
  {
    match outcome
    case Success(revision) => Response(CREATED, Some(MakeETag(revision)), None)
    case Failure(f) => FailureResponse(f)
  }

  /** `updateDocument` after `update`: 204 with the ETag of the new revision, or the failure's reply. */
  function UpdateResponse(outcome: Result<Long, Failure>): (resp: Response)
    ensures outcome.Success? ==>
      resp.Response? && resp.status.Code() == 204 && resp.etag == Some(MakeETag(outcome.value)) && resp.body.None?
    ensures outcome.Failure? ==> resp == FailureResponse(outcome.error)
  {
    match outcome
    case Success(revision) => Response(NO_CONTENT, Some(MakeETag(revision)), None)
    case Failure(f) => FailureResponse(f)
  }

  /** `deleteDocument` after `delete`: 204 without an ETag, or the failure's reply. */
  function DeleteResponse(outcome: Outcome<Failure>): (resp: Response)
    ensures outcome.Pass? ==> resp == Response(NO_CONTENT, None, None)
    ensures outcome.Fail? ==> resp == FailureResponse(outcome.error)
  {
    match outcome
    case Pass => Response(NO_CONTENT, None, None)
    case Fail(f) => FailureResponse(f)
  }
}
