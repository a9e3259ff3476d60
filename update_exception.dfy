/** The HTTP statuses an `UpdateException` carries, and how a store call can fail. */
module Updates {
  import opened Java

  datatype HttpStatus =
    | OK
    | CREATED
    | NO_CONTENT
    | FORBIDDEN
    | NOT_FOUND
    | METHOD_NOT_ALLOWED
    | CONFLICT
    | PRECONDITION_FAILED
    | REQUEST_ENTITY_TOO_LARGE
  {
    /** The numeric status code on the wire; each status has its own code, so the code identifies it. */
    function Code(): (c: nat)
      ensures 200 <= c < 500
      ensures c == 200 <==> this == OK
      ensures c == 201 <==> this == CREATED
      ensures c == 204 <==> this == NO_CONTENT
      ensures c == 403 <==> this == FORBIDDEN
      ensures c == 404 <==> this == NOT_FOUND
      ensures c == 405 <==> this == METHOD_NOT_ALLOWED
      ensures c == 409 <==> this == CONFLICT
      ensures c == 412 <==> this == PRECONDITION_FAILED
      ensures c == 413 <==> this == REQUEST_ENTITY_TOO_LARGE
    {
      match this
      case OK => 200
      case CREATED => 201
      case NO_CONTENT => 204
      case FORBIDDEN => 403
      case NOT_FOUND => 404
      case METHOD_NOT_ALLOWED => 405
      case CONFLICT => 409
      case PRECONDITION_FAILED => 412
      case REQUEST_ENTITY_TOO_LARGE => 413
    }
  }

  /** A store call fails with a checked `UpdateException` or with an unchecked exception. */
  datatype Failure = UpdateException(status: HttpStatus) | Unchecked(exception: Exception)
}
