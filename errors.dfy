/** The error taxonomy (src/services/database/errors.ts) and the plain errors the service throws. */
module Errors {
  import opened Wrappers

  /** Every failure a service operation can raise. */
  datatype DbError =
    | NotFound(resource: string)     // NotFoundError
    | Validation(msg: string)        // ValidationError
    | DataIntegrity(msg: string)     // DataIntegrityError
    | NotInitialized(msg: string)    // plain Error: no storage handle

  /** The readonly fields of a `DatabaseError`. */
  datatype ErrorInfo = ErrorInfo(message: string, code: string, statusCode: int)

  const NotFoundCode := "RESOURCE_NOT_FOUND"
  const ValidationCode := "VALIDATION_ERROR"
  const DataIntegrityCode := "DATA_INTEGRITY_ERROR"

  /** The base constructor: `statusCode` defaults to 500 when not given. */
  function DatabaseError(message: string, code: string, statusCode: Option<int>): ErrorInfo {
    ErrorInfo(message, code, if statusCode.Some? then statusCode.value else 500)
  }

  /** The `DatabaseError` fields of an error, or None for a plain `Error`. */
  function Info(e: DbError): Option<ErrorInfo> {
    match e
    case NotFound(resource) => Some(DatabaseError(resource + " not found", NotFoundCode, Some(404)))
    case Validation(msg) => Some(DatabaseError(msg, ValidationCode, Some(400)))
    case DataIntegrity(msg) => Some(DatabaseError(msg, DataIntegrityCode, Some(500)))
    case NotInitialized(_) => None
  }

  /** The `message` every error carries. */
  function Message(e: DbError): string {
    match e
    case NotFound(resource) => resource + " not found"
    case Validation(msg) => msg
    case DataIntegrity(msg) => msg
    case NotInitialized(msg) => msg
  }

  /** The three subclasses are exactly the `DatabaseError`s; `message` agrees with `Message`. */
  lemma DatabaseErrorsAreTheThreeKinds(e: DbError)
    ensures Info(e).Some? <==> (e.NotFound? || e.Validation? || e.DataIntegrity?)
    ensures Info(e).Some? ==> Info(e).value.message == Message(e)
  {
  }

  /** The base constructor defaults its status to 500 and keeps a given one. */
  lemma DefaultStatus(message: string, code: string, status: int)
    ensures DatabaseError(message, code, None).statusCode == 500
    ensures DatabaseError(message, code, Some(status)).statusCode == status
    ensures DatabaseError(message, code, None).message == message
  {
  }

  /** The codes are distinct, so a caller can tell the kind of a `DatabaseError` from its code alone. */
  lemma CodeDiscriminates(e1: DbError, e2: DbError)
    requires Info(e1).Some? && Info(e2).Some?
    requires Info(e1).value.code == Info(e2).value.code
    ensures e1.NotFound? == e2.NotFound?
    ensures e1.Validation? == e2.Validation?
    ensures e1.DataIntegrity? == e2.DataIntegrity?
  {
    assert NotFoundCode[0] != ValidationCode[0] && ValidationCode[0] != DataIntegrityCode[0];
    assert NotFoundCode[0] != DataIntegrityCode[0];
  }

  /** Status classifies the kinds: 404 not found, 400 validation, 500 integrity. */
  lemma StatusClassifies(e: DbError)
    requires Info(e).Some?
    ensures Info(e).value.statusCode == 404 <==> e.NotFound?
    ensures Info(e).value.statusCode == 400 <==> e.Validation?
    ensures Info(e).value.statusCode == 500 <==> e.DataIntegrity?
  {
  }

  /** A `NotFoundError` message names its resource unambiguously. */
  lemma {:induction false} NotFoundMessageInjective(r1: string, r2: string)
    requires Message(NotFound(r1)) == Message(NotFound(r2))
    ensures r1 == r2
  {
    var m := Message(NotFound(r1));
    assert |r1| == |r2|;
    assert r1 == m[..|r1|];
    assert r2 == m[..|r2|];
  }

  /** Validation and integrity errors keep the message they were given, unchanged. */
  lemma {:induction false} MessageKept(e1: DbError, e2: DbError)
    requires e1.Validation? || e1.DataIntegrity?
    requires (e1.Validation? && e2.Validation?) || (e1.DataIntegrity? && e2.DataIntegrity?)
    requires Info(e1) == Info(e2)
    ensures e1 == e2
  {
  }
}
