/**
 * The global error handler: turns an error thrown by a handler into the JSON error envelope.
 * The error is logged to the console first, which is not part of this model.
 */
module ErrorHandler {
  import opened Wrappers
  import opened Truthiness

  const DefaultMessage := "Internal Server Error"
  const UniqueViolation := "P2002"
  const RecordNotFound := "P2025"

  /** The fields of a thrown error the handler reads; a missing field is `None`. */
  datatype Error = Error(statusCode: Option<int>, message: Option<string>, code: Option<string>,
                         stack: Option<string>)

  /** The response: its status and JSON body. `stack` is `None` when the body has no such field. */
  datatype ErrorEnvelope = ErrorEnvelope(status: int, success: bool, message: string, stack: Option<string>)

  /**
   * `errorHandler`: the error's own status and message when truthy, else 500 and the generic
   * message; a unique-constraint violation (P2002) is a 400 and a missing record (P2025) a 404,
   * whatever the error says; the stack is shown only when `NODE_ENV` is `development`.
   */
  function HandleError(err: Error, nodeEnv: Option<string>): (e: ErrorEnvelope)
    ensures !e.success
    ensures e.status != 0
    ensures err.code == Some(UniqueViolation) ==>
      e.status == 400 && e.message == "A record with this value already exists"
    ensures err.code == Some(RecordNotFound) ==> e.status == 404 && e.message == "Record not found"
    ensures err.code != Some(UniqueViolation) && err.code != Some(RecordNotFound) ==>
      && e.status == (if IntTruthy(err.statusCode) then err.statusCode.value else 500)
      && e.message == (if StringTruthy(err.message) then err.message.value else DefaultMessage)
    ensures e.stack.Some? ==> nodeEnv == Some("development") && e.stack == err.stack
    ensures nodeEnv == Some("development") ==> e.stack == err.stack
  {
    var status := IntOr(err.statusCode, 500);
    var message := StringOr(err.message, DefaultMessage);
    var (status, message) :=
      if err.code == Some(UniqueViolation) then (400, "A record with this value already exists")
      else (status, message);
    var (status, message) :=
      if err.code == Some(RecordNotFound) then (404, "Record not found")
      else (status, message);
    ErrorEnvelope(status, false, message, if nodeEnv == Some("development") then err.stack else None)
  }

  /**
   * Outside development the envelope never reveals the stack: two errors that differ only in
   * their stacks are answered identically.
   */
  lemma StackHiddenOutsideDevelopment(err1: Error, err2: Error, nodeEnv: Option<string>)
    requires nodeEnv != Some("development")
    requires err1.(stack := None) == err2.(stack := None)
    ensures HandleError(err1, nodeEnv) == HandleError(err2, nodeEnv)
  {
    assert err1.statusCode == err2.statusCode && err1.message == err2.message && err1.code == err2.code;
  }
}
