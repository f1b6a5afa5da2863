/**
 * `toError` (`pkg/util/ErrorUtil.ts`): turns whatever was thrown into an
 * `Error` object.
 */
module ErrorUtil {
  import opened Common

  /** A JavaScript `Error`: its message and its optional `cause`. */
  class ErrorObject {
    var message: string
    var cause: Option<Thrown>

    /** `new Error(message)`. */
    constructor(message: string)
      ensures this.message == message && cause.None?
    {
      this.message := message;
      cause := None;
    }
  }

  /**
   * A thrown value: an `Error` object, a string, or any other value
   * (a number, an object, `null`, `undefined`), which is kept only as a
   * description of itself.
   */
  datatype Thrown = ErrorValue(error: ErrorObject) | StringValue(s: string) | OtherValue(description: string)

  const UnknownErrorMessage: string := "unknown error"

  /**
   * `toError(rawError)`: an `Error` comes back as the same object, untouched;
   * a string becomes a new `Error` with that message; anything else becomes a
   * new `Error` with message "unknown error" whose `cause` is the raw value.
   */
  method ToError(rawError: Thrown) returns (e: ErrorObject)
    ensures rawError.ErrorValue? ==> e == rawError.error
    ensures rawError.StringValue? ==> fresh(e) && e.message == rawError.s && e.cause.None?
    ensures rawError.OtherValue? ==> fresh(e) && e.message == UnknownErrorMessage && e.cause == Some(rawError)
  {
    if rawError.ErrorValue? {
      return rawError.error;
    } else if rawError.StringValue? {
      e := new ErrorObject(rawError.s);
    } else {
      e := new ErrorObject(UnknownErrorMessage);
      e.cause := Some(rawError);
    }
  }
}
