/** The error classes of `src/utils/errors.js`: an `AppError` carries an HTTP
    status code and derives from it whether it is a client failure ("fail",
    any code whose decimal form starts with '4') or a server error ("error");
    three subclasses fix the code. */
module Errors {
  import Decimal

  const StatusFail: string := "fail"
  const StatusError: string := "error"

  datatype AppError = AppError(message: string, statusCode: int, status: string, isOperational: bool)

  /** The status an error code maps to: "fail" when the code's decimal
      form starts with the digit 4, "error" otherwise. That is, a positive
      code whose most significant digit is 4 is a client failure; every
      other code, zero and negative ones included, is a server error. */
  function StatusFor(statusCode: int): (s: string)
    ensures s == StatusFail || s == StatusError
    ensures s == StatusFail <==> statusCode > 0 && Decimal.LeadingDigit(statusCode) == 4
  {
    Decimal.LeadsWithFour(statusCode);
    if Decimal.IntToString(statusCode)[0] == '4' then StatusFail else StatusError
  }

  /** `new AppError(message, statusCode)`: an operational error whose status
      follows from its code. */
  function NewAppError(message: string, statusCode: int): (e: AppError)
    ensures e.message == message && e.statusCode == statusCode
    ensures e.status == StatusFor(statusCode)
    ensures e.status == StatusFail <==> statusCode > 0 && Decimal.LeadingDigit(statusCode) == 4
    ensures e.isOperational
  {
    AppError(message, statusCode, StatusFor(statusCode), true)
  }

  /** For three-digit HTTP codes: "fail" exactly for the 4xx range. */
  lemma StatusOfHttpCode(statusCode: int)
    requires 100 <= statusCode < 1000
    ensures StatusFor(statusCode) == StatusFail <==> 400 <= statusCode < 500
  {
    Decimal.ThreeDigitLeading(statusCode);
  }

  /** `new ValidationError(message)`: status code 400. */
  function ValidationError(message: string): (e: AppError)
    ensures e.message == message && e.statusCode == 400
    ensures e.status == StatusFail && e.isOperational
  {
    StatusOfHttpCode(400);
    NewAppError(message, 400)
  }

  /** `new NotFoundError(message)`: status code 404. */
  function NotFoundError(message: string): (e: AppError)
    ensures e.message == message && e.statusCode == 404
    ensures e.status == StatusFail && e.isOperational
  {
    StatusOfHttpCode(404);
    NewAppError(message, 404)
  }

  /** `new ConflictError(message)`: status code 409. */
  function ConflictError(message: string): (e: AppError)
    ensures e.message == message && e.statusCode == 409
    ensures e.status == StatusFail && e.isOperational
  {
    StatusOfHttpCode(409);
    NewAppError(message, 409)
  }
}
