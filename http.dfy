/** Outcomes of controller actions, reduced to what the JSON envelope decides. */
module Http {
  /**
   * `Success` is `{success: true, ...}` with its status, `Failure` is
   * `{success: false, error: {code, ...}}`, and `ModelNotFound` is the
   * framework's own 404 page for `findOrFail`/`firstOrFail`, and `ServerError`
   * the framework's 500 page for an uncaught exception (such as a database
   * constraint violation), and `Unprocessable` the framework's own 422 body
   * (`{message, errors}`) that `$request->validate` answers with.
   */
  datatype Response = Success(status: nat) | Failure(status: nat, code: string) | ModelNotFound | ServerError | Unprocessable
  {
    predicate IsSuccess()
    {
      Success?
    }
  }

  const Ok: Response := Success(200)
  const Created: Response := Success(201)
  const ValidationError: Response := Failure(422, "VALIDATION_ERROR")
}
