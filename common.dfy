/** The result envelope every operation of the service and of the command
    handlers returns, and the two shapes the command pipeline passes
    between a handler's validation step and its handling step. */
module Common {

  datatype Option<T> = None | Some(value: T)

  /** The uniform result envelope: a success flag, an optional payload,
      a message, a dictionary of field errors and the dictionary of
      additional properties (used for advisories under the key "error"). */
  datatype Response<T> = Response(
    succeeded: bool,
    payload: Option<T>,
    message: string,
    errors: map<string, seq<string>>,
    extra: map<string, seq<string>>)

  /** What a handler's validation step produces: it lets the command
      through, answers with an error response, or throws. */
  datatype Step<T> = Pass | Reject(response: Response<T>) | Throw(exception: string)

  /** What a whole command execution produces: a response or an
      exception that leaves the handler. */
  datatype Outcome<T> = Returned(response: Response<T>) | Threw(exception: string)

  const NullReference := "NullReferenceException"
  const ArgumentNull := "ArgumentNullException"
  const InvalidOperation := "InvalidOperationException"
}
