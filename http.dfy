/** The JSON responses the route handlers send: `res.status(code).json(body)`. */
module Http {

  /** A body is either `{ errors: [...] }` or the handler's own JSON value. */
  datatype Body<T> = Errors(messages: seq<string>) | Json(value: T)

  datatype Response<T> = Response(status: int, body: Body<T>)

  function Error<T>(status: int, message: string): Response<T>
  {
    Response(status, Errors([message]))
  }
}
