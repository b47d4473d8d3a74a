/** The envelopes exchanged between the engine and its worker. */
module Responses {
  import opened Text
  import opened Errors
  import opened Commands

  /** What a caller gets back: the significant bytes, an error or nil, and how
      long the request took (in clock units). */
  datatype Response = Response(bytes: GoString, error: Option<Error>, duration: int)

  /** A command together with the bytes its `Bytes` produced, handed to the worker. */
  datatype Request = Request(command: Command, bytes: GoString)

  /** Go's zero `Response`: no bytes, nil error, zero duration. */
  const ZeroResponse: Response := Response([], None, 0)

  /** A response that carries only an error, as `Response{Error: e}` does. */
  function ErrorResponse(e: Error): (r: Response)
    ensures r.error == Some(e) && r != ZeroResponse
    ensures r.bytes == [] && r.duration == 0
  {
    Response([], Some(e), 0)
  }
}
