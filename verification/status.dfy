/** The gRPC status codes the todo service answers with, and the shape of a handler's answer. */
module Status {

  /** The three codes of google.golang.org/grpc/codes the handlers use. */
  datatype Code = InvalidArgument | NotFound | Internal

  /** A response message, or an error that carries a status code (the message text is not modelled). */
  datatype Result<+T> = Ok(value: T) | Err(code: Code)
}
