/** The two shapes every handler deals in: a value that may be NULL, and
    the HTTP reply it sends. */
module Basics {

  /** SQL NULL, or a request-body field the client did not send, is `None`. */
  datatype Option<+T> = None | Some(value: T)

  /** A handler's answer: `{success: true, ...}` with its payload, or
      `{error: message}` under a non-2xx HTTP status. */
  datatype Reply<+T> = Ok(value: T) | Err(status: nat, message: string)
}
