/** The optional value used wherever the source has `undefined` or `null`. */
module Wrappers {

  datatype Option<+T> = None | Some(value: T)
}

/** What a request handler sends back: a JSON `{ success: true }` or an error with its status. */
module Http {

  datatype Reply = Success | Failure(status: int, error: string)

  /** Hono's answer when a handler throws (for instance when the body is not JSON). */
  const InternalError: Reply := Failure(500, "Internal Server Error")
}
