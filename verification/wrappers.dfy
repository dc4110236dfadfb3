/** Small result types shared by the endpoints and the codecs. */
module Wrappers {

  /** A value that may be absent; `None` plays the part of C#'s `null`. */
  datatype Option<+T> = None | Some(value: T)

  /** What an endpoint answers: HTTP 400 with a message, or HTTP 200 with a body. */
  datatype HttpResult<+T> = BadRequest(message: string) | Ok(value: T)
}
