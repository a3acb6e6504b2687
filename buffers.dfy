/** Capacities of the fixed-size buffers a connection owns and the result
    codes of the request machine. The header that declares them
    (http/http_conn.h) is not part of this model; these are the values and
    names it gives them. */
module Buffers {
  const READ_BUFFER_SIZE: nat := 2048
  const WRITE_BUFFER_SIZE: nat := 1024
  const FILENAME_LEN: nat := 200

  /** `HTTP_CODE`: what reading a request concluded. */
  datatype HttpCode =
    | NO_REQUEST | GET_REQUEST | BAD_REQUEST | NO_RESOURCE
    | FORBIDDEN_REQUEST | FILE_REQUEST | INTERNAL_ERROR | CLOSED_CONNECTION
}
