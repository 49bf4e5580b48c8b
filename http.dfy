/** The HTTP status rules the script applies: `raise_for_status()` after the
    image download and the two upload requests, and the special case of the
    folder creation, where "already exists" counts as success. */
module Http {

  /** What a request gave back: a response with a status code, or an
      exception raised while the request or the reading of its reply was
      under way (connection failure, timeout, malformed URL, or, for the
      upload-link request, a reply body that is not a JSON object). */
  datatype Response = Status(code: int) | ConnectionFailed

  /** `raise_for_status()` raises exactly for client errors (4xx) and server
      errors (5xx). */
  predicate RaisesForStatus(code: int)
  {
    400 <= code < 600
  }

  /** A request followed by `raise_for_status()` lets the script go on. */
  predicate RequestPasses(r: Response)
  {
    r.Status? && !RaisesForStatus(r.code)
  }

  /** `create_folder_on_yadisk`: statuses 201 (created) and 409 (already
      exists) are accepted outright, any other status is handed to
      `raise_for_status()`. So folder creation fails exactly for 4xx and 5xx
      statuses other than 409, and it differs from the plain
      `raise_for_status()` rule only in accepting 409. */
  function FolderCreated(r: Response): (ok: bool)
    ensures ok <==> r.Status? && (r.code == 201 || r.code == 409 || r.code < 400 || 600 <= r.code)
    ensures ok <==> RequestPasses(r) || r == Status(409)
  {
    r.Status? && (r.code in {201, 409} || !RaisesForStatus(r.code))
  }
}
