/**
 * Values shared by both entry points of the TrusGuard blacklist connector:
 * optional values, the HTTP replies the firewall gives, the errors a flow
 * can end with, and the outbound requests a flow makes.
 */
module Common {

  datatype Option<+T> = None | Some(value: T) {
    function GetOr(default: T): T {
      match this
      case Some(v) => v
      case None => default
    }
  }

  /** A response body as text (JSON is kept as its text). */
  type Body = string

  /** A blacklist CSV record: an ordered sequence of fields. */
  type Row = seq<string>

  /**
   * What one HTTP call to the firewall gives back. `Response` carries the
   * status code, the body text and, when the call site decodes JSON and
   * decoding gives a value, that value (None when the content type is not
   * JSON or decoding fails where the call site falls back to the text).
   * `TransportError` stands for every exception the call raises: a network
   * failure, a timeout, or a JSON decode error where the call site does not
   * catch one.
   */
  datatype Reply<+J> =
    | Response(status: int, text: Body, json: Option<J>)
    | TransportError(cause: string)

  /** A reply with HTTP status 200. */
  predicate Accepted<J>(reply: Reply<J>) {
    reply.Response? && reply.status == 200
  }

  /** The `response_code` / `response_text` / `response` record of upload.py. */
  datatype ResponseDetail = ResponseDetail(responseCode: int, responseText: Body, response: Option<Body>)

  /** The errors a flow raises; the top-level handler turns each into `str(err)`. */
  datatype Error =
    | MissingEndDate                                      // no or empty `enddate`
    | MissingFileIris                                     // no or empty `fileiris`
    | LoginFailed(attempts: nat, lastLoginJson: Option<Body>) // "Login failed after N attempts, ..."
    | LoginJsonUnbound                                    // `login_json` read before any assignment
    | ArtifactUnreadable(iri: Option<string>, cause: string)  // download or CSV read failed
    | NoFileIri                                           // upload flow without `fileiri`
    | NoMergedData                                        // merge produced no rows
    | UploadFailed(text: Body)                            // delete/merge flow: non-200 upload
    | UploadRejected(detail: ResponseDetail)              // upload flow: non-200 upload
    | BulkFailed(text: Body)                              // delete/merge flow: non-200 bulk apply
    | BulkRejected(detail: ResponseDetail)                // upload flow: non-200 bulk apply
    | EndDateUnparsable(s: string)                        // `strptime(s, "%Y-%m-%d")` rejected s
    | InvalidEndDate(s: string)                           // "Invalid end_date: ..."
    | RequestRaised(cause: string)                        // an uncaught exception of an HTTP call

  /** An outbound request (or artifact download) a flow makes, in order. */
  datatype Call =
    | TokenRequest(attempt: nat)
    | LoginRequest(attempt: nat, token: string)
    | Download(iri: string)
    | Upload(rows: seq<Row>)
    | Search
    | Delete(index: int)
    | Bulk(description: string)
    | Logout(token: string)

  /** A stage's value or the error that ended the flow. */
  datatype Result<+T> = Ok(value: T) | Err(error: Error)
}
