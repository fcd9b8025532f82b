/**
 * The part of an HTTP exchange the handlers decide: a refusal is a status
 * code with the text http.Error writes.
 */
module Http {
  const BadRequest: nat := 400
  const Unauthorized: nat := 401
  const Forbidden: nat := 403
  const NotFound: nat := 404
  const MethodNotAllowed: nat := 405
  const InternalServerError: nat := 500
  const ServiceUnavailable: nat := 503

  /** A handler's refusal: the status and message it writes before returning. */
  datatype Rejection = Rejection(status: nat, message: string)

  /** The request methods the handlers tell apart. */
  datatype Verb = Get | Post | OtherVerb
}
