/**
 * The parts of an `HttpServletRequest` the filters and controllers read: the
 * request URI, the headers they consult (`null` when absent) and the remote
 * address of the connection.
 */
module HttpRequest {
  import opened Wrappers

  datatype Request = Request(
    path: string,                   // getRequestURI()
    authorization: Option<string>,  // "Authorization"
    forwardedFor: Option<string>,   // "X-Forwarded-For"
    realIp: Option<string>,         // "X-Real-IP"
    userAgent: Option<string>,      // "User-Agent"
    remoteAddr: string)             // getRemoteAddr()
}
