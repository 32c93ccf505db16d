/** What the upstream REST API hands back to the handlers, and the status a failed
    call reports to the browser. */
module Upstream {
  import opened Wrappers

  /** A response body, kept opaque. */
  type Body = string

  /** The HTTP response carried by a failed upstream call. */
  datatype ErrorResponse = ErrorResponse(status: nat, data: Option<Body>)

  /** A rejected upstream call: `response` is None when no response arrived at all. */
  datatype UpstreamError = UpstreamError(response: Option<ErrorResponse>)

  /** `error.response?.status || 500`: the upstream status when there is one (a
      status of 0 is falsy and counts as none), 500 otherwise. */
  function ErrorStatus(e: UpstreamError): (status: nat)
    ensures status != 0
    ensures e.response.Some? && e.response.value.status != 0 ==> status == e.response.value.status
    ensures e.response.None? || e.response.value.status == 0 ==> status == 500
  {
    match e.response
    case Some(r) => if r.status != 0 then r.status else 500
    case None => 500
  }

  /** `error.response?.data`: the body of the upstream response, absent when no
      response arrived. */
  function ErrorDetails(e: UpstreamError): (details: Option<Body>)
    ensures e.response.None? ==> details.None?
    ensures e.response.Some? ==> details == e.response.value.data
  {
    match e.response
    case Some(r) => r.data
    case None => None
  }
}
