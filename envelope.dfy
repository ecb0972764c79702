/**
 * The envelope every private call answers with, `{ response_data,
 * status_code }`, and how the client turns it into its result: the payload
 * on Success, an API error carrying the status otherwise.
 */
module Envelope {
  import opened Wrappers
  import opened Codes

  datatype Response<T> = Response(responseData: Option<T>, statusCode: ApiStatus)

  /** A transport or body-decoding failure, or a status other than Success. */
  datatype Error = RequestError | ApiError(status: ApiStatus)

  predicate IsSuccess<T>(resp: Response<T>)
    ensures IsSuccess(resp) <==> resp.statusCode.Code() == 100
  {
    match resp.statusCode
    case Success => true
    case _ => false
  }

  /**
   * The shared tail of the private calls. The payload of a successful
   * response is unwrapped, so its presence is the caller's obligation.
   */
  function Resolve<T>(resp: Response<T>): (r: Result<T, Error>)
    requires IsSuccess(resp) ==> resp.responseData.Some?
    ensures r.Ok? <==> resp.statusCode.Code() == 100
    ensures r.Ok? ==> resp.responseData == Some(r.value)
    ensures r.Err? ==> r.error == ApiError(resp.statusCode)
  {
    if IsSuccess(resp) then Ok(resp.responseData.value) else Err(ApiError(resp.statusCode))
  }

  /** Reading the envelope's two JSON fields: an unlisted status code fails the whole body. */
  function DecodeResponse<T>(data: Option<T>, code: u32): (r: Option<Response<T>>)
    ensures r.Some? <==> code in KnownCodes
    ensures r.Some? ==> r.value.responseData == data && r.value.statusCode.Code() == code
  {
    match DecodeApiStatus(code)
    case None => None
    case Some(status) => Some(Response(data, status))
  }

  /**
   * A private call's outcome from the decoded JSON fields: a body that does
   * not decode is a request error, as the JSON reader reports it.
   */
  function Receive<T>(data: Option<T>, code: u32): (r: Result<T, Error>)
    requires code == 100 ==> data.Some?
    ensures (r.Err? && r.error.RequestError?) <==> code !in KnownCodes
    ensures r.Ok? <==> code == 100
    ensures r.Ok? ==> data == Some(r.value)
    ensures r.Err? && r.error.ApiError? ==> r.error.status.Code() == code && code != 100
  {
    match DecodeResponse(data, code)
    case None => Err(RequestError)
    case Some(resp) => Resolve(resp)
  }
}
