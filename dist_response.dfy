/** The variant envelopes of dist/utils/response.js: success carries code 200, errors default to 500. */
module DistApiResponse {
  import opened Wrappers
  import opened ApiResponse

  const DistSuccessCode := 200
  const DistDefaultErrorCode := 500

  /** `success(data = null, message = 'success')` with code 200 */
  function DistSuccess<T>(data: Option<T> := None, message: string := "success"): (e: Envelope<T>)
    ensures e.code == DistSuccessCode && e.message == message && e.data == data
  {
    Envelope(DistSuccessCode, message, data)
  }

  /** `error(message = 'error', status = 500)`: the status becomes the envelope's code. */
  function DistError<T>(message: string := "error", status: int := DistDefaultErrorCode): (e: Envelope<T>)
    ensures e.code == status && e.message == message && e.data == None
  {
    Envelope(status, message, None)
  }

  lemma DistDefaults<T>()
    ensures DistSuccess<T>() == Envelope(200, "success", None)
    ensures DistError<T>() == Envelope(500, "error", None)
  {
  }

  /** The variant differs from the src builders only in its codes. */
  lemma DistDiffersOnlyInCode<T>(data: Option<T>, message: string, status: int)
    ensures DistSuccess(data, message) == Success(data, message).(code := 200)
    ensures DistError<T>(message, status) == Error<T>(message, status)
    ensures DistError<T>(message) == Error<T>(message).(code := 500)
  {
  }
}
