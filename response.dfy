/** The reply envelopes of src/utils/response.js: success carries code 0, errors default to code 1. */
module ApiResponse {
  import opened Wrappers

  /** The uniform reply body `{ code, message, data }`; `data == None` is JSON null. */
  datatype Envelope<T> = Envelope(code: int, message: string, data: Option<T>)

  const SuccessCode := 0
  const DefaultErrorCode := 1

  /** `success(data = null, message = 'success')` */
  function Success<T>(data: Option<T> := None, message: string := "success"): (e: Envelope<T>)
    ensures e.code == SuccessCode && e.message == message && e.data == data
  {
    Envelope(SuccessCode, message, data)
  }

  /** `error(message = 'error', code = 1)` */
  function Error<T>(message: string := "error", code: int := DefaultErrorCode): (e: Envelope<T>)
    ensures e.code == code && e.message == message && e.data == None
  {
    Envelope(code, message, None)
  }

  /** Called with no arguments, the builders give data null with "success", and code 1 with "error". */
  lemma Defaults<T>()
    ensures Success<T>() == Envelope(0, "success", None)
    ensures Error<T>() == Envelope(1, "error", None)
  {
  }

  /** A client can tell the two apart by `code` alone unless an error is built with code 0. */
  lemma CodeSeparates<T>(data: Option<T>, message: string, message': string, code: int)
    requires code != SuccessCode
    ensures Success(data, message) != Error(message', code)
    ensures Error<T>(message', code).code != Success(data, message).code
  {
  }
}
