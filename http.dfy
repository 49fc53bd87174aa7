/** What an HTTP GET to an upstream provider can come back with, as the
    services see it. Transport, body reading and JSON decoding are not
    modelled: the reply records their outcomes. */
module Http {
  import opened Wrappers

  const StatusOK := 200
  const StatusBadRequest := 400
  const StatusUnauthorized := 401
  const StatusNotFound := 404
  const StatusInternalServerError := 500

  /** `GetFailed` is an error from `client.Get`. Otherwise the provider answered
      with `code` (and its status line `status`); `body` is what reading the
      body produced, `readError` whether that read failed, and `decoded` the
      outcome of unmarshalling the body into the expected record. */
  datatype Reply<T> =
    | GetFailed(reason: string)
    | Received(code: int, status: string, body: string, readError: Option<string>, decoded: Result<T, string>)
}
