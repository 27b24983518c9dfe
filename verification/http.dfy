/** Status codes, error bodies and the shape of an endpoint's answer. */
module Http {

  datatype Header = Header(name: string, value: string)

  /** An `HTTPException` (or an uncaught error) as the client sees it. */
  datatype HttpError = HttpError(statusCode: int, detail: string, headers: seq<Header>)

  datatype Response<+T> = Success(statusCode: int, body: T) | Failure(error: HttpError)

  /** What a handler leaves behind: the store after the request and the response sent. */
  datatype Reply<+S, +T> = Reply(state: S, response: Response<T>)

  const StatusOk := 200
  const StatusCreated := 201
  const StatusBadRequest := 400
  const StatusUnauthorized := 401
  const StatusNotFound := 404
  const StatusInternalServerError := 500

  /** A database error no handler catches reaches the client as a bare 500. */
  const InternalServerError := HttpError(StatusInternalServerError, "Internal Server Error", [])
}
