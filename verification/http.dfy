/** The error responses the backend routers produce. */
module Http {

  /** An HTTP error response.
      - NotFound: an `HTTPException` with status 404 and the given detail text.
      - Unprocessable: FastAPI's 422 when a query parameter breaks its declared bound.
      - Internal: a 500, raised when Python fails at run time (a `TypeError` on a NULL
        column) or when a response does not validate against its response model. */
  datatype ApiError = NotFound(detail: string) | Unprocessable(parameter: string) | Internal

}
