/**
 * The HTTP success wrapper: data plus a status code, turned into a reply
 * whose JSON body is the data unchanged.
 */
module Responses {

  const StatusOk: nat := 200
  const StatusCreated: nat := 201

  /** `Response<T>`. */
  datatype Response<T> = Response(data: T, status: nat)

  /** What goes on the wire: a status line and a JSON body. */
  datatype Reply<T> = Reply(status: nat, body: T)

  /** The paginated list body: the page's records, the total, and the page asked for. */
  datatype PaginatedResponse<T> = PaginatedResponse(data: seq<T>, total: nat, page: nat)

  /** `Response::ok`. */
  function Ok<T>(data: T): (r: Response<T>)
    ensures IntoResponse(r) == Reply(200, data)
  {
    Response(data, StatusOk)
  }

  /** `Response::created`. */
  function Created<T>(data: T): (r: Response<T>)
    ensures IntoResponse(r) == Reply(201, data)
  {
    Response(data, StatusCreated)
  }

  /** `Response::deleted`: 200 with the data, not 204. */
  function Deleted<T>(data: T): (r: Response<T>)
    ensures IntoResponse(r) == Reply(200, data)
  {
    Response(data, StatusOk)
  }

  /** `Response::with_status`. */
  function WithStatus<T>(data: T, status: nat): (r: Response<T>)
    ensures IntoResponse(r) == Reply(status, data)
  {
    Response(data, status)
  }

  /** `into_response`: the stored status and the data as the body. */
  function IntoResponse<T>(r: Response<T>): Reply<T>
  {
    Reply(r.status, r.data)
  }

  /**
   * Every response is a `with_status` response, and the reply gives back
   * exactly what it was built from; `deleted` cannot be told from `ok`.
   */
  lemma ReplyRoundTrip<T>(r: Response<T>, data: T)
    ensures WithStatus(IntoResponse(r).body, IntoResponse(r).status) == r
    ensures Deleted(data) == Ok(data) && Created(data) != Ok(data)
  {
  }
}
