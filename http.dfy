/** The JSON request/response shapes the route handlers share.

    A request body is a JSON object whose values are strings; a request with
    no JSON body at all is the empty object. A handler answers with either a
    success payload or one of the two client errors the routes use. */
module Http {

  datatype Option<+T> = None | Some(value: T)

  /** A JSON request body: field name to string value. */
  type Body = map<string, string>

  /** What `data.get(key)` yields: the value, or None when the key is absent. */
  function Field(body: Body, key: string): (r: Option<string>)
    ensures r.Some? <==> key in body
    ensures r.Some? ==> r.value == body[key]
  {
    if key in body then Some(body[key]) else None
  }

  /** The negation of `not data or not data.get(key)`: the field is there and
      is not the empty string. */
  predicate Present(body: Body, key: string)
    ensures Present(body, key) <==> Field(body, key).Some? && Field(body, key).value != ""
  {
    key in body && body[key] != ""
  }

  /** The response envelope: `{success: true, ...}` with status 200, or
      `{success: false, error}` with status 400 or 404. */
  datatype Response<+T> =
    | Ok(payload: T)
    | BadRequest(error: string)
    | NotFound(error: string)
  {
    /** The `success` flag of the JSON body. */
    predicate Success()
    {
      Ok?
    }

    /** The HTTP status code that accompanies the body. */
    function Code(): (c: int)
      ensures c == 200 <==> Success()
      ensures c == 400 <==> BadRequest?
      ensures c == 404 <==> NotFound?
    {
      match this
      case Ok(_) => 200
      case BadRequest(_) => 400
      case NotFound(_) => 404
    }
  }
}
