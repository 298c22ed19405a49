/** `HttpResult`: what a handler returns, a status code with an optional body. */
module HttpResults {
  import opened Wrappers
  import opened Values

  /** The sealed hierarchy; every body defaults to `null`. */
  datatype HttpResult =
    | Ok(body: Option<Value> := None)
    | Created(body: Option<Value> := None)
    | BadRequest(body: Option<Value> := None)
    | Unauthorized(body: Option<Value> := None)
    | Forbidden(body: Option<Value> := None)
    | NotFound(body: Option<Value> := None)
    | InternalServerError(body: Option<Value> := None)
  {
    /** `statusCode`: fixed per variant, one of the seven recognised codes. */
    function StatusCode(): (code: int)
      ensures code in {200, 201, 400, 401, 403, 404, 500}
    {
      match this
      case Ok(_) => 200
      case Created(_) => 201
      case BadRequest(_) => 400
      case Unauthorized(_) => 401
      case Forbidden(_) => 403
      case NotFound(_) => 404
      case InternalServerError(_) => 500
    }
  }

  /** The variant that carries a status code. */
  function FromStatus(code: int, body: Option<Value>): (r: Option<HttpResult>)
    ensures r.Some? <==> code in {200, 201, 400, 401, 403, 404, 500}
  {
    if code == 200 then Some(Ok(body))
    else if code == 201 then Some(Created(body))
    else if code == 400 then Some(BadRequest(body))
    else if code == 401 then Some(Unauthorized(body))
    else if code == 403 then Some(Forbidden(body))
    else if code == 404 then Some(NotFound(body))
    else if code == 500 then Some(InternalServerError(body))
    else None
  }

  /** The status code and body identify the result: no two variants share a code. */
  lemma StatusCodeIdentifiesVariant(r: HttpResult)
    ensures FromStatus(r.StatusCode(), r.body) == Some(r)
  {
  }

  /** The variants' codes: 200, 201, 400, 401, 403, 404 and 500, and `null` bodies by default. */
  lemma StatusCodes()
    ensures Ok().StatusCode() == 200 && Created().StatusCode() == 201
    ensures BadRequest().StatusCode() == 400 && Unauthorized().StatusCode() == 401
    ensures Forbidden().StatusCode() == 403 && NotFound().StatusCode() == 404
    ensures InternalServerError().StatusCode() == 500
    ensures Ok().body.None? && NotFound().body.None?
  {
  }
}
