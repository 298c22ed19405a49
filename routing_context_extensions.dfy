/** The `pathParam` combinators: a missing or unconvertible path parameter answers 404. */
module RoutingContextExtensions {
  import opened Wrappers
  import opened HttpResults

  /**
   * What calling a handler yields: a completed `CompletionStage<HttpResult>`, a failed
   * stage, or an exception thrown before any stage is returned.
   */
  datatype Stage = Completed(result: HttpResult) | FailedStage | Threw

  /**
   * `pathParam(name, extractor, body)`. The extractor's `None` is a thrown exception;
   * `body` runs outside the `try`, so what it throws is not turned into 404.
   */
  function PathParam<T>(params: map<string, string>, name: string, extractor: string -> Option<T>, body: T -> Stage)
    : (r: Stage)
    ensures name !in params ==> r == Completed(NotFound())
    ensures name in params && extractor(params[name]).None? ==> r == Completed(NotFound())
    ensures name in params && extractor(params[name]).Some? ==> r == body(extractor(params[name]).value)
  {
    if name !in params then Completed(NotFound())
    else match extractor(params[name])
      case None => Completed(NotFound())
      case Some(v) => body(v)
  }

  /** `pathParam(name, body)`: the raw string is handed on as it is. */
  function PathParamRaw(params: map<string, string>, name: string, body: string -> Stage): (r: Stage)
    ensures r == PathParam(params, name, s => Some(s), body)
    ensures name !in params ==> r == Completed(NotFound())
    ensures name in params ==> r == body(params[name])
  {
    PathParam(params, name, s => Some(s), body)
  }

  /** Either the answer is 404 and nothing else ran, or it is the continuation's own outcome on the extracted value. */
  lemma PathParamOutcomes<T>(params: map<string, string>, name: string, extractor: string -> Option<T>, body: T -> Stage)
    ensures var r := PathParam(params, name, extractor, body);
      (r == Completed(NotFound()) && (name !in params || extractor(params[name]).None?)) ||
      (name in params && extractor(params[name]).Some? && r == body(extractor(params[name]).value))
  {
  }

  /** A continuation that throws or fails is not turned into 404. */
  lemma ContinuationFailurePropagates<T>(params: map<string, string>, name: string, extractor: string -> Option<T>,
                                         body: T -> Stage)
    requires name in params && extractor(params[name]).Some?
    requires !body(extractor(params[name]).value).Completed?
    ensures !PathParam(params, name, extractor, body).Completed?
  {
  }
}
