/**
 * The negotiation engine of `RouteWithContentNegotiation`: choosing the negotiator that
 * decodes a request body (`withBody`), choosing the negotiator and MIME type of a response
 * (`respond`), and the status each path ends with. What Vert.x computes (the acceptable
 * content type, the parsed Accept list, the body bytes) arrives in a `Request`.
 */
module NegotiationEngine {
  import opened Wrappers
  import opened Values
  import opened MimeDetails
  import opened MimeDetailProperties
  import opened ContentNegotiation
  import opened HttpResults
  import opened RoutingContextExtensions

  /** One entry of `parsedHeaders().accept()`, in the order Vert.x ranked them. */
  datatype AcceptEntry = AcceptEntry(component: Option<string>, subComponent: Option<string>, charset: Option<string>)

  /** What the engine reads from the `RoutingContext`. */
  datatype Request = Request(
    contentType: Option<string>,           // the `Content-Type` header
    acceptableContentType: Option<string>, // picked by Vert.x among the route's `produces`
    accept: seq<AcceptEntry>,              // the parsed `Accept` header
    body: Option<Bytes>,                   // `null` when no body handler collected it
    pathParams: map<string, string>)

  /** How a request ends: a response is sent, or the context is handed to `fail(e)`. */
  datatype Response = Sent(status: int, contentType: Option<string>, body: Bytes) | Failed

  /** What `withBody` and `respond` can throw: a MIME error, or `first()` on an empty negotiator list. */
  datatype Thrown = MimeThrew(error: MimeError) | NoSuchElement

  /** `setStatusCode(400).end()`. */
  const BadRequestResponse: Response := Sent(400, None, [])

  /** `setStatusCode(500).end()`. */
  const ServerErrorResponse: Response := Sent(500, None, [])

  /** `firstOrNull`/`indexOfFirst`: the index of the first element satisfying `p`, or `|xs|`. */
  function FirstWhere<T>(xs: seq<T>, p: T -> bool): (i: nat)
    ensures i <= |xs|
    ensures forall j :: 0 <= j < i ==> !p(xs[j])
    ensures i < |xs| ==> p(xs[i])
  {
    if xs == [] then 0
    else if p(xs[0]) then 0
    else 1 + FirstWhere(xs[1..], p)
  }

  /** A match found in a prefix is not affected by what follows it. */
  lemma {:induction false} FirstWhereAppend<T>(xs: seq<T>, ys: seq<T>, p: T -> bool)
    requires FirstWhere(xs, p) < |xs|
    ensures FirstWhere(xs + ys, p) == FirstWhere(xs, p)
  {
    if !p(xs[0]) {
      assert (xs + ys)[1..] == xs[1..] + ys;
      FirstWhereAppend(xs[1..], ys, p);
    }
  }

  function AcceptsType(m: MimeDetail): ContentNegotiator -> bool
  {
    (n: ContentNegotiator) => Supports(n.accepts, m)
  }

  function ProducesType(m: MimeDetail): ContentNegotiator -> bool
  {
    (n: ContentNegotiator) => Supports(n.produces, m)
  }

  //
  // Request body
  //

  /**
   * The negotiator `withBody` decodes with, as an index: the first one when the
   * Content-Type is missing or unparsable (`first()` throws on an empty list), else the
   * first whose `accepts` supports it, or none.
   */
  function BodyNegotiator(negotiators: seq<ContentNegotiator>, mime: Option<MimeDetail>): (r: Result<Option<nat>, Thrown>)
    ensures r.Failure? <==> mime.None? && negotiators == []
    ensures r.Failure? ==> r.error == NoSuchElement
    ensures r.Success? && r.value.Some? ==> r.value.value < |negotiators|
    ensures mime.None? && negotiators != [] ==> r == Success(Some(0))
    ensures mime.Some? ==>
      (r == Success(None) <==> forall j :: 0 <= j < |negotiators| ==> !Supports(negotiators[j].accepts, mime.value))
    ensures mime.Some? && r.Success? && r.value.Some? ==>
      Supports(negotiators[r.value.value].accepts, mime.value) &&
      forall j :: 0 <= j < r.value.value ==> !Supports(negotiators[j].accepts, mime.value)
  {
    match mime
    case None => if negotiators == [] then Failure(NoSuchElement) else Success(Some(0))
    case Some(m) =>
      var i := FirstWhere(negotiators, AcceptsType(m));
      Success(if i < |negotiators| then Some(i) else None)
  }

  /** Where decoding the body leaves `withBody`: answer 400, `fail(e)`, or call the handler. */
  datatype BodyStep = Rejected | BodyFailed | Decoded(value: Value)

  /** The decoding part of `withBody`, up to the call of the handler. */
  function DecodeBody(negotiators: seq<ContentNegotiator>, req: Request, target: Class): (r: BodyStep)
    ensures var sel := BodyNegotiator(negotiators, ParseOrNull(req.contentType));
      (sel.Failure? ==> r == BodyFailed) &&
      (sel == Success(None) ==> r == Rejected) &&
      (sel.Success? && sel.value.Some? && req.body.None? ==> r == BodyFailed) &&
      (sel.Success? && sel.value.Some? && req.body == Some([]) ==> r == Rejected) &&
      (r.Decoded? ==>
        sel.Success? && sel.value.Some? && req.body.Some? && req.body.value != [] &&
        var attempt := negotiators[sel.value.value].deserialize(req.body.value, target, ParseOrNull(req.contentType));
        attempt.Produced? && attempt.result.body == r.value)
    ensures var sel := BodyNegotiator(negotiators, ParseOrNull(req.contentType));
      sel.Success? && sel.value.Some? && req.body.Some? && req.body.value != [] ==>
        var attempt := negotiators[sel.value.value].deserialize(req.body.value, target, ParseOrNull(req.contentType));
        (attempt.Produced? ==> r == Decoded(attempt.result.body)) &&
        (!attempt.Produced? ==> r == Rejected)
    ensures r.BodyFailed? ==> req.body.None? || (negotiators == [] && ParseOrNull(req.contentType).None?)
    ensures negotiators != [] && r.BodyFailed? ==> req.body.None?
  {
    var mime := ParseOrNull(req.contentType);
    match BodyNegotiator(negotiators, mime)
    case Failure(_) => BodyFailed
    case Success(None) => Rejected
    case Success(Some(k)) =>
      match req.body
      case None => BodyFailed
      case Some(raw) =>
        if raw == [] then Rejected
        else
          // the reified `deserialize<T>(b, contentType)` passes `T`'s class explicitly
          match negotiators[k].deserialize(raw, target, mime)
          case Produced(result) => Decoded(result.body)
          case Refused => Rejected
          case Threw => Rejected
  }

  //
  // Response
  //

  /** `MimeDetail(component ?: "*", subComponent ?: "*", charset?.let(Charset::forName))`. */
  function AcceptMime(e: AcceptEntry): (r: Result<MimeDetail, MimeError>)
    ensures r.Success? ==> Valid(r.value) && r.value.parameters == []
    ensures r.Success? ==> r.value.primaryType == (if e.component.Some? then e.component.value else Wildcard)
    ensures r.Success? ==> r.value.subType == (if e.subComponent.Some? then e.subComponent.value else Wildcard)
    ensures r.Success? ==> ResolveCharset(e.charset).Success? && r.value.charset == ResolveCharset(e.charset).value
    ensures ResolveCharset(e.charset).Failure? ==> r.Failure? && r.error.CharsetFailure?
  {
    match ResolveCharset(e.charset)
    case Failure(err) => Failure(err)
    case Success(charset) =>
      Make(if e.component.Some? then e.component.value else Wildcard,
           if e.subComponent.Some? then e.subComponent.value else Wildcard,
           charset, [])
  }

  /** An entry converts exactly when its charset resolves and both (defaulted) components are tokens. */
  lemma AcceptMimeSucceeds(e: AcceptEntry)
    ensures AcceptMime(e).Success? <==>
      ResolveCharset(e.charset).Success? &&
      IsToken(if e.component.Some? then e.component.value else Wildcard) &&
      IsToken(if e.subComponent.Some? then e.subComponent.value else Wildcard)
  {
  }

  /** An entry the lazy search passes over: it converts, and `accept` does not support it. */
  predicate Skipped(accept: MimeDetail, e: AcceptEntry)
  {
    AcceptMime(e).Success? && !Supports(accept, AcceptMime(e).value)
  }

  function StopsSearch(accept: MimeDetail): AcceptEntry -> bool
  {
    (e: AcceptEntry) => !Skipped(accept, e)
  }

  /**
   * `asSequence().map(...).firstOrNull { accept.supports(it) }`: entries are converted one by
   * one, so a conversion that throws before a match ends the search with that exception.
   */
  function FirstAcceptMatch(accept: MimeDetail, entries: seq<AcceptEntry>): (r: Result<Option<MimeDetail>, MimeError>)
    ensures r == Success(None) <==> forall i :: 0 <= i < |entries| ==> Skipped(accept, entries[i])
    ensures r.Success? && r.value.Some? ==>
      Supports(accept, r.value.value) &&
      var i := FirstWhere(entries, StopsSearch(accept));
      i < |entries| && AcceptMime(entries[i]) == Success(r.value.value) &&
      forall j :: 0 <= j < i ==> Skipped(accept, entries[j])
    ensures r.Failure? ==>
      var i := FirstWhere(entries, StopsSearch(accept));
      i < |entries| && AcceptMime(entries[i]) == Failure(r.error) &&
      forall j :: 0 <= j < i ==> Skipped(accept, entries[j])
  {
    var i := FirstWhere(entries, StopsSearch(accept));
    if i == |entries| then Success(None)
    else
      match AcceptMime(entries[i])
      case Failure(err) => Failure(err)
      case Success(m) => Success(Some(m))
  }

  /** Entries after the one the search stops at are never converted. */
  lemma FirstAcceptMatchIsLazy(accept: MimeDetail, entries: seq<AcceptEntry>, later: seq<AcceptEntry>)
    requires FirstAcceptMatch(accept, entries) != Success(None)
    ensures FirstAcceptMatch(accept, entries + later) == FirstAcceptMatch(accept, entries)
  {
    FirstWhereAppend(entries, later, StopsSearch(accept));
    assert (entries + later)[FirstWhere(entries, StopsSearch(accept))]
        == entries[FirstWhere(entries, StopsSearch(accept))];
  }

  /** The pair `(accept, nego)` of `respond`: the type asked for and the negotiator's index. */
  datatype Selection = Selection(requested: Option<MimeDetail>, negotiator: Option<nat>)

  /** The selection part of `respond`; a failure is an exception that ends in `fail(e)`. */
  function SelectResponse(negotiators: seq<ContentNegotiator>, req: Request): (r: Result<Selection, Thrown>)
    ensures r.Success? && r.value.negotiator.Some? ==> r.value.negotiator.value < |negotiators|
    ensures req.acceptableContentType.None? && negotiators == [] ==> r == Failure(NoSuchElement)
    ensures req.acceptableContentType.None? && negotiators != [] ==>
      r == Success(Selection(Some(negotiators[0].produces), Some(0)))
    ensures req.acceptableContentType.Some? && Parse(req.acceptableContentType.value).Failure? ==>
      r == Failure(MimeThrew(Parse(req.acceptableContentType.value).error))
    ensures req.acceptableContentType.Some? && Parse(req.acceptableContentType.value).Success? ==>
      var accept := Parse(req.acceptableContentType.value).value;
      var found := FirstAcceptMatch(accept, req.accept);
      (r.Failure? <==> found.Failure?) &&
      (r.Success? ==>
        (r.value.negotiator.None? <==>
          forall j :: 0 <= j < |negotiators| ==> !Supports(negotiators[j].produces, accept)) &&
        (r.value.negotiator.Some? ==>
          Supports(negotiators[r.value.negotiator.value].produces, accept) &&
          forall j :: 0 <= j < r.value.negotiator.value ==> !Supports(negotiators[j].produces, accept)) &&
        (found.value.Some? ==> r.value.requested == found.value) &&
        (found.value.None? && r.value.negotiator.Some? ==>
          r.value.requested == Some(negotiators[r.value.negotiator.value].produces)) &&
        (found.value.None? && r.value.negotiator.None? ==> r.value.requested.None?))
  {
    match req.acceptableContentType
    case None =>
      if negotiators == [] then Failure(NoSuchElement)
      else Success(Selection(Some(negotiators[0].produces), Some(0)))
    case Some(acceptable) =>
      match Parse(acceptable)
      case Failure(err) => Failure(MimeThrew(err))
      case Success(accept) =>
        var i := FirstWhere(negotiators, ProducesType(accept));
        var nego := if i < |negotiators| then Some(i) else None;
        match FirstAcceptMatch(accept, req.accept)
        case Failure(err) => Failure(MimeThrew(err))
        case Success(Some(m)) => Success(Selection(Some(m), nego))
        case Success(None) =>
          Success(Selection(if nego.Some? then Some(negotiators[nego.value].produces) else None, nego))
  }

  /**
   * The end of `respond` once the negotiator has been asked to serialize: the request fails
   * exactly when serialization threw, a Content-Type is sent exactly when a body was produced,
   * always with the handler's status, and that header reads back as the reported type.
   */
  function Emit(attempt: Attempt<Bytes>, result: HttpResult): (r: Response)
    ensures r == Failed <==> attempt.Threw?
    ensures r.Sent? && r.contentType.Some? <==> attempt.Produced?
    ensures r.Sent? && r.contentType.Some? ==> r.status == result.StatusCode()
    ensures attempt.Produced? ==>
      r == Sent(result.StatusCode(), Some(Format(attempt.result.contentType)), attempt.result.body)
    ensures attempt.Refused? ==> r.status == 500 && r.body == []
    ensures attempt.Produced? && RoundTrips(attempt.result.contentType) ==>
      Parse(r.contentType.value) == Success(attempt.result.contentType)
  {
    match attempt
    case Produced(produced) =>
      var m := produced.contentType;
      assert RoundTrips(m) ==> Parse(Format(m)) == Success(m) by {
        if RoundTrips(m) { ParseFormat(m); }
      }
      Sent(result.StatusCode(), Some(Format(m)), produced.body)
    case Refused => ServerErrorResponse
    case Threw => Failed
  }

  /** `respond(result)`: the whole response for a handler's result. */
  function RespondResponse(negotiators: seq<ContentNegotiator>, req: Request, result: HttpResult): (r: Response)
    ensures SelectResponse(negotiators, req).Failure? ==> r == Failed
    ensures var sel := SelectResponse(negotiators, req);
      sel.Success? && sel.value.negotiator.None? ==> r == ServerErrorResponse
    ensures var sel := SelectResponse(negotiators, req);
      sel.Success? && sel.value.negotiator.Some? ==>
        var n := negotiators[sel.value.negotiator.value];
        var attempt := n.serialize(result.body, sel.value.requested);
        (attempt.Refused? ==> r == ServerErrorResponse) &&
        (attempt.Threw? ==> r == Failed) &&
        (attempt.Produced? ==>
          r == Sent(result.StatusCode(), Some(Format(attempt.result.contentType)), attempt.result.body))
  {
    match SelectResponse(negotiators, req)
    case Failure(_) => Failed
    case Success(sel) =>
      match sel.negotiator
      case None => ServerErrorResponse
      case Some(k) => Emit(negotiators[k].serialize(result.body, sel.requested), result)
  }

  /** A sent response carries either the handler's status or 500, and a Content-Type only with the former. */
  lemma RespondStatus(negotiators: seq<ContentNegotiator>, req: Request, result: HttpResult)
    ensures var r := RespondResponse(negotiators, req, result);
      r.Sent? ==> (r.status == result.StatusCode() || r == ServerErrorResponse) &&
                  (r.contentType.Some? ==> r.status == result.StatusCode())
  {
  }

  /**
   * Without an acceptable content type, the first negotiator is asked for its own `produces`;
   * with no negotiator at all, `first()` throws and the request fails.
   */
  lemma RespondWithoutAcceptable(negotiators: seq<ContentNegotiator>, req: Request, result: HttpResult)
    requires req.acceptableContentType.None?
    ensures negotiators == [] ==> RespondResponse(negotiators, req, result) == Failed
    ensures negotiators != [] ==>
      RespondResponse(negotiators, req, result)
        == Emit(negotiators[0].serialize(result.body, Some(negotiators[0].produces)), result)
  {
  }

  /** The Content-Type header sent is the text form of the type the negotiator reported, and reads back as it. */
  lemma RespondContentTypeParses(negotiators: seq<ContentNegotiator>, req: Request, result: HttpResult,
                                 requested: Option<MimeDetail>, k: nat, produced: NegotiationResult<Bytes>)
    requires SelectResponse(negotiators, req) == Success(Selection(requested, Some(k)))
    requires k < |negotiators| && negotiators[k].serialize(result.body, requested) == Produced(produced)
    requires RoundTrips(produced.contentType)
    ensures RespondResponse(negotiators, req, result)
         == Sent(result.StatusCode(), Some(Format(produced.contentType)), produced.body)
    ensures Parse(RespondResponse(negotiators, req, result).contentType.value) == Success(produced.contentType)
  {
    ParseFormat(produced.contentType);
  }

  //
  // Handlers
  //

  /** The handler of an `autoRouteWithBody` route: `withBody`, then the handler, then `respond`. */
  function HandleWithBody(negotiators: seq<ContentNegotiator>, req: Request, target: Class,
                          handler: (Request, Value) -> Stage): (r: Response)
    ensures DecodeBody(negotiators, req, target).Rejected? ==> r == BadRequestResponse
    ensures DecodeBody(negotiators, req, target).BodyFailed? ==> r == Failed
    ensures DecodeBody(negotiators, req, target).Decoded? ==>
      var stage := handler(req, DecodeBody(negotiators, req, target).value);
      (stage.Completed? ==> r == RespondResponse(negotiators, req, stage.result)) &&
      (stage.FailedStage? ==> r == Failed) &&
      (stage.Threw? ==> r == BadRequestResponse)
  {
    match DecodeBody(negotiators, req, target)
    case Rejected => BadRequestResponse
    case BodyFailed => Failed
    case Decoded(v) =>
      match handler(req, v)
      case Completed(result) => RespondResponse(negotiators, req, result)
      case FailedStage => Failed
      case Threw => BadRequestResponse
  }

  /** A body the chosen negotiator deserializes reaches the handler, and the handler's outcome decides the answer. */
  lemma DeserializedBodyReachesHandler(negotiators: seq<ContentNegotiator>, req: Request, target: Class,
                                       handler: (Request, Value) -> Stage, k: nat, decoded: NegotiationResult<Value>)
    requires BodyNegotiator(negotiators, ParseOrNull(req.contentType)) == Success(Some(k))
    requires req.body.Some? && req.body.value != []
    requires k < |negotiators|
    requires negotiators[k].deserialize(req.body.value, target, ParseOrNull(req.contentType)) == Produced(decoded)
    ensures var stage := handler(req, decoded.body);
      (stage.Completed? ==> HandleWithBody(negotiators, req, target, handler)
                            == RespondResponse(negotiators, req, stage.result)) &&
      (stage.FailedStage? ==> HandleWithBody(negotiators, req, target, handler) == Failed) &&
      (stage.Threw? ==> HandleWithBody(negotiators, req, target, handler) == BadRequestResponse)
  {
    assert DecodeBody(negotiators, req, target) == Decoded(decoded.body);
  }

  /** The handler runs only on a decoded body: otherwise the response does not depend on it. */
  lemma HandlerNeedsDecodedBody(negotiators: seq<ContentNegotiator>, req: Request, target: Class,
                                h1: (Request, Value) -> Stage, h2: (Request, Value) -> Stage)
    requires !DecodeBody(negotiators, req, target).Decoded?
    ensures HandleWithBody(negotiators, req, target, h1) == HandleWithBody(negotiators, req, target, h2)
    ensures HandleWithBody(negotiators, req, target, h1) in {BadRequestResponse, Failed}
  {
  }

  /** An empty body is answered with 400, unless `first()` already threw on an empty negotiator list. */
  lemma EmptyBodyIsBadRequest(negotiators: seq<ContentNegotiator>, req: Request, target: Class,
                              handler: (Request, Value) -> Stage)
    requires req.body == Some([])
    ensures negotiators != [] || ParseOrNull(req.contentType).Some? ==>
      HandleWithBody(negotiators, req, target, handler) == BadRequestResponse
    ensures negotiators == [] && ParseOrNull(req.contentType).None? ==>
      HandleWithBody(negotiators, req, target, handler) == Failed
  {
  }

  /** The handler of an `autoRoute` route: the handler, then `respond`; a throwing handler reaches `fail`. */
  function HandleWithoutBody(negotiators: seq<ContentNegotiator>, req: Request, handler: Request -> Stage)
    : (r: Response)
    ensures handler(req).Completed? ==> r == RespondResponse(negotiators, req, handler(req).result)
    ensures !handler(req).Completed? ==> r == Failed
  {
    match handler(req)
    case Completed(result) => RespondResponse(negotiators, req, result)
    case FailedStage => Failed
    case Threw => Failed
  }

  /** The `RoutingContext`: the request it carries and its response, which is ended at most once. */
  class RoutingContext {
    const request: Request
    var response: Option<Response>

    constructor(request: Request)
      ensures this.request == request && response == None
    {
      this.request := request;
      response := None;
    }

    /** `response().…end()` or `fail(e)`. */
    method End(r: Response)
      requires response == None
      modifies this
      ensures response == Some(r)
    {
      response := Some(r);
    }

    /** `ctx.respond(result)`. */
    method Respond(negotiators: seq<ContentNegotiator>, result: HttpResult)
      requires response == None
      modifies this
      ensures response == Some(RespondResponse(negotiators, request, result))
    {
      var selection := SelectResponse(negotiators, request);
      if selection.Failure? {
        End(Failed);
      } else if selection.value.negotiator.None? {
        End(ServerErrorResponse);
      } else {
        var nego := negotiators[selection.value.negotiator.value];
        var responseBody := nego.serialize(result.body, selection.value.requested);
        End(Emit(responseBody, result));
      }
    }

    /** `ctx.withBody<T> { body -> handler(ctx, body).thenAccept { ctx.respond(it) } }`. */
    method WithBody(negotiators: seq<ContentNegotiator>, target: Class, handler: (Request, Value) -> Stage)
      requires response == None
      modifies this
      ensures response == Some(HandleWithBody(negotiators, request, target, handler))
    {
      var step := DecodeBody(negotiators, request, target);
      match step
      case Rejected =>
        End(BadRequestResponse);
      case BodyFailed =>
        End(Failed);
      case Decoded(v) =>
        var stage := handler(request, v);
        match stage
        case Completed(result) =>
          Respond(negotiators, result);
        case FailedStage =>
          End(Failed);
        case Threw =>
          End(BadRequestResponse);
    }
  }
}
