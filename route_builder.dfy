/**
 * Route construction in `RouteWithContentNegotiation`: the scope a `negotiate { }` block
 * runs in, the path prefix that nested `"a/b" { }` blocks accumulate, and the route table
 * that `autoRoute` and `autoRouteWithBody` append to.
 */
module RouteBuilder {
  import opened Wrappers
  import opened Values
  import opened Text
  import opened MimeDetails
  import opened MimeDetailProperties
  import opened ContentNegotiation
  import opened RoutingContextExtensions
  import opened NegotiationEngine

  datatype HttpMethod = Options | Get | Head | Post | Put | Delete | Trace | Connect | Patch | Other

  /** `InvalidParameterException` thrown by the scope's `init`. */
  datatype ConfigurationError = InvalidParameter(message: string)

  const NoNegotiatorMessage := "At least one content negotiator needs to be provided."

  /** The `consumes` entry every body route ends with. */
  const AnyType := "*/*"

  /** What a route does with a request it matched. */
  datatype RouteAction =
    | Negotiated(negotiators: seq<ContentNegotiator>, handler: Request -> Stage)
    | NegotiatedWithBody(negotiators: seq<ContentNegotiator>, target: Class, bodyHandler: (Request, Value) -> Stage)
    | CatchAllBadRequest

  /** A Vert.x `Route`: method, path, the declared `produces` and `consumes` types in order, and its handler. */
  datatype RouteEntry = RouteEntry(
    httpMethod: HttpMethod,
    path: string,
    produces: seq<string>,
    consumes: seq<string>,
    action: RouteAction)

  /** The Vert.x `Router`, reduced to its table of routes in declaration order. */
  class Router {
    var routes: seq<RouteEntry>

    constructor()
      ensures routes == []
    {
      routes := [];
    }

    /** `router.route(...)` with everything set on it. */
    method Route(entry: RouteEntry)
      modifies this
      ensures routes == old(routes) + [entry]
    {
      routes := routes + [entry];
    }
  }

  /** `RouteWithContentNegotiation(router, negotiators, pathPrefix)`. */
  datatype Scope = Scope(router: Router, negotiators: seq<ContentNegotiator>, pathPrefix: seq<string>)

  /** What `init` guarantees of every scope that exists: `negotiators.first()` is defined. */
  predicate ValidScope(scope: Scope)
  {
    |scope.negotiators| > 0
  }

  /** The data-class constructor, including its `init` check. */
  function NewScope(router: Router, negotiators: seq<ContentNegotiator>, pathPrefix: seq<string>)
    : (r: Result<Scope, ConfigurationError>)
    ensures r.Success? <==> negotiators != []
    ensures r.Success? ==> ValidScope(r.value) && r.value == Scope(router, negotiators, pathPrefix)
    ensures r.Failure? ==> r.error == InvalidParameter(NoNegotiatorMessage)
  {
    if negotiators == [] then Failure(InvalidParameter(NoNegotiatorMessage))
    else Success(Scope(router, negotiators, pathPrefix))
  }

  /** `router.negotiate(n1, n2, ...) { }`: the outermost scope, with an empty prefix. */
  function Negotiate(router: Router, negotiators: seq<ContentNegotiator>): (r: Result<Scope, ConfigurationError>)
    ensures r.Success? <==> negotiators != []
    ensures r.Success? ==> r.value.router == router && r.value.negotiators == negotiators
    ensures r.Success? ==> r.value.pathPrefix == []
  {
    NewScope(router, negotiators, [])
  }

  /**
   * `"a/b" { }`: the nested scope, whose prefix is extended by the `/`-separated parts of
   * the string. `copy` re-runs the `init` check, which a valid scope always passes.
   */
  function Invoke(scope: Scope, segment: string): (r: Result<Scope, ConfigurationError>)
    ensures ValidScope(scope) ==> r.Success? && ValidScope(r.value)
    ensures r.Success? ==> r.value.router == scope.router && r.value.negotiators == scope.negotiators
    ensures r.Success? ==> r.value.pathPrefix == scope.pathPrefix + Split(segment, '/')
  {
    NewScope(scope.router, scope.negotiators, scope.pathPrefix + Split(segment, '/'))
  }

  /** `filter { it.isNotBlank() }`. */
  function NonBlank(prefix: seq<string>): seq<string>
  {
    if prefix == [] then []
    else if IsBlank(prefix[0]) then NonBlank(prefix[1..])
    else [prefix[0]] + NonBlank(prefix[1..])
  }

  /** The parts kept are exactly the non-blank ones. */
  lemma {:induction false} NonBlankMembers(prefix: seq<string>)
    ensures forall s :: s in NonBlank(prefix) <==> s in prefix && !IsBlank(s)
    decreases |prefix|
  {
    if prefix != [] {
      NonBlankMembers(prefix[1..]);
      assert prefix == [prefix[0]] + prefix[1..];
    }
  }

  lemma {:induction false} NonBlankAppend(a: seq<string>, b: seq<string>)
    ensures NonBlank(a + b) == NonBlank(a) + NonBlank(b)
    decreases |a|
  {
    if a == [] {
      assert a + b == b;
    } else {
      assert (a + b)[0] == a[0] && (a + b)[1..] == a[1..] + b;
      NonBlankAppend(a[1..], b);
    }
  }

  /** `fullPath()`: `/` followed by the non-blank prefix parts joined with `/`. */
  function FullPath(prefix: seq<string>): (r: string)
    ensures |r| >= 1 && r[0] == '/'
    ensures NonBlank(prefix) == [] ==> r == "/"
  {
    "/" + Join(NonBlank(prefix), "/")
  }

  /** Reading the path back: after its leading `/`, it splits into the non-blank parts. */
  lemma FullPathSegments(prefix: seq<string>)
    requires NonBlank(prefix) != []
    requires forall i :: 0 <= i < |NonBlank(prefix)| ==> '/' !in NonBlank(prefix)[i]
    ensures Split(FullPath(prefix)[1..], '/') == NonBlank(prefix)
  {
    assert FullPath(prefix)[1..] == Join(NonBlank(prefix), ['/']);
    SplitJoin(NonBlank(prefix), '/');
  }

  /** Blank parts, such as those from leading, trailing or doubled slashes, leave the path unchanged. */
  lemma FullPathIgnoresBlank(prefix: seq<string>, blank: string)
    requires IsBlank(blank)
    ensures FullPath(prefix + [blank]) == FullPath(prefix)
    ensures FullPath([blank] + prefix) == FullPath(prefix)
  {
    NonBlankAppend(prefix, [blank]);
    NonBlankAppend([blank], prefix);
    assert NonBlank([blank]) == [];
    assert NonBlank(prefix) + [] == NonBlank(prefix);
  }

  /** Nesting concatenates paths: an inner scope's path continues its outer scope's path. */
  lemma FullPathNests(outer: seq<string>, inner: seq<string>)
    requires NonBlank(outer) != [] && NonBlank(inner) != []
    ensures FullPath(outer + inner) == FullPath(outer) + FullPath(inner)
  {
    NonBlankAppend(outer, inner);
    JoinAppend(NonBlank(outer), NonBlank(inner), "/");
  }

  /** `routeProducesAllNegotiators()`: each negotiator's `produces` in text form, in order. */
  function RouteProduces(negotiators: seq<ContentNegotiator>): (r: seq<string>)
    ensures |r| == |negotiators|
    ensures forall i :: 0 <= i < |r| ==> r[i] == Format(negotiators[i].produces)
  {
    if negotiators == [] then []
    else [Format(negotiators[0].produces)] + RouteProduces(negotiators[1..])
  }

  /** `routeAcceptsAllNegotiators()`: each negotiator's `accepts` in text form, in order, then the any-type wildcard. */
  function RouteConsumes(negotiators: seq<ContentNegotiator>): (r: seq<string>)
    ensures |r| == |negotiators| + 1 && r[|negotiators|] == AnyType
    ensures forall i :: 0 <= i < |negotiators| ==> r[i] == Format(negotiators[i].accepts)
  {
    if negotiators == [] then [AnyType]
    else [Format(negotiators[0].accepts)] + RouteConsumes(negotiators[1..])
  }

  /** The declared types read back as the negotiators' own declarations. */
  lemma DeclaredTypesParse(negotiators: seq<ContentNegotiator>, i: nat)
    requires i < |negotiators|
    requires RoundTrips(negotiators[i].produces) && RoundTrips(negotiators[i].accepts)
    ensures Parse(RouteProduces(negotiators)[i]) == Success(negotiators[i].produces)
    ensures Parse(RouteConsumes(negotiators)[i]) == Success(negotiators[i].accepts)
  {
    ParseFormat(negotiators[i].produces);
    ParseFormat(negotiators[i].accepts);
  }

  /** The two routes one declaration adds: the negotiated one, then the catch-all at the same method and path. */
  function RoutePair(httpMethod: HttpMethod, path: string, produces: seq<string>, consumes: seq<string>,
                     action: RouteAction): (r: seq<RouteEntry>)
    requires !action.CatchAllBadRequest?
    ensures |r| == 2 && PairAt(r, 0)
  {
    [RouteEntry(httpMethod, path, produces, consumes, action),
     RouteEntry(httpMethod, path, [], [], CatchAllBadRequest)]
  }

  /** Entries `2i` and `2i+1` are a negotiated route and its catch-all. */
  predicate PairAt(routes: seq<RouteEntry>, i: int)
  {
    0 <= i && 2 * i + 1 < |routes| &&
    !routes[2 * i].action.CatchAllBadRequest? &&
    routes[2 * i + 1].action.CatchAllBadRequest? &&
    routes[2 * i + 1].httpMethod == routes[2 * i].httpMethod &&
    routes[2 * i + 1].path == routes[2 * i].path &&
    routes[2 * i + 1].produces == [] && routes[2 * i + 1].consumes == []
  }

  /** A table built only by route declarations: negotiated routes, each followed by its catch-all. */
  predicate Paired(routes: seq<RouteEntry>)
  {
    |routes| % 2 == 0 && forall i :: 0 <= i < |routes| / 2 ==> PairAt(routes, i)
  }

  /** Appending a declaration's two routes keeps the table paired. */
  lemma PairedAppend(routes: seq<RouteEntry>, pair: seq<RouteEntry>)
    requires Paired(routes) && |pair| == 2 && PairAt(pair, 0)
    ensures Paired(routes + pair)
  {
    var all := routes + pair;
    forall i | 0 <= i < |all| / 2
      ensures PairAt(all, i)
    {
      if i < |routes| / 2 {
        assert PairAt(routes, i);
        assert all[2 * i] == routes[2 * i] && all[2 * i + 1] == routes[2 * i + 1];
      } else {
        assert i == |routes| / 2;
        assert all[2 * i] == pair[0] && all[2 * i + 1] == pair[1];
      }
    }
  }

  /** `autoRoute(httpMethod, handler)`. */
  method AutoRoute(scope: Scope, httpMethod: HttpMethod, handler: Request -> Stage)
    requires ValidScope(scope)
    modifies scope.router
    ensures scope.router.routes == old(scope.router.routes) +
      RoutePair(httpMethod, FullPath(scope.pathPrefix), RouteProduces(scope.negotiators), [],
                Negotiated(scope.negotiators, handler))
    ensures Paired(old(scope.router.routes)) ==> Paired(scope.router.routes)
  {
    var fullPath := FullPath(scope.pathPrefix);
    scope.router.Route(RouteEntry(httpMethod, fullPath, RouteProduces(scope.negotiators), [],
                                  Negotiated(scope.negotiators, handler)));
    scope.router.Route(RouteEntry(httpMethod, fullPath, [], [], CatchAllBadRequest));
    if Paired(old(scope.router.routes)) {
      PairedAppend(old(scope.router.routes),
                   RoutePair(httpMethod, fullPath, RouteProduces(scope.negotiators), [],
                             Negotiated(scope.negotiators, handler)));
    }
  }

  /** `autoRouteWithBody<T>(httpMethod, handler)`. */
  method AutoRouteWithBody(scope: Scope, httpMethod: HttpMethod, target: Class, handler: (Request, Value) -> Stage)
    requires ValidScope(scope)
    modifies scope.router
    ensures scope.router.routes == old(scope.router.routes) +
      RoutePair(httpMethod, FullPath(scope.pathPrefix), RouteProduces(scope.negotiators),
                RouteConsumes(scope.negotiators), NegotiatedWithBody(scope.negotiators, target, handler))
    ensures Paired(old(scope.router.routes)) ==> Paired(scope.router.routes)
  {
    var fullPath := FullPath(scope.pathPrefix);
    scope.router.Route(RouteEntry(httpMethod, fullPath, RouteProduces(scope.negotiators),
                                  RouteConsumes(scope.negotiators),
                                  NegotiatedWithBody(scope.negotiators, target, handler)));
    scope.router.Route(RouteEntry(httpMethod, fullPath, [], [], CatchAllBadRequest));
    if Paired(old(scope.router.routes)) {
      PairedAppend(old(scope.router.routes),
                   RoutePair(httpMethod, fullPath, RouteProduces(scope.negotiators),
                             RouteConsumes(scope.negotiators),
                             NegotiatedWithBody(scope.negotiators, target, handler)));
    }
  }

  /** `GET(handler)`: `autoRoute` with the GET method. */
  method GetRoute(scope: Scope, handler: Request -> Stage)
    requires ValidScope(scope)
    modifies scope.router
    ensures scope.router.routes == old(scope.router.routes) +
      RoutePair(Get, FullPath(scope.pathPrefix), RouteProduces(scope.negotiators), [],
                Negotiated(scope.negotiators, handler))
  {
    AutoRoute(scope, Get, handler);
  }

  /** `POST<T>(handler)`: `autoRouteWithBody` with the POST method. */
  method PostRoute(scope: Scope, target: Class, handler: (Request, Value) -> Stage)
    requires ValidScope(scope)
    modifies scope.router
    ensures scope.router.routes == old(scope.router.routes) +
      RoutePair(Post, FullPath(scope.pathPrefix), RouteProduces(scope.negotiators),
                RouteConsumes(scope.negotiators), NegotiatedWithBody(scope.negotiators, target, handler))
  {
    AutoRouteWithBody(scope, Post, target, handler);
  }

  /** `POST_blank(handler)`: a POST route that reads no body, declared like a GET route. */
  method PostBlankRoute(scope: Scope, handler: Request -> Stage)
    requires ValidScope(scope)
    modifies scope.router
    ensures scope.router.routes == old(scope.router.routes) +
      RoutePair(Post, FullPath(scope.pathPrefix), RouteProduces(scope.negotiators), [],
                Negotiated(scope.negotiators, handler))
  {
    AutoRoute(scope, Post, handler);
  }

  /** What a route answers to a request it matched. The catch-all always answers 400. */
  function RouteResponse(entry: RouteEntry, req: Request): (r: Response)
    ensures entry.action.CatchAllBadRequest? ==> r == BadRequestResponse
    ensures entry.action.Negotiated? ==> r == HandleWithoutBody(entry.action.negotiators, req, entry.action.handler)
    ensures entry.action.NegotiatedWithBody? ==>
      r == HandleWithBody(entry.action.negotiators, req, entry.action.target, entry.action.bodyHandler)
  {
    match entry.action
    case Negotiated(negotiators, handler) => HandleWithoutBody(negotiators, req, handler)
    case NegotiatedWithBody(negotiators, target, handler) => HandleWithBody(negotiators, req, target, handler)
    case CatchAllBadRequest => BadRequestResponse
  }

  /** Running a matched route's handler on a routing context. */
  method Handle(entry: RouteEntry, ctx: RoutingContext)
    requires ctx.response == None
    modifies ctx
    ensures ctx.response == Some(RouteResponse(entry, ctx.request))
  {
    match entry.action
    case Negotiated(negotiators, handler) =>
      var stage := handler(ctx.request);
      if stage.Completed? {
        ctx.Respond(negotiators, stage.result);
      } else {
        ctx.End(Failed);
      }
    case NegotiatedWithBody(negotiators, target, handler) =>
      ctx.WithBody(negotiators, target, handler);
    case CatchAllBadRequest =>
      ctx.End(BadRequestResponse);
  }
}
