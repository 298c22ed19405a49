# Content negotiation for a Kotlin DSL over Vert.x Web

This is a Dafny model of the HTTP content negotiation in `vertx-kotlin-dsl`. The library's
`negotiate(n1, n2, ...) { "foo" { GET(...) } }` DSL declares Vert.x routes. Each route's request
body is decoded by a `ContentNegotiator`, and each response is encoded by one. The model covers:

- **`MimeDetail`** (`mime_detail.dfy`):
  - the validating constructor, whose values are made of token characters only
    (section 5.1 of RFC 2045);
  - `parse` and `parseOrNull`;
  - the asymmetric wildcard-and-charset match `supports`;
  - the canonical `toString`, with its round trip back through `parse`.

  Parameters are an insertion-ordered map with distinct keys (`mime_params.dfy`). This includes
  Kotlin's `toMap`, which keeps a repeated key's first position and its last value.
  `Charset.forName` is a case-insensitive lookup in a table of names and aliases (`charsets.dfy`).
- **The negotiator contract** (`content_negotiation.dfy`). The `ContentNegotiator` interface is a
  record of its `accepts`/`produces` declarations and its two calls. Each call returns a result,
  refuses (`null`) or throws.
- **`JsonNegotiator`** (`json_negotiator.dfy`): which MIME type it reports. It fills in UTF-8 and
  falls back to `*/json`. The Jackson mapper and the JVM text codecs are parameters.
- **`HttpResult`** and **`pathParam`** (`http_result.dfy`, `routing_context_extensions.dfy`).
- **The engine of `RouteWithContentNegotiation`** (`negotiation_engine.dfy`):
  - `withBody` chooses the negotiator that decodes a body;
  - `respond` chooses the negotiator and the MIME type of a response;
  - the status each path ends with: 400, 500, the handler's status, or `fail(e)`.

  What Vert.x computes for it arrives in a `Request` value: the acceptable content type, the
  parsed and ranked `Accept` list, the body bytes and the path parameters. `RoutingContext` is a
  class whose response slot `End` fills.
- **Route construction** (`route_builder.dfy`):
  - the scope and its `init` check;
  - the path prefix that nested `"a/b" { }` blocks accumulate, and `fullPath`;
  - the `Router` as a class holding the table of routes. `autoRoute`/`autoRouteWithBody` (and
    `GET`/`POST`/`POST_blank`) append to it a negotiated route and a catch-all that answers 400.
- **Scenarios** (`scenarios.dfy`): the end-to-end tests' router (a JSON negotiator followed by a
  fixed-string negotiator) and the exact responses its tests expect.

A thrown exception is a value (`Threw`, `Failure`, `Failed`). A value of Kotlin type `Any` is an
abstract type `Value`. The reified `deserialize<T>` extension only supplies `T`'s class, so
`DecodeBody` calls the negotiator's `deserialize` with the target `Class` given explicitly, and
forwards the bytes and the parsed content type unchanged.

Source paths below are relative to the repository root.

## Model

| member | source | states |
|---|---|---|
| MimeParams.Get | src/main/kotlin/com/github/adeynack/vertx/kotlin/negotiation/MimeDetail.kt:45 | the lookup succeeds exactly when the key is present, and yields the value paired with it |
| MimeParams.Put | src/main/kotlin/com/github/adeynack/vertx/kotlin/negotiation/MimeDetail.kt:43 | an existing key keeps its position and size and takes the new value; a new key goes last; other pairs are unchanged; a following get yields the new value |
| MimeParams.Remove | src/main/kotlin/com/github/adeynack/vertx/kotlin/negotiation/MimeDetail.kt:47 | the key is gone, every remaining pair was in the map, every other pair is kept, and removing an absent key changes nothing |
| MimeParams.RemoveSplice | src/main/kotlin/com/github/adeynack/vertx/kotlin/negotiation/MimeDetail.kt:47 | removing a present key cuts out exactly its one pair: the pairs before it and after it stay, in their order |
| MimeParams.ToMap | src/main/kotlin/com/github/adeynack/vertx/kotlin/negotiation/MimeDetail.kt:43 | the keys are exactly those of the list, each with the value of its last occurrence, and every pair comes from the list |
| MimeParams.ToMapKeyOrder | src/main/kotlin/com/github/adeynack/vertx/kotlin/negotiation/MimeDetail.kt:43 | keys appear in the order of their first occurrence in the list |
| MimeParams.ToMapDistinct | src/main/kotlin/com/github/adeynack/vertx/kotlin/negotiation/MimeDetail.kt:43 | on a list whose keys are already distinct, `toMap` changes nothing |
| Charsets.ForName | src/main/kotlin/com/github/adeynack/vertx/kotlin/negotiation/MimeDetail.kt:45 | succeeds exactly when the lower-cased name is an alias of some charset; a failure names the input, and is the illegal-name error exactly when the name is not legal |
| Charsets.LowerName | src/main/kotlin/com/github/adeynack/vertx/kotlin/negotiation/MimeDetail.kt:84 | the text written for a charset is its canonical name lower-cased |
| Charsets.ForNameLowerName | src/main/kotlin/com/github/adeynack/vertx/kotlin/negotiation/MimeDetail.kt:84 | the written charset name resolves back to the same charset |
| Charsets.ForNameIgnoresCase | src/main/kotlin/com/github/adeynack/vertx/kotlin/negotiation/MimeDetail.kt:45 | names equal up to letter case resolve alike |
| MimeDetails.FirstInvalidParam | src/main/kotlin/com/github/adeynack/vertx/kotlin/negotiation/MimeDetail.kt:67-70 | reports nothing exactly when every key and value is a token, and otherwise a non-token |
| MimeDetails.Make | src/main/kotlin/com/github/adeynack/vertx/kotlin/negotiation/MimeDetail.kt:56-71 | construction succeeds exactly when every part is a token (empty parts pass) and keeps the parts as given; otherwise it fails with an invalid-value error on a non-token, checking the primary type first |
| Text.TrimIsSlice | src/main/kotlin/com/github/adeynack/vertx/kotlin/negotiation/MimeDetail.kt:41 | `trim()` yields a slice of its input with only whitespace before and after it |
| MimeDetails.ParseParam | src/main/kotlin/com/github/adeynack/vertx/kotlin/negotiation/MimeDetail.kt:36-41 | a segment parses exactly when it splits on `=` into two pieces, giving the trimmed and lower-cased key and the untouched value; otherwise it fails with a malformed-parameter error naming the segment |
| MimeDetails.ParseParams | src/main/kotlin/com/github/adeynack/vertx/kotlin/negotiation/MimeDetail.kt:35-42 | succeeds exactly when every segment parses, pairing each segment with its own parse in order; a failure is the failure of the first segment that does not parse, every earlier segment parsing |
| MimeDetails.ResolveCharset | src/main/kotlin/com/github/adeynack/vertx/kotlin/negotiation/MimeDetail.kt:45 | no charset parameter gives no charset; otherwise it succeeds exactly when `forName` does, with its charset, and fails only with a charset error |
| MimeDetails.Parse | src/main/kotlin/com/github/adeynack/vertx/kotlin/negotiation/MimeDetail.kt:25-48 | a first segment that is not two `/`-parts fails as a malformed type; a result is valid, its type is the first segment, and its keys are lower-case and never `charset`; on success the later segments parse as parameters, the charset is the `charset` parameter resolved through `forName`, and the parameters are the parsed map without `charset` |
| MimeDetails.ParseResult | src/main/kotlin/com/github/adeynack/vertx/kotlin/negotiation/MimeDetail.kt:25-48 | when the type has two `/`-parts, the parameters parse and the charset resolves, `parse` yields the constructor applied to the two parts, the charset and the map without `charset` |
| MimeDetails.ParseSucceeds | src/main/kotlin/com/github/adeynack/vertx/kotlin/negotiation/MimeDetail.kt:25-48 | `parse` succeeds exactly when the type has two `/`-parts, every later segment is `key=value`, the `charset` parameter resolves if present, and the type parts and remaining parameters are all tokens |
| MimeDetails.ParseStages | src/main/kotlin/com/github/adeynack/vertx/kotlin/negotiation/MimeDetail.kt:25-48 | the order of `parse`'s failures: type shape, then parameters, then charset, then the constructor's validation |
| MimeDetails.MalformedParameterFails | src/main/kotlin/com/github/adeynack/vertx/kotlin/negotiation/MimeDetail.kt:35-40 | any later segment that is not `key=value` makes `parse` fail with a parsing error |
| MimeDetails.MalformedParameterNamed | src/main/kotlin/com/github/adeynack/vertx/kotlin/negotiation/MimeDetail.kt:37-40 | a parsing error on a parameter names the first later segment that is not `key=value`; every segment between the type and it is `key=value` |
| MimeDetails.CharsetFailureNamed | src/main/kotlin/com/github/adeynack/vertx/kotlin/negotiation/MimeDetail.kt:45 | a charset failure of `parse` is `forName` failing on the value of the `charset` parameter |
| MimeDetails.ParsedKeysLower | src/main/kotlin/com/github/adeynack/vertx/kotlin/negotiation/MimeDetail.kt:41 | every parsed key is lower-case |
| MimeDetails.ParseOrNull | src/main/kotlin/com/github/adeynack/vertx/kotlin/negotiation/MimeDetail.kt:14-19 | `null` input gives `null`; otherwise the result is present exactly when `parse` succeeds, and is then `parse`'s value |
| MimeDetails.IsTokenChar | src/main/kotlin/com/github/adeynack/vertx/kotlin/negotiation/MimeDetail.kt:56 | a token character is never whitespace, `;`, `/` or `=` |
| MimeDetails.Supports | src/main/kotlin/com/github/adeynack/vertx/kotlin/negotiation/MimeDetail.kt:73-76 | every MIME type supports itself, and a declared charset rejects every candidate with a different or missing charset |
| MimeDetailProperties.SupportsTransitive | src/main/kotlin/com/github/adeynack/vertx/kotlin/negotiation/MimeDetail.kt:73-76 | `supports` chains through an intermediate type |
| MimeDetailProperties.CandidateWildcardNotAbsorbed | src/main/kotlin/com/github/adeynack/vertx/kotlin/negotiation/MimeDetail.kt:73-76 | a concrete primary type or subtype never supports a candidate's wildcard |
| MimeDetailProperties.FullWildcardSupportsAll | src/main/kotlin/com/github/adeynack/vertx/kotlin/negotiation/MimeDetail.kt:73-76 | `*/*` without a charset supports every type |
| MimeDetailProperties.ToString | src/main/kotlin/com/github/adeynack/vertx/kotlin/negotiation/MimeDetail.kt:78-88 | the string builder loop produces the canonical form: `primary/sub`, then `; charset=<lower-case name>` if set, then `; k=v` per parameter in stored order |
| MimeDetailProperties.LowerNameIsToken | src/main/kotlin/com/github/adeynack/vertx/kotlin/negotiation/MimeDetail.kt:84 | the charset name written is a lower-case token |
| MimeDetailProperties.ParseFormat | src/main/kotlin/com/github/adeynack/vertx/kotlin/negotiation/MimeDetail.kt:78-88 | `parse` reads back exactly what `toString` wrote, for valid values whose keys are lower-case and not `charset` |
| MimeDetailProperties.CharsetSpellingParses | src/main/kotlin/com/github/adeynack/vertx/kotlin/negotiation/MimeDetail.kt:25-48 | a valid type written with any spelling of a charset name that `forName` resolves, followed by its lower-case parameters, parses to that type with the resolved charset and the same parameters in order |
| MimeDetailProperties.CharsetSegmentParses | src/main/kotlin/com/github/adeynack/vertx/kotlin/negotiation/MimeDetail.kt:45-47 | a valid type followed by `; charset=<name>` parses to that type with `forName(name)` as charset and no other parameters, whenever the name resolves |
| MimeDetailProperties.ParseFormatStable | src/main/kotlin/com/github/adeynack/vertx/kotlin/negotiation/MimeDetail.kt:25-48 | re-parsing the canonical form of any parsed type gives the same parse |
| MimeDetailProperties.MissingEqualsFails | src/main/kotlin/com/github/adeynack/vertx/kotlin/negotiation/MimeDetail.kt:35-40 | a type followed by a segment without `=` fails with a parsing error naming that segment |
| MimeDetailProperties.CharsetSegmentFails | src/main/kotlin/com/github/adeynack/vertx/kotlin/negotiation/MimeDetail.kt:45-47 | a type followed by `charset=<name>` fails exactly with `forName`'s error when the name does not resolve |
| JsonNegotiators.ProducedContentType | src/main/kotlin/com/github/adeynack/vertx/kotlin/negotiation/JsonNegotiator.kt:30-32 | the reported type always has a charset. No requested type gives `*/json; charset=utf-8`. A requested type with a charset is kept unchanged; one without gets UTF-8 and otherwise stays equal, so the requested type supports what is reported |
| JsonNegotiators.ProducedContentTypeIdempotent | src/main/kotlin/com/github/adeynack/vertx/kotlin/negotiation/JsonNegotiator.kt:30-32 | requesting the reported type again reports the same type |
| JsonNegotiators.JsonSerialize | src/main/kotlin/com/github/adeynack/vertx/kotlin/negotiation/JsonNegotiator.kt:29-36 | never refuses; throws exactly when the mapper throws; reports the produced type and the JSON text encoded in its charset |
| JsonNegotiators.JsonDeserialize | src/main/kotlin/com/github/adeynack/vertx/kotlin/negotiation/JsonNegotiator.kt:38-47 | never refuses. Without a content type or charset, the mapper reads the bytes and `*/json` without a charset is reported. With a charset, the bytes are decoded in it, read as a string, and the given type is reported; it throws exactly when the read throws |
| JsonNegotiators.JsonDeclarationsValid | src/main/kotlin/com/github/adeynack/vertx/kotlin/negotiation/JsonNegotiator.kt:25-27 | `*/json` and `application/json` pass the constructor's validation |
| JsonNegotiators.JsonNegotiator | src/main/kotlin/com/github/adeynack/vertx/kotlin/negotiation/JsonNegotiator.kt:8-49 | the instance accepts `*/json` and produces `application/json`, both without charset, and both are valid |
| JsonNegotiators.JsonAcceptsAnyJson | src/main/kotlin/com/github/adeynack/vertx/kotlin/negotiation/JsonNegotiator.kt:25 | the JSON negotiator accepts a type exactly when its subtype is `json` in any case |
| HttpResults.HttpResult.StatusCode | src/main/kotlin/com/github/adeynack/vertx/kotlin/HttpResult.kt:3-16 | every status is one of 200, 201, 400, 401, 403, 404, 500 |
| HttpResults.FromStatus | src/main/kotlin/com/github/adeynack/vertx/kotlin/HttpResult.kt:8-16 | a variant exists exactly for the seven codes |
| HttpResults.StatusCodeIdentifiesVariant | src/main/kotlin/com/github/adeynack/vertx/kotlin/HttpResult.kt:8-16 | status and body determine the result: no two variants share a code |
| HttpResults.StatusCodes | src/main/kotlin/com/github/adeynack/vertx/kotlin/HttpResult.kt:8-16 | each variant's code, and the `null` default body |
| RoutingContextExtensions.PathParam | src/main/kotlin/com/github/adeynack/vertx/kotlin/RoutingContextExtensions.kt:10-22 | a missing parameter or a failing extractor gives `NotFound`; otherwise the result is the continuation on the extracted value |
| RoutingContextExtensions.PathParamRaw | src/main/kotlin/com/github/adeynack/vertx/kotlin/RoutingContextExtensions.kt:7-8 | the one-function overload is the general one with the identity extractor: `NotFound` when missing, else the continuation on the raw string |
| RoutingContextExtensions.PathParamOutcomes | src/main/kotlin/com/github/adeynack/vertx/kotlin/RoutingContextExtensions.kt:10-22 | either 404 with the parameter missing or unconvertible, or exactly the continuation's outcome |
| RoutingContextExtensions.ContinuationFailurePropagates | src/main/kotlin/com/github/adeynack/vertx/kotlin/RoutingContextExtensions.kt:21 | a continuation that throws or fails is not turned into 404 |
| NegotiationEngine.FirstWhere | src/main/kotlin/com/github/adeynack/vertx/kotlin/RouteBuilder.kt:45 | `firstOrNull`: no earlier element matches, and the one found does |
| NegotiationEngine.BodyNegotiator | src/main/kotlin/com/github/adeynack/vertx/kotlin/RouteBuilder.kt:41-46 | no parsed Content-Type (missing or unparsable) selects the first negotiator, and throws (`first()` on an empty list) exactly when there is none; otherwise the first whose `accepts` supports the type, and none exactly when no negotiator does |
| NegotiationEngine.DecodeBody | src/main/kotlin/com/github/adeynack/vertx/kotlin/RouteBuilder.kt:41-58 | no negotiator or an empty body rejects; a missing body, or a `first()` that throws on an empty negotiator list, fails; a decoded value is the chosen negotiator's `deserialize` result on the bytes and the parsed Content-Type; with a negotiator and a non-empty body, a value that `deserialize` produces is decoded, and a refusal or a throw rejects |
| NegotiationEngine.AcceptMime | src/main/kotlin/com/github/adeynack/vertx/kotlin/RouteBuilder.kt:126 | missing parts read as `*`, the charset parameter goes through `forName`, and a bad charset is a failure |
| NegotiationEngine.AcceptMimeSucceeds | src/main/kotlin/com/github/adeynack/vertx/kotlin/RouteBuilder.kt:126 | an entry converts exactly when its charset resolves and both defaulted parts are tokens |
| NegotiationEngine.FirstAcceptMatch | src/main/kotlin/com/github/adeynack/vertx/kotlin/RouteBuilder.kt:124-127 | the search stops at the first entry that fails to convert or is supported; nothing is found exactly when every entry is passed over |
| NegotiationEngine.FirstAcceptMatchIsLazy | src/main/kotlin/com/github/adeynack/vertx/kotlin/RouteBuilder.kt:124-127 | entries after the stopping one are never converted |
| NegotiationEngine.SelectResponse | src/main/kotlin/com/github/adeynack/vertx/kotlin/RouteBuilder.kt:116-130 | no acceptable type picks the first negotiator and its `produces`, or throws when there is no negotiator. An unparsable one fails. Otherwise the negotiator is the first whose `produces` supports it (none exactly when no negotiator does), and the requested type is the first matching Accept entry, else that negotiator's `produces` |
| NegotiationEngine.RespondResponse | src/main/kotlin/com/github/adeynack/vertx/kotlin/RouteBuilder.kt:114-144 | a selection failure or a throwing `serialize` ends in `fail`; no negotiator or a refusal gives 500; otherwise the result's status, `toString` of the reported type, and the bytes |
| NegotiationEngine.RespondStatus | src/main/kotlin/com/github/adeynack/vertx/kotlin/RouteBuilder.kt:132-140 | a sent response has the handler's status or is the bare 500, and only the former has a Content-Type |
| NegotiationEngine.Emit | src/main/kotlin/com/github/adeynack/vertx/kotlin/RouteBuilder.kt:132-143 | the request fails exactly when `serialize` threw; when a body was produced, exactly the handler's status, the `toString` of the reported type as Content-Type and the produced bytes are sent; a Content-Type is sent only then; a refusal is a bare 500; the header sent reads back as the reported type |
| NegotiationEngine.RespondWithoutAcceptable | src/main/kotlin/com/github/adeynack/vertx/kotlin/RouteBuilder.kt:117-119 | without an acceptable type the first negotiator is asked for its own `produces`; with no negotiator the request fails |
| NegotiationEngine.RespondContentTypeParses | src/main/kotlin/com/github/adeynack/vertx/kotlin/RouteBuilder.kt:133-137 | the Content-Type sent parses back to the type the negotiator reported |
| NegotiationEngine.HandleWithBody | src/main/kotlin/com/github/adeynack/vertx/kotlin/RouteBuilder.kt:39-63 | a rejected body gives 400 and a missing body `fail`. On a decoded body the handler runs: completion is responded to, a failed stage ends in `fail`, and a handler that throws gives 400 |
| NegotiationEngine.DeserializedBodyReachesHandler | src/main/kotlin/com/github/adeynack/vertx/kotlin/RouteBuilder.kt:51-57 | a body the chosen negotiator deserializes is passed to the handler, whose completion is responded to, whose failed stage ends in `fail`, and whose throw gives 400 |
| NegotiationEngine.HandlerNeedsDecodedBody | src/main/kotlin/com/github/adeynack/vertx/kotlin/RouteBuilder.kt:48-57 | without a decoded body the handler has no effect and the answer is 400 or `fail` |
| NegotiationEngine.EmptyBodyIsBadRequest | src/main/kotlin/com/github/adeynack/vertx/kotlin/RouteBuilder.kt:41-49 | an empty body is answered with 400, except that with no negotiator and no parsed Content-Type `first()` throws first and the request fails |
| NegotiationEngine.HandleWithoutBody | src/main/kotlin/com/github/adeynack/vertx/kotlin/RouteBuilder.kt:86-90 | a completed handler is responded to; anything else ends in `fail` |
| NegotiationEngine.RoutingContext.End | src/main/kotlin/com/github/adeynack/vertx/kotlin/RouteBuilder.kt:46 | the response slot holds the ended response |
| NegotiationEngine.RoutingContext.Respond | src/main/kotlin/com/github/adeynack/vertx/kotlin/RouteBuilder.kt:114-144 | the response ended is `RespondResponse` of the context's request |
| NegotiationEngine.RoutingContext.WithBody | src/main/kotlin/com/github/adeynack/vertx/kotlin/RouteBuilder.kt:39-63 | the response ended is `HandleWithBody` of the context's request |
| RouteBuilder.Router.Route | src/main/kotlin/com/github/adeynack/vertx/kotlin/RouteBuilder.kt:83-91 | declaring a route appends it to the table |
| RouteBuilder.NewScope | src/main/kotlin/com/github/adeynack/vertx/kotlin/RouteBuilder.kt:20-30 | construction succeeds exactly with a non-empty negotiator list, else fails with the stated message |
| RouteBuilder.Negotiate | src/main/kotlin/com/github/adeynack/vertx/kotlin/RouteBuilder.kt:16-17 | the outermost scope has the given negotiators and an empty prefix |
| RouteBuilder.Invoke | src/main/kotlin/com/github/adeynack/vertx/kotlin/RouteBuilder.kt:150-156 | a nested scope always builds from a valid one, keeping router and negotiators and appending the `/`-parts of the string |
| RouteBuilder.NonBlankMembers | src/main/kotlin/com/github/adeynack/vertx/kotlin/RouteBuilder.kt:74-75 | the filter keeps exactly the non-blank parts |
| RouteBuilder.FullPath | src/main/kotlin/com/github/adeynack/vertx/kotlin/RouteBuilder.kt:73-76 | a path always starts with `/`; an empty or all-blank prefix gives `/`, the root route |
| RouteBuilder.FullPathSegments | src/main/kotlin/com/github/adeynack/vertx/kotlin/RouteBuilder.kt:73-76 | after its `/`, the path splits back into the non-blank parts |
| RouteBuilder.FullPathIgnoresBlank | src/main/kotlin/com/github/adeynack/vertx/kotlin/RouteBuilder.kt:73-76 | blank parts leave the path unchanged |
| RouteBuilder.FullPathNests | src/main/kotlin/com/github/adeynack/vertx/kotlin/RouteBuilder.kt:73-76 | the path of a nested prefix is the outer path followed by the inner one |
| RouteBuilder.RouteProduces | src/main/kotlin/com/github/adeynack/vertx/kotlin/RouteBuilder.kt:65-67 | one `produces` entry per negotiator, in order, each `toString` of its declaration |
| RouteBuilder.RouteConsumes | src/main/kotlin/com/github/adeynack/vertx/kotlin/RouteBuilder.kt:69-71 | each negotiator's `accepts` as text in order, then `*/*` |
| RouteBuilder.DeclaredTypesParse | src/main/kotlin/com/github/adeynack/vertx/kotlin/RouteBuilder.kt:65-71 | the declared texts parse back to the negotiators' declarations |
| RouteBuilder.RoutePair | src/main/kotlin/com/github/adeynack/vertx/kotlin/RouteBuilder.kt:83-91 | one declaration is a negotiated route and then a catch-all at the same method and path |
| RouteBuilder.PairedAppend | src/main/kotlin/com/github/adeynack/vertx/kotlin/RouteBuilder.kt:78-111 | appending a declaration keeps the table made of such pairs |
| RouteBuilder.AutoRoute | src/main/kotlin/com/github/adeynack/vertx/kotlin/RouteBuilder.kt:78-92 | appends the negotiated route (full path, produces list, handler) and its catch-all, and keeps the table paired |
| RouteBuilder.AutoRouteWithBody | src/main/kotlin/com/github/adeynack/vertx/kotlin/RouteBuilder.kt:94-111 | the same, with the consumes list and the body handler |
| RouteBuilder.GetRoute | src/main/kotlin/com/github/adeynack/vertx/kotlin/RouteBuilder.kt:167-170 | a GET declaration is `autoRoute` at GET |
| RouteBuilder.PostRoute | src/main/kotlin/com/github/adeynack/vertx/kotlin/RouteBuilder.kt:181-184 | a POST declaration is `autoRouteWithBody` at POST |
| RouteBuilder.PostBlankRoute | src/main/kotlin/com/github/adeynack/vertx/kotlin/RouteBuilder.kt:191-194 | a body-less POST declaration is `autoRoute` at POST |
| RouteBuilder.RouteResponse | src/main/kotlin/com/github/adeynack/vertx/kotlin/RouteBuilder.kt:86-110 | the catch-all answers 400; negotiated routes answer through their handlers |
| RouteBuilder.Handle | src/main/kotlin/com/github/adeynack/vertx/kotlin/RouteBuilder.kt:86-110 | running a matched route ends the context's response with `RouteResponse` |
| Scenarios.HardCodedString | src/test/kotlin/com/github/adeynack/vertx/kotlin/RouterDslTest.kt:87-98 | the test negotiator declares `application/HardCodedString` both ways |
| Scenarios.HardCodedStringCalls | src/test/kotlin/com/github/adeynack/vertx/kotlin/RouterDslTest.kt:93-97 | it throws without a requested type, otherwise reports that type, and never decodes |
| Scenarios.TestNegotiators | src/test/kotlin/com/github/adeynack/vertx/kotlin/RouterDslTest.kt:106 | the test router has two negotiators |
| Scenarios.HardCodedTypeValid | src/test/kotlin/com/github/adeynack/vertx/kotlin/RouterDslTest.kt:89-91 | its declaration passes validation |
| Scenarios.DefaultResponseIsUtf8Json | src/test/kotlin/com/github/adeynack/vertx/kotlin/RouterDslTest.kt:139-155 | no Accept: status 200 and `application/json; charset=utf-8` |
| Scenarios.RequestedCharsetIsKept | src/test/kotlin/com/github/adeynack/vertx/kotlin/RouterDslTest.kt:177-195 | `application/json;charset=iso-8859-1` is answered in that type and charset |
| Scenarios.WildcardAcceptAnswersJson | src/test/kotlin/com/github/adeynack/vertx/kotlin/RouterDslTest.kt:217-235 | `*/*` is answered by the first negotiator with `application/json; charset=utf-8` |
| Scenarios.SecondNegotiatorChosen | src/test/kotlin/com/github/adeynack/vertx/kotlin/RouterDslTest.kt:237-247 | `application/HardCodedString` is answered by the second negotiator with its fixed text |
| Scenarios.NestedPath | src/test/kotlin/com/github/adeynack/vertx/kotlin/RouterDslTest.kt:107-115 | `"foo" { ":id" { "child/:childId" { } } }` declares `/foo/:id/child/:childId` |
| Scenarios.IncompleteCharsetFails | src/test/kotlin/com/github/adeynack/vertx/kotlin/negotiation/MimeDetailTest.kt:89-92 | `application/json; charset` fails with a parsing error on ` charset` |
| Scenarios.UnknownCharsetFails | src/test/kotlin/com/github/adeynack/vertx/kotlin/negotiation/MimeDetailTest.kt:84-87 | `application/json; charset=foo` fails with the unsupported-charset error |
| Scenarios.CharsetNames | src/test/kotlin/com/github/adeynack/vertx/kotlin/negotiation/MimeDetailTest.kt:56-82 | `ascii` resolves to US-ASCII, and `UTF-8` and `Utf-8` resolve to UTF-8 |
| Scenarios.CharsetAndParamsParse | src/test/kotlin/com/github/adeynack/vertx/kotlin/negotiation/MimeDetailTest.kt:94-99 | `application/json; charset=Utf-8; foo=bar; bleh=bleu` parses to `application/json` in UTF-8 with `foo=bar` and `bleh=bleu` |
| Scenarios.ParamsWithoutCharsetParse | src/test/kotlin/com/github/adeynack/vertx/kotlin/negotiation/MimeDetailTest.kt:101-106 | `application/json; foo=bar; bleh=bleu` parses to `application/json` without charset, with `foo=bar` and `bleh=bleu` |
| Scenarios.JsonCharsetParses | src/test/kotlin/com/github/adeynack/vertx/kotlin/negotiation/MimeDetailTest.kt:56-82 | `application/json; charset=UTF-8`, `...=Utf-8` and `...=ascii` parse to `application/json` with that charset and no other parameters |

## Left out

- Vert.x itself, as a foreign library:
  - matching a route's `produces`/`consumes` against a request;
  - computing `acceptableContentType` and ranking `Accept` by quality;
  - parsing the headers and collecting the body;
  - the default `fail(e)` handler.

  Their results are fields of `Request`, and `fail(e)` is the `Failed` response. A request that
  no negotiated route takes is answered by the catch-all route, which `RouteResponse` models.
- Asynchronous `CompletionStage` chaining. A handler yields a completed result, a failed stage
  or a synchronous throw (`Stage`).
- Jackson and the JVM byte/text codecs: uninterpreted functions (`ObjectMapper`, `TextCodec`).
- The JVM charset registry: a fixed table of six charsets and their aliases.
- Case mapping is ASCII only: `toLowerCase()` (MimeDetail.kt:41 and :84) maps `A`–`Z` and leaves
  every other character unchanged. Its dependence on the JVM default locale (the Turkish dotless
  `ı` for `I`, say) and non-ASCII case folding are not modelled. `trim` and `isBlank` use Kotlin's
  whitespace set, written out in `Text.IsWhitespace`.
- Route `produces`/`consumes` are kept as ordered lists of strings, not as Vert.x's sets.
- The handler-ignoring overloads `GET(() -> ...)`, `POST((T) -> ...)` and `POST_blank(() -> ...)`
  are the modelled overloads with a handler that ignores the routing context.
- NegotiationEngine.RoutingContext.End: requires a response not yet ended. Vert.x's own
  double-end error is not modelled.
- JsonNegotiators.JsonDeserialize: a JSON `null` body decoded by Jackson is not distinguished
  from a value.
