/**
 * Concrete behaviour of the router set up by the DSL's own end-to-end tests: a JSON
 * negotiator followed by a negotiator that always answers a fixed string.
 */
module Scenarios {
  import opened Wrappers
  import opened Values
  import opened Text
  import opened Charsets
  import opened MimeParams
  import opened MimeDetails
  import opened MimeDetailProperties
  import opened ContentNegotiation
  import opened JsonNegotiators
  import opened HttpResults
  import opened NegotiationEngine
  import opened RouteBuilder

  /** `application/HardCodedString`, both what it accepts and what it produces. */
  const HardCodedType: MimeDetail := MimeDetail("application", "HardCodedString", None, [])

  const HardCodedText := "Hard Coded String"

  /**
   * The `HardCodedString` negotiator: it serializes anything to a fixed text, reporting
   * the requested type (`acceptedContentType!!` throws when there is none), and its
   * `deserialize` always throws.
   */
  function HardCodedString(codec: TextCodec): (n: ContentNegotiator)
    ensures n.accepts == HardCodedType && n.produces == HardCodedType
  {
    ContentNegotiator(
      HardCodedType,
      HardCodedType,
      (o: Option<Value>, accepted: Option<MimeDetail>) =>
        if accepted.None? then Threw
        else Produced(NegotiationResult(accepted.value, codec.encode(HardCodedText, Utf8))),
      (b: Bytes, clazz: Class, contentType: Option<MimeDetail>) => Threw)
  }

  /** It reports exactly the requested type, throws without one, and never decodes. */
  lemma HardCodedStringCalls(codec: TextCodec, o: Option<Value>, t: Option<MimeDetail>, b: Bytes, c: Class)
    ensures HardCodedString(codec).serialize(o, t).Threw? <==> t.None?
    ensures t.Some? ==> HardCodedString(codec).serialize(o, t).result.contentType == t.value
    ensures HardCodedString(codec).deserialize(b, c, t).Threw?
  {
  }

  /** `negotiate(JsonNegotiator(), HardCodedString) { }`. */
  function TestNegotiators(mapper: ObjectMapper, codec: TextCodec): (ns: seq<ContentNegotiator>)
    ensures |ns| == 2
  {
    [JsonNegotiator(mapper, codec), HardCodedString(codec)]
  }

  lemma HardCodedTypeValid()
    ensures Valid(HardCodedType)
  {
    TokenLiterals();
    LettersAreToken("HardCodedString");
  }

  /** A request with no body, no path parameters and no `Content-Type`. */
  function GetRequest(acceptable: Option<string>, accept: seq<AcceptEntry>): Request
  {
    Request(None, acceptable, accept, Some([]), map[])
  }

  const Utf8Json: MimeDetail := MimeDetail("application", "json", Some(Utf8), [])

  lemma Utf8JsonText()
    ensures Format(Utf8Json) == "application/json; charset=utf-8"
  {
  }

  /** No `Accept` header: the JSON negotiator answers in `application/json; charset=utf-8`. */
  lemma DefaultResponseIsUtf8Json(mapper: ObjectMapper, codec: TextCodec, body: Option<Value>, text: string)
    requires mapper.writeValueAsString(body) == Some(text)
    ensures RespondResponse(TestNegotiators(mapper, codec), GetRequest(None, []), Ok(body))
         == Sent(200, Some("application/json; charset=utf-8"), codec.encode(text, Utf8))
  {
    var ns := TestNegotiators(mapper, codec);
    RespondWithoutAcceptable(ns, GetRequest(None, []), Ok(body));
    assert ns[0].serialize(body, Some(JsonProduces)) == JsonSerialize(mapper, codec, body, Some(JsonProduces));
    assert ProducedContentType(Some(JsonProduces)) == Utf8Json;
    Utf8JsonText();
  }


  /** A valid type without parameters is parsed back from its canonical text. */
  lemma ParsesFrom(m: MimeDetail, text: string)
    requires Valid(m) && m.parameters == [] && Format(m) == text
    ensures Parse(text) == Success(m)
  {
    ParseFormat(m);
  }

  lemma JsonProducesFormat()
    ensures Format(JsonProduces) == "application/json"
  {
  }

  lemma JsonProducesText()
    ensures Parse("application/json") == Success(JsonProduces)
  {
    JsonDeclarationsValid();
    JsonProducesFormat();
    ParsesFrom(JsonProduces, "application/json");
  }

  lemma HardCodedTypeText()
    ensures Parse("application/HardCodedString") == Success(HardCodedType)
  {
    HardCodedTypeValid();
    HardCodedTypeFormat();
    ParsesFrom(HardCodedType, "application/HardCodedString");
  }

  const IsoEntry: AcceptEntry := AcceptEntry(Some("application"), Some("json"), Some("iso-8859-1"))

  const IsoJson: MimeDetail := MimeDetail("application", "json", Some(Iso8859_1), [])

  lemma IsoEntryConverts()
    ensures AcceptMime(IsoEntry) == Success(IsoJson)
  {
    TokenLiterals();
    ForNameLowerName(Iso8859_1);
    assert LowerName(Iso8859_1) == "iso-8859-1";
    assert ResolveCharset(IsoEntry.charset) == Success(Some(Iso8859_1));
  }

  /** With one Accept entry that the acceptable type supports, that entry is the requested type. */
  lemma SingleEntrySelection(ns: seq<ContentNegotiator>, acceptable: string, accept: MimeDetail,
                             entry: AcceptEntry, m: MimeDetail, k: nat)
    requires |ns| > 0 && Parse(acceptable) == Success(accept)
    requires AcceptMime(entry) == Success(m) && Supports(accept, m)
    requires k < |ns| && Supports(ns[k].produces, accept)
    requires forall j :: 0 <= j < k ==> !Supports(ns[j].produces, accept)
    ensures SelectResponse(ns, GetRequest(Some(acceptable), [entry])) == Success(Selection(Some(m), Some(k)))
  {
    assert FirstWhere([entry], StopsSearch(accept)) == 0;
    assert FirstAcceptMatch(accept, [entry]) == Success(Some(m));
  }

  lemma IsoEntrySelected(ns: seq<ContentNegotiator>)
    requires |ns| > 0 && ns[0].produces == JsonProduces
    ensures SelectResponse(ns, GetRequest(Some("application/json"), [IsoEntry]))
         == Success(Selection(Some(IsoJson), Some(0)))
  {
    JsonProducesText();
    IsoEntryConverts();
    SingleEntrySelection(ns, "application/json", JsonProduces, IsoEntry, IsoJson, 0);
  }

  lemma IsoJsonText()
    ensures Format(IsoJson) == "application/json; charset=iso-8859-1"
  {
  }

  /** `Accept: application/json;charset=iso-8859-1`: the requested charset is kept. */
  lemma RequestedCharsetIsKept(mapper: ObjectMapper, codec: TextCodec, body: Option<Value>, text: string)
    requires mapper.writeValueAsString(body) == Some(text)
    ensures RespondResponse(TestNegotiators(mapper, codec), GetRequest(Some("application/json"), [IsoEntry]), Ok(body))
         == Sent(200, Some("application/json; charset=iso-8859-1"), codec.encode(text, Iso8859_1))
  {
    var ns := TestNegotiators(mapper, codec);
    IsoEntrySelected(ns);
    assert ns[0].serialize(body, Some(IsoJson)) == JsonSerialize(mapper, codec, body, Some(IsoJson));
    assert ProducedContentType(Some(IsoJson)) == IsoJson;
    IsoJsonText();
  }

  // An `Accept: */*` entry.
  const WildcardEntry: AcceptEntry := AcceptEntry(Some("*"), Some("*"), None)

  /** The wildcard entry converts, and `application/json` does not support it. */
  lemma WildcardEntrySkipped()
    ensures AcceptMime(WildcardEntry) == Success(MimeDetail(Wildcard, Wildcard, None, []))
    ensures Skipped(JsonProduces, WildcardEntry)
  {
    TokenLiterals();
    CandidateWildcardNotAbsorbed(JsonProduces, MimeDetail(Wildcard, Wildcard, None, []));
  }

  /** When every Accept entry is passed over, the first negotiator producing the acceptable type answers in its own type. */
  lemma NoEntrySelection(ns: seq<ContentNegotiator>, acceptable: string, accept: MimeDetail,
                         entries: seq<AcceptEntry>, k: nat)
    requires |ns| > 0 && Parse(acceptable) == Success(accept)
    requires FirstAcceptMatch(accept, entries) == Success(None)
    requires k < |ns| && Supports(ns[k].produces, accept)
    requires forall j :: 0 <= j < k ==> !Supports(ns[j].produces, accept)
    ensures SelectResponse(ns, GetRequest(Some(acceptable), entries)) == Success(Selection(Some(ns[k].produces), Some(k)))
  {
    assert FirstWhere(ns, ProducesType(accept)) == k;
  }

  lemma WildcardSelection(ns: seq<ContentNegotiator>)
    requires |ns| > 0 && ns[0].produces == JsonProduces
    ensures SelectResponse(ns, GetRequest(Some("application/json"), [WildcardEntry]))
         == Success(Selection(Some(JsonProduces), Some(0)))
  {
    JsonProducesText();
    WildcardEntrySkipped();
    assert FirstWhere([WildcardEntry], StopsSearch(JsonProduces)) == 1;
    NoEntrySelection(ns, "application/json", JsonProduces, [WildcardEntry], 0);
  }

  // `Accept: */*`, for which Vert.x picks the route's first declared type `application/json`:
  // the wildcard entry is passed over and the JSON negotiator answers in its own type, in UTF-8.
  lemma WildcardAcceptAnswersJson(mapper: ObjectMapper, codec: TextCodec, body: Option<Value>, text: string)
    requires mapper.writeValueAsString(body) == Some(text)
    ensures RespondResponse(TestNegotiators(mapper, codec), GetRequest(Some("application/json"), [WildcardEntry]),
                            Ok(body))
         == Sent(200, Some("application/json; charset=utf-8"), codec.encode(text, Utf8))
  {
    var ns := TestNegotiators(mapper, codec);
    WildcardSelection(ns);
    assert ns[0].serialize(body, Some(JsonProduces)) == JsonSerialize(mapper, codec, body, Some(JsonProduces));
    assert ProducedContentType(Some(JsonProduces)) == Utf8Json;
    Utf8JsonText();
  }

  const HardCodedEntry: AcceptEntry := AcceptEntry(Some("application"), Some("HardCodedString"), None)

  lemma JsonDoesNotProduceHardCoded()
    ensures !Supports(JsonProduces, HardCodedType)
  {
    assert |Lower("json")| != |Lower("HardCodedString")|;
  }

  lemma HardCodedEntryConverts()
    ensures AcceptMime(HardCodedEntry) == Success(HardCodedType)
  {
    HardCodedTypeValid();
  }

  lemma JsonSkippedForHardCoded(ns: seq<ContentNegotiator>)
    requires |ns| == 2 && ns[0].produces == JsonProduces
    ensures forall j :: 0 <= j < 1 ==> !Supports(ns[j].produces, HardCodedType)
  {
    JsonDoesNotProduceHardCoded();
  }

  lemma HardCodedEntrySelected(ns: seq<ContentNegotiator>, acceptable: string)
    requires |ns| == 2 && ns[0].produces == JsonProduces && ns[1].produces == HardCodedType
    requires acceptable == "application/HardCodedString"
    ensures SelectResponse(ns, GetRequest(Some(acceptable), [HardCodedEntry]))
         == Success(Selection(Some(HardCodedType), Some(1)))
  {
    HardCodedTypeText();
    HardCodedEntryConverts();
    JsonSkippedForHardCoded(ns);
    SingleEntrySelection(ns, acceptable, HardCodedType, HardCodedEntry, HardCodedType, 1);
  }



  lemma HardCodedTypeFormat()
    ensures Format(HardCodedType) == "application/HardCodedString"
  {
  }

  /** `Accept: application/HardCodedString`: the second negotiator is chosen and answers its fixed text. */
  lemma SecondNegotiatorChosen(mapper: ObjectMapper, codec: TextCodec, body: Option<Value>)
    ensures RespondResponse(TestNegotiators(mapper, codec),
                            GetRequest(Some("application/HardCodedString"), [HardCodedEntry]), Ok(body))
         == Sent(200, Some("application/HardCodedString"), codec.encode(HardCodedText, Utf8))
  {
    var ns := TestNegotiators(mapper, codec);
    HardCodedEntrySelected(ns, "application/HardCodedString");
    HardCodedTypeFormat();
  }

  /** Nesting `a { b { "c/d" { } } }` yields the prefix `[a, b, c, d]`. */
  lemma NestedPrefix(scope: Scope, a: string, b: string, c: string, d: string)
    requires ValidScope(scope) && scope.pathPrefix == []
    requires '/' !in a && '/' !in b && '/' !in c && '/' !in d
    ensures Invoke(scope, a).Success?
    ensures var s1 := Invoke(scope, a).value;
      Invoke(s1, b).Success? &&
      var s2 := Invoke(s1, b).value;
      Invoke(s2, c + "/" + d).Success? &&
      Invoke(s2, c + "/" + d).value.pathPrefix == [a, b, c, d]
  {
    SplitNoSep(a, '/');
    SplitNoSep(b, '/');
    SplitNoSep(d, '/');
    SplitAtSep(c, d, '/');
  }

  lemma NotBlank(s: string)
    requires s != [] && !IsWhitespace(s[0])
    ensures !IsBlank(s)
  {
  }

  lemma KeptPart(x: string, rest: seq<string>)
    requires !IsBlank(x)
    ensures NonBlank([x] + rest) == [x] + NonBlank(rest)
  {
    assert ([x] + rest)[1..] == rest;
  }

  lemma FourPartsKept(a: string, b: string, c: string, d: string)
    requires !IsBlank(a) && !IsBlank(b) && !IsBlank(c) && !IsBlank(d)
    ensures NonBlank([a, b, c, d]) == [a, b, c, d]
  {
    KeptPart(d, []);
    assert [d] + [] == [d];
    KeptPart(c, [d]);
    KeptPart(b, [c, d]);
    KeptPart(a, [b, c, d]);
    assert [c] + [d] == [c, d] && [b] + [c, d] == [b, c, d] && [a] + [b, c, d] == [a, b, c, d];
  }


  lemma FourPartsJoined(a: string, b: string, c: string, d: string)
    ensures Join([a, b, c, d], "/") == a + "/" + (b + "/" + (c + "/" + d))
  {
    assert [a, b, c, d][1..] == [b, c, d] && [b, c, d][1..] == [c, d] && [c, d][1..] == [d];
    assert Join([c, d], "/") == c + "/" + d;
    assert Join([b, c, d], "/") == b + "/" + (c + "/" + d);
  }

  lemma FourPartPath(a: string, b: string, c: string, d: string)
    requires !IsBlank(a) && !IsBlank(b) && !IsBlank(c) && !IsBlank(d)
    ensures FullPath([a, b, c, d]) == "/" + (a + "/" + (b + "/" + (c + "/" + d)))
  {
    FourPartsKept(a, b, c, d);
    FourPartsJoined(a, b, c, d);
  }

  lemma PathPartsNoSlash()
    ensures '/' !in "foo" && '/' !in ":id" && '/' !in "child" && '/' !in ":childId"
  {
  }

  lemma ChildPathText()
    ensures "child" + "/" + ":childId" == "child/:childId"
  {
  }

  lemma NestedPathText()
    ensures "/" + ("foo" + "/" + (":id" + "/" + ("child" + "/" + ":childId"))) == "/foo/:id/child/:childId"
  {
  }

  lemma PathPartsNotBlank()
    ensures !IsBlank("foo") && !IsBlank(":id") && !IsBlank("child") && !IsBlank(":childId")
  {
    NotBlank("foo");
    NotBlank(":id");
    NotBlank("child");
    NotBlank(":childId");
  }

  /** `"foo" { ":id" { "child/:childId" { } } }` declares `/foo/:id/child/:childId`. */
  lemma NestedPath(scope: Scope)
    requires ValidScope(scope) && scope.pathPrefix == []
    ensures Invoke(scope, "foo").Success?
    ensures var foo := Invoke(scope, "foo").value;
      Invoke(foo, ":id").Success? &&
      var id := Invoke(foo, ":id").value;
      Invoke(id, "child/:childId").Success? &&
      FullPath(Invoke(id, "child/:childId").value.pathPrefix) == "/foo/:id/child/:childId"
  {
    PathPartsNoSlash();
    ChildPathText();
    NestedPathText();
    NestedPrefix(scope, "foo", ":id", "child", ":childId");
    PathPartsNotBlank();
    FourPartPath("foo", ":id", "child", ":childId");
  }

  /** `application/json; charset=UTF-8`, `…=Utf-8` and `…=ascii` parse to JSON in that charset. */
  lemma JsonCharsetParses(head: string, name: string)
    requires head == "application/json"
    requires name == "UTF-8" || name == "Utf-8" || name == "ascii"
    ensures Parse(head + "; charset=" + name)
         == Success(MimeDetail("application", "json", Some(if name == "ascii" then UsAscii else Utf8), []))
  {
    JsonTypeParts(head);
    TestCharsetName(name);
    CharsetSegmentParses(head, name);
  }

  lemma JsonTypeParts(head: string)
    requires head == "application/json"
    ensures ';' !in head && Split(head, '/') == ["application", "json"]
    ensures IsToken("application") && IsToken("json")
  {
    assert head == "application" + ['/'] + "json";
    SplitTwo("application", "json", '/');
    TokenLiterals();
  }

  lemma TestCharsetName(name: string)
    requires name == "UTF-8" || name == "Utf-8" || name == "ascii"
    ensures ';' !in name && '=' !in name
    ensures ForName(name) == Success(if name == "ascii" then UsAscii else Utf8)
  {
    CharsetNames();
  }

  // The further parameters of two `parse` tests, in the order they are written.
  const FooBleh: Params := [("foo", "bar"), ("bleh", "bleu")]

  /** `application/json; charset=Utf-8; foo=bar; bleh=bleu`: UTF-8, and the other two parameters in order. */
  lemma CharsetAndParamsParse(mimeType: string)
    requires mimeType == "application/json" + "; charset=Utf-8" + "; foo=bar" + "; bleh=bleu"
    ensures Parse(mimeType) == Success(MimeDetail("application", "json", Some(Utf8), FooBleh))
  {
    var m := MimeDetail("application", "json", None, FooBleh);
    var name := "Utf-8";
    FooBlehRoundTrips(m);
    TestCharsetName(name);
    CharsetAndParamsText(mimeType, m, name);
    CharsetSpellingParses(m, name);
  }

  lemma CharsetAndParamsText(mimeType: string, m: MimeDetail, name: string)
    requires mimeType == "application/json" + "; charset=Utf-8" + "; foo=bar" + "; bleh=bleu"
    requires m == MimeDetail("application", "json", None, FooBleh) && name == "Utf-8"
    ensures mimeType == m.primaryType + "/" + m.subType + ";" + ParamSegment((CharsetParamName, name)) + FormatParams(m.parameters)
  {
    JsonHeadText(m.primaryType, m.subType);
    CharsetSegmentText(name);
    FooBlehText(m.parameters);
  }

  /** `application/json; foo=bar; bleh=bleu`: no charset, and the two parameters in order. */
  lemma ParamsWithoutCharsetParse(mimeType: string)
    requires mimeType == "application/json" + "; foo=bar" + "; bleh=bleu"
    ensures Parse(mimeType) == Success(MimeDetail("application", "json", None, FooBleh))
  {
    var m := MimeDetail("application", "json", None, FooBleh);
    FooBlehRoundTrips(m);
    ParamsText(mimeType, m);
    ParseFormat(m);
  }

  lemma ParamsText(mimeType: string, m: MimeDetail)
    requires mimeType == "application/json" + "; foo=bar" + "; bleh=bleu"
    requires m == MimeDetail("application", "json", None, FooBleh)
    ensures Format(m) == mimeType
  {
    JsonHeadText(m.primaryType, m.subType);
    FooBlehText(m.parameters);
  }

  lemma FooBlehRoundTrips(m: MimeDetail)
    requires m == MimeDetail("application", "json", None, FooBleh)
    ensures RoundTrips(m)
  {
    TokenLiterals();
    LettersAreToken("foo");
    LettersAreToken("bar");
    LettersAreToken("bleh");
    LettersAreToken("bleu");
  }

  lemma JsonHeadText(p0: string, p1: string)
    requires p0 == "application" && p1 == "json"
    ensures p0 + "/" + p1 == "application/json"
  {
  }

  lemma FooBlehText(ps: seq<Pair>)
    requires ps == FooBleh
    ensures FormatParams(ps) == "; foo=bar" + "; bleh=bleu"
  {
    var foo := ps[..1];
    assert foo == [("foo", "bar")];
    assert FormatParams(foo) == "" + ";" + ParamSegment(("foo", "bar"));
    ParamText("foo", "bar");
    ParamText("bleh", "bleu");
  }

  lemma ParamText(k: string, v: string)
    ensures ";" + ParamSegment((k, v)) == "; " + k + "=" + v
  {
  }

  /** `application/json; charset` fails: its parameter segment has no `=`. */
  lemma IncompleteCharsetFails(mimeType: string)
    requires mimeType == "application/json; charset"
    ensures Parse(mimeType) == Failure(MalformedParameter(" charset"))
  {
    JsonTypeParts("application/json");
    IncompleteCharsetText(mimeType);
    MissingEqualsFails("application/json", " charset");
  }

  lemma IncompleteCharsetText(mimeType: string)
    requires mimeType == "application/json; charset"
    ensures mimeType == "application/json" + [';'] + " charset"
    ensures ';' !in " charset" && '=' !in " charset"
  {
  }

  /** `application/json; charset=foo` fails with the unsupported-charset error, not a parsing error. */
  lemma UnknownCharsetFails(mimeType: string)
    requires mimeType == "application/json; charset=foo"
    ensures Parse(mimeType) == Failure(CharsetFailure(UnsupportedCharset("foo")))
  {
    JsonTypeParts("application/json");
    FooIsUnsupported("foo");
    UnknownCharsetText(mimeType);
    CharsetSegmentFails("application/json", "foo");
  }

  lemma UnknownCharsetText(mimeType: string)
    requires mimeType == "application/json; charset=foo"
    ensures mimeType == "application/json" + "; charset=" + "foo"
    ensures ';' !in "foo" && '=' !in "foo"
  {
  }

  /** `foo` names no charset but is a legal name. */
  lemma FooIsUnsupported(name: string)
    requires name == "foo"
    ensures ForName(name) == Failure(UnsupportedCharset(name))
  {
    assert IsLower(name);
    LowerOfLower(name);
    FooIsUnknown(name);
  }

  lemma FooIsUnknown(name: string)
    requires name == "foo"
    ensures Lookup(name) == None && IsLegalName(name)
  {
  }

  /** The charset names the tests use resolve in any case. */
  lemma CharsetNames()
    ensures ForName("ascii") == Success(UsAscii)
    ensures ForName("UTF-8") == Success(Utf8) && ForName("Utf-8") == Success(Utf8)
  {
    assert "ascii" in Aliases(UsAscii);
    assert Lower("ascii") == "ascii";
    ForNameLowerName(Utf8);
    assert EqualsIgnoreCase("UTF-8", "utf-8") && EqualsIgnoreCase("Utf-8", "utf-8");
    ForNameIgnoresCase("UTF-8", "utf-8");
    ForNameIgnoresCase("Utf-8", "utf-8");
  }
}
