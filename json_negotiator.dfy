// `JsonNegotiator`: accepts any `*` + `/json`, produces `application/json`, and decides which
// MIME type it reports. The Jackson mapper and the JVM text codecs are parameters.
module JsonNegotiators {
  import opened Wrappers
  import opened Values
  import opened Text
  import opened Charsets
  import opened MimeDetails
  import opened MimeDetailProperties
  import opened ContentNegotiation

  /** The Jackson calls the negotiator makes; `None` stands for a thrown exception. */
  datatype ObjectMapper = ObjectMapper(
    writeValueAsString: Option<Value> -> Option<string>,
    readBytes: (Bytes, Class) -> Option<Value>,
    readString: (string, Class) -> Option<Value>)

  /** `String.toByteArray(charset)` and `String(bytes, charset)`. */
  datatype TextCodec = TextCodec(
    encode: (string, Charset) -> Bytes,
    decode: (Bytes, Charset) -> string)

  const DefaultCharset: Charset := Utf8

  // The default reported type: `*` + `/json; charset=utf-8`.
  const DefaultContentType: MimeDetail := MimeDetail("*", "json", Some(DefaultCharset), [])

  // `accepts`: any primary type, subtype `json`, no charset.
  const JsonAccepts: MimeDetail := MimeDetail("*", "json", None, [])

  /** `produces`: `application/json`, no charset. */
  const JsonProduces: MimeDetail := MimeDetail("application", "json", None, [])

  // The type `serialize` reports: the requested one with UTF-8 filled in, or the default type.
  function ProducedContentType(accepted: Option<MimeDetail>): (r: MimeDetail)
    ensures r.charset.Some?
    ensures accepted.None? ==> r == DefaultContentType
    ensures accepted.Some? ==> Supports(accepted.value, r)
    ensures accepted.Some? ==> r.(charset := None) == accepted.value.(charset := None)
    ensures accepted.Some? && accepted.value.charset.Some? ==> r == accepted.value
    ensures accepted.Some? && accepted.value.charset.None? ==> r.charset == Some(DefaultCharset)
    ensures accepted.Some? && Valid(accepted.value) ==> Valid(r)
  {
    match accepted
    case Some(it) =>
      if it.charset.None? then it.(charset := Some(DefaultCharset)) else it
    case None => DefaultContentType
  }

  /** Asking again for the type already reported changes nothing. */
  lemma ProducedContentTypeIdempotent(accepted: Option<MimeDetail>)
    ensures ProducedContentType(Some(ProducedContentType(accepted))) == ProducedContentType(accepted)
  {
  }

  /** `serialize`: never refuses; the bytes are the JSON text encoded in the reported charset. */
  function JsonSerialize(mapper: ObjectMapper, codec: TextCodec, o: Option<Value>, accepted: Option<MimeDetail>)
    : (r: Attempt<Bytes>)
    ensures !r.Refused?
    ensures r.Threw? <==> mapper.writeValueAsString(o).None?
    ensures r.Produced? ==> r.result.contentType == ProducedContentType(accepted)
    ensures r.Produced? ==>
      r.result.body == codec.encode(mapper.writeValueAsString(o).value, r.result.contentType.charset.value)
  {
    var contentType := ProducedContentType(accepted);
    match mapper.writeValueAsString(o)
    case None => Threw
    case Some(text) => Produced(NegotiationResult(contentType, codec.encode(text, contentType.charset.value)))
  }

  // `deserialize`: without a charset Jackson reads the bytes and the type reported is the
  // default type stripped of its charset; with one, the bytes are decoded in it and the
  // given type is reported.
  function JsonDeserialize(mapper: ObjectMapper, codec: TextCodec, b: Bytes, clazz: Class, contentType: Option<MimeDetail>)
    : (r: Attempt<Value>)
    ensures !r.Refused?
    ensures (contentType.None? || contentType.value.charset.None?) ==>
      (r.Threw? <==> mapper.readBytes(b, clazz).None?)
    ensures r.Produced? && (contentType.None? || contentType.value.charset.None?) ==>
      r.result == NegotiationResult(JsonAccepts, mapper.readBytes(b, clazz).value)
    ensures contentType.Some? && contentType.value.charset.Some? ==>
      var text := codec.decode(b, contentType.value.charset.value);
      (r.Threw? <==> mapper.readString(text, clazz).None?) &&
      (r.Produced? ==> r.result == NegotiationResult(contentType.value, mapper.readString(text, clazz).value))
  {
    if contentType.None? || contentType.value.charset.None? then
      match mapper.readBytes(b, clazz)
      case None => Threw
      case Some(v) => Produced(NegotiationResult(DefaultContentType.(charset := None), v))
    else
      var text := codec.decode(b, contentType.value.charset.value);
      match mapper.readString(text, clazz)
      case None => Threw
      case Some(v) => Produced(NegotiationResult(contentType.value, v))
  }

  lemma TokenLiterals()
    ensures IsToken("*") && IsToken("json") && IsToken("application")
  {
    assert IsTokenChar('*');
    LettersAreToken("json");
    LettersAreToken("application");
  }

  /** Both declarations are well-formed MIME types. */
  lemma JsonDeclarationsValid()
    ensures Valid(JsonAccepts) && Valid(JsonProduces)
  {
    TokenLiterals();
  }

  /** A `JsonNegotiator(mapper)` instance. */
  function JsonNegotiator(mapper: ObjectMapper, codec: TextCodec): (n: ContentNegotiator)
    ensures n.accepts == JsonAccepts && n.produces == JsonProduces
    ensures WellFormed(n)
  {
    JsonDeclarationsValid();
    ContentNegotiator(
      JsonAccepts,
      JsonProduces,
      (o, accepted) => JsonSerialize(mapper, codec, o, accepted),
      (b, clazz, contentType) => JsonDeserialize(mapper, codec, b, clazz, contentType))
  }

  /** The JSON negotiator takes a request body of any primary type whose subtype is `json` in any case. */
  lemma JsonAcceptsAnyJson(m: MimeDetail)
    ensures Supports(JsonAccepts, m) <==> EqualsIgnoreCase("json", m.subType)
  {
  }
}
