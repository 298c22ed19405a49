/** The negotiator contract: what a codec declares and the calls the engine makes on it. */
module ContentNegotiation {
  import opened Wrappers
  import opened Values
  import opened MimeDetails

  /** The final MIME type of a (de)serialization, with the produced bytes or decoded value. */
  datatype NegotiationResult<+T> = NegotiationResult(contentType: MimeDetail, body: T)

  /** A negotiator call: it returns a result, returns `null` (refuses), or throws. */
  datatype Attempt<+T> = Produced(result: NegotiationResult<T>) | Refused | Threw

  /**
   * The `ContentNegotiator` interface as a record: the fixed `accepts` and `produces`
   * declarations, `serialize(o, acceptedContentType)` and `deserialize(b, clazz, contentType)`.
   */
  datatype ContentNegotiator = ContentNegotiator(
    accepts: MimeDetail,
    produces: MimeDetail,
    serialize: (Option<Value>, Option<MimeDetail>) -> Attempt<Bytes>,
    deserialize: (Bytes, Class, Option<MimeDetail>) -> Attempt<Value>)

  /** Declarations made through the validating constructor. */
  predicate WellFormed(n: ContentNegotiator)
  {
    Valid(n.accepts) && Valid(n.produces)
  }
}
