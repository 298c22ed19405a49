/**
 * `MimeDetail`: a parsed MIME type (primary type, subtype, optional charset and
 * further parameters), its validating constructor, `parse`, `parseOrNull`,
 * `supports` and the canonical `toString`.
 */
module MimeDetails {
  import opened Wrappers
  import opened Text
  import opened Charsets
  import opened MimeParams

  const Wildcard: string := "*"
  const CharsetParamName: string := "charset"

  /**
   * The token characters of section 5.1 of RFC 2045: printable ASCII except the tspecials.
   * None is whitespace or one of the separators `parse` splits on.
   */
  function IsTokenChar(c: char): (b: bool)
    ensures b ==> !IsWhitespace(c) && c != ';' && c != '/' && c != '='
  {
    ' ' < c && (c as int) < 127 && c !in "()<>@,;:/[]?=\\\""
  }

  /** Every character is a token character; the empty string qualifies. */
  predicate IsToken(s: string)
  {
    forall i :: 0 <= i < |s| ==> IsTokenChar(s[i])
  }

  datatype MimeDetail = MimeDetail(
    primaryType: string,
    subType: string,
    charset: Option<Charset>,
    parameters: Params)

  /** The invariant the constructor establishes. */
  predicate Valid(m: MimeDetail)
  {
    IsToken(m.primaryType) && IsToken(m.subType) &&
    forall i :: 0 <= i < |m.parameters| ==> IsToken(m.parameters[i].0) && IsToken(m.parameters[i].1)
  }

  /** The exceptions `parse` and the constructor throw. */
  datatype MimeError =
    | MalformedType(mimeType: string)        // MimeDetailParsingException: not `primary/sub`
    | MalformedParameter(segment: string)    // MimeDetailParsingException: not `key=value`
    | CharsetFailure(error: CharsetError)    // from Charset.forName
    | InvalidValue(value: string)            // IllegalArgumentException from the constructor

  /** The first parameter key or value, in iteration order, that is not a token. */
  function FirstInvalidParam(ps: seq<Pair>): (r: Option<string>)
    ensures r.None? <==> forall i :: 0 <= i < |ps| ==> IsToken(ps[i].0) && IsToken(ps[i].1)
    ensures r.Some? ==> !IsToken(r.value)
  {
    if ps == [] then None
    else if !IsToken(ps[0].0) then Some(ps[0].0)
    else if !IsToken(ps[0].1) then Some(ps[0].1)
    else
      var r := FirstInvalidParam(ps[1..]);
      assert forall i :: 0 < i < |ps| ==> ps[i] == ps[1..][i - 1];
      r
  }

  /** The primary constructor: validates the primary type, the subtype, then every key and value. */
  function Make(primaryType: string, subType: string, charset: Option<Charset>, parameters: Params)
    : (r: Result<MimeDetail, MimeError>)
    ensures r.Success? <==> Valid(MimeDetail(primaryType, subType, charset, parameters))
    ensures r.Success? ==> r.value == MimeDetail(primaryType, subType, charset, parameters)
    ensures r.Failure? ==> r.error.InvalidValue? && !IsToken(r.error.value)
    ensures !IsToken(primaryType) ==> r == Failure(InvalidValue(primaryType))
  {
    if !IsToken(primaryType) then Failure(InvalidValue(primaryType))
    else if !IsToken(subType) then Failure(InvalidValue(subType))
    else match FirstInvalidParam(parameters)
      case Some(v) => Failure(InvalidValue(v))
      case None => Success(MimeDetail(primaryType, subType, charset, parameters))
  }

  /** One `key=value` segment: the key is trimmed and lower-cased, the value kept as written. */
  function ParseParam(segment: string): (r: Result<Pair, MimeError>)
    ensures r.Success? <==> |Split(segment, '=')| == 2
    ensures r.Success? ==> r.value == (Lower(Trim(Split(segment, '=')[0])), Split(segment, '=')[1])
    ensures r.Failure? ==> r.error == MalformedParameter(segment)
  {
    var p := Split(segment, '=');
    if |p| != 2 then Failure(MalformedParameter(segment))
    else Success((Lower(Trim(p[0])), p[1]))
  }

  /** Element `i` is the first on which `f` fails, and it fails with `e`. */
  predicate FirstFailureAt<A, B>(f: A -> Result<B, MimeError>, xs: seq<A>, i: int, e: MimeError)
  {
    0 <= i < |xs| && f(xs[i]) == Failure(e) &&
    forall j :: 0 <= j < i ==> f(xs[j]).Success?
  }

  /** The segments after the first, mapped in order; the first malformed one fails. */
  function ParseParams(segments: seq<string>): (r: Result<seq<Pair>, MimeError>)
    ensures r.Success? <==> forall i :: 0 <= i < |segments| ==> ParseParam(segments[i]).Success?
    ensures r.Success? ==> |r.value| == |segments|
    ensures r.Success? ==> forall i :: 0 <= i < |segments| ==> r.value[i] == ParseParam(segments[i]).value
    ensures r.Failure? ==> exists i :: FirstFailureAt(ParseParam, segments, i, r.error)
  {
    if segments == [] then Success([])
    else match ParseParam(segments[0])
      case Failure(e) =>
        assert FirstFailureAt(ParseParam, segments, 0, e);
        Failure(e)
      case Success(p) =>
        var rest := ParseParams(segments[1..]);
        match rest
        case Failure(e) =>
          ParseFailureShift(segments, e);
          Failure(e)
        case Success(ps) =>
          ParseSuccessShift(segments, p, ps);
          Success([p] + ps)
  }

  lemma ParseSuccessShift(segments: seq<string>, p: Pair, ps: seq<Pair>)
    requires |segments| > 0 && ParseParam(segments[0]) == Success(p)
    requires |ps| == |segments| - 1
    requires forall i :: 0 <= i < |ps| ==> ParseParam(segments[1..][i]) == Success(ps[i])
    ensures forall i :: 0 <= i < |segments| ==> ParseParam(segments[i]) == Success(([p] + ps)[i])
  {
    ShiftMapped(segments, ParseParam, p, ps);
  }

  /** A property of every element of the tail, shifted by one position. */
  lemma ShiftMapped<A, B>(xs: seq<A>, f: A -> Result<B, MimeError>, y: B, ys: seq<B>)
    requires |xs| > 0 && f(xs[0]) == Success(y)
    requires |ys| == |xs| - 1
    requires forall i :: 0 <= i < |ys| ==> f(xs[1..][i]) == Success(ys[i])
    ensures forall i :: 0 <= i < |xs| ==> f(xs[i]) == Success(([y] + ys)[i])
  {
    forall i | 0 < i < |xs|
      ensures f(xs[i]) == Success(([y] + ys)[i])
    {
      assert xs[i] == xs[1..][i - 1];
    }
  }


  /** The first failing segment of the tail is the first failing segment of the whole, after a good head. */
  lemma ParseFailureShift(segments: seq<string>, e: MimeError)
    requires |segments| > 0 && ParseParam(segments[0]).Success?
    requires exists i :: FirstFailureAt(ParseParam, segments[1..], i, e)
    ensures exists i :: FirstFailureAt(ParseParam, segments, i, e)
  {
    var i :| FirstFailureAt(ParseParam, segments[1..], i, e);
    FailureShifted(ParseParam, segments, i, e);
  }

  /** A first failure in the tail, shifted by one position past a head that succeeds. */
  lemma FailureShifted<A, B>(f: A -> Result<B, MimeError>, xs: seq<A>, i: int, e: MimeError)
    requires |xs| > 0 && f(xs[0]).Success?
    requires FirstFailureAt(f, xs[1..], i, e)
    ensures FirstFailureAt(f, xs, i + 1, e)
  {
    assert xs[1..][i] == xs[i + 1];
    forall j | 0 < j < i + 1 ensures f(xs[j]).Success? {
      assert xs[j] == xs[1..][j - 1];
    }
  }

  /** One well-formed segment parses to a one-pair list. */
  lemma SingleParamParses(segment: string)
    requires ParseParam(segment).Success?
    ensures ParseParams([segment]) == Success([ParseParam(segment).value])
  {
    var r := ParseParams([segment]);
    assert [segment][0] == segment;
    assert r.Success?;
    assert |r.value| == 1;
    assert r.value[0] == ParseParam(segment).value;
    assert r.value == [ParseParam(segment).value];
  }

  /** `charset` parameter value resolved through `Charset.forName`, when present. */
  function ResolveCharset(name: Option<string>): (r: Result<Option<Charset>, MimeError>)
    ensures name.None? ==> r == Success(None)
    ensures name.Some? ==> (r.Success? <==> ForName(name.value).Success?)
    ensures name.Some? && r.Success? ==> r.value == Some(ForName(name.value).value)
    ensures r.Failure? ==> r.error.CharsetFailure?
  {
    match name
    case None => Success(None)
    case Some(n) =>
      match ForName(n)
      case Success(c) => Success(Some(c))
      case Failure(e) => Failure(CharsetFailure(e))
  }

  /** `MimeDetail.parse`. */
  function Parse(mimeType: string): (r: Result<MimeDetail, MimeError>)
    ensures |Split(Split(mimeType, ';')[0], '/')| != 2 ==> r == Failure(MalformedType(mimeType))
    ensures r.Success? ==> Valid(r.value)
    ensures r.Success? ==> Split(mimeType, ';')[0] == r.value.primaryType + "/" + r.value.subType
    ensures r.Success? ==> forall i :: 0 <= i < |r.value.parameters| ==>
      IsLower(r.value.parameters[i].0) && r.value.parameters[i].0 != CharsetParamName
    ensures r.Success? ==>
      var pp := ParseParams(Split(mimeType, ';')[1..]);
      pp.Success? && ResolveCharset(Get(ToMap(pp.value), CharsetParamName)).Success? &&
      r.value.charset == ResolveCharset(Get(ToMap(pp.value), CharsetParamName)).value &&
      r.value.parameters == Remove(ToMap(pp.value), CharsetParamName)
  {
    var parts := Split(mimeType, ';');
    var typeParts := Split(parts[0], '/');
    if |typeParts| != 2 then Failure(MalformedType(mimeType))
    else match ParseParams(parts[1..])
      case Failure(e) => Failure(e)
      case Success(pairs) =>
        var parameters := ToMap(pairs);
        match ResolveCharset(Get(parameters, CharsetParamName))
        case Failure(e) => Failure(e)
        case Success(charset) =>
          var r := Make(typeParts[0], typeParts[1], charset, Remove(parameters, CharsetParamName));
          ParsedKeysLower(parts[1..], pairs);
          JoinSplit(parts[0], '/');
          r
  }

  /** The stages of `parse`, each ending it with its own failure. */
  lemma ParseStages(mimeType: string)
    ensures var parts := Split(mimeType, ';');
      var pp := ParseParams(parts[1..]);
      |Split(parts[0], '/')| == 2 ==>
        (pp.Failure? ==> Parse(mimeType) == Failure(pp.error)) &&
        (pp.Success? && ResolveCharset(Get(ToMap(pp.value), CharsetParamName)).Failure? ==>
          Parse(mimeType) == Failure(ResolveCharset(Get(ToMap(pp.value), CharsetParamName)).error)) &&
        (Parse(mimeType).Failure? && !pp.Failure? &&
         !ResolveCharset(Get(ToMap(pp.value), CharsetParamName)).Failure? ==>
          Parse(mimeType).error.InvalidValue?)
    ensures |Split(Split(mimeType, ';')[0], '/')| != 2 ==> Parse(mimeType) == Failure(MalformedType(mimeType))
  {
  }

  /**
   * What `parse` builds once every stage passes: the two type parts, the charset the
   * `charset` parameter names, and the other parameters of `toMap` in their order.
   */
  lemma ParseResult(mimeType: string)
    ensures var parts := Split(mimeType, ';');
      var typeParts := Split(parts[0], '/');
      var pp := ParseParams(parts[1..]);
      |typeParts| == 2 && pp.Success? && ResolveCharset(Get(ToMap(pp.value), CharsetParamName)).Success? ==>
        Parse(mimeType) == Make(typeParts[0], typeParts[1], ResolveCharset(Get(ToMap(pp.value), CharsetParamName)).value,
                                Remove(ToMap(pp.value), CharsetParamName))
  {
  }

  /**
   * `parse` succeeds exactly when the type has two `/`-parts, every later segment is `key=value`,
   * the `charset` parameter (if any) resolves, and the resulting parts are all tokens.
   */
  lemma ParseSucceeds(mimeType: string)
    ensures var parts := Split(mimeType, ';');
      var typeParts := Split(parts[0], '/');
      var pp := ParseParams(parts[1..]);
      Parse(mimeType).Success? <==>
        |typeParts| == 2 && pp.Success? && ResolveCharset(Get(ToMap(pp.value), CharsetParamName)).Success? &&
        Valid(MimeDetail(typeParts[0], typeParts[1], ResolveCharset(Get(ToMap(pp.value), CharsetParamName)).value,
                         Remove(ToMap(pp.value), CharsetParamName)))
  {
    ParseResult(mimeType);
    ParseStages(mimeType);
  }

  /** A parameter segment that is not `key=value` makes `parse` fail with a parsing error. */
  lemma MalformedParameterFails(mimeType: string, i: nat)
    requires 1 <= i < |Split(mimeType, ';')| && |Split(Split(mimeType, ';')[i], '=')| != 2
    requires |Split(Split(mimeType, ';')[0], '/')| == 2
    ensures Parse(mimeType).Failure? && Parse(mimeType).error.MalformedParameter?
  {
    var parts := Split(mimeType, ';');
    var segments := parts[1..];
    assert segments[i - 1] == parts[i];
    assert !ParseParam(segments[i - 1]).Success?;
    var pp := ParseParams(segments);
    assert pp.Failure?;
    var j :| FirstFailureAt(ParseParam, segments, j, pp.error);
    ParseStages(mimeType);
  }

  /** The segment a parameter parsing error names is the first of the input's segments that is not `key=value`. */
  lemma MalformedParameterNamed(mimeType: string)
    requires Parse(mimeType).Failure? && Parse(mimeType).error.MalformedParameter?
    ensures exists i ::
      1 <= i < |Split(mimeType, ';')| &&
      Split(mimeType, ';')[i] == Parse(mimeType).error.segment &&
      |Split(Split(mimeType, ';')[i], '=')| != 2 &&
      forall j :: 1 <= j < i ==> |Split(Split(mimeType, ';')[j], '=')| == 2
  {
    var parts := Split(mimeType, ';');
    var segments := parts[1..];
    var pp := ParseParams(segments);
    ParseStages(mimeType);
    assert pp.Failure?;
    var i :| FirstFailureAt(ParseParam, segments, i, pp.error);
    assert parts[i + 1] == segments[i];
    forall j | 1 <= j < i + 1 ensures |Split(parts[j], '=')| == 2 {
      assert parts[j] == segments[j - 1];
    }
  }

  /** A charset failure of `parse` is `Charset.forName` failing on the `charset` parameter's value. */
  lemma CharsetFailureNamed(mimeType: string)
    requires Parse(mimeType).Failure? && Parse(mimeType).error.CharsetFailure?
    ensures var pairs := ParseParams(Split(mimeType, ';')[1..]);
      pairs.Success? && Get(ToMap(pairs.value), CharsetParamName).Some? &&
      ForName(Get(ToMap(pairs.value), CharsetParamName).value) == Failure(Parse(mimeType).error.error)
  {
    ParseStages(mimeType);
  }

  /** Parsed keys are lower-cased. */
  lemma ParsedKeysLower(segments: seq<string>, pairs: seq<Pair>)
    requires ParseParams(segments) == Success(pairs)
    ensures forall p :: p in ToMap(pairs) ==> IsLower(p.0)
    ensures forall p :: p in Remove(ToMap(pairs), CharsetParamName) ==> IsLower(p.0)
  {
    forall p | p in pairs ensures IsLower(p.0) {
      var i :| 0 <= i < |pairs| && pairs[i] == p;
      LowerIsLower(Trim(Split(segments[i], '=')[0]));
    }
  }

  /** `MimeDetail.parseOrNull`: never throws; `null` for a `null` input or a failed parse. */
  function ParseOrNull(mimeType: Option<string>): (r: Option<MimeDetail>)
    ensures mimeType.None? ==> r.None?
    ensures mimeType.Some? ==> (r.Some? <==> Parse(mimeType.value).Success?)
    ensures r.Some? ==> r.value == Parse(mimeType.value).value && Valid(r.value)
  {
    match mimeType
    case None => None
    case Some(s) =>
      match Parse(s)
      case Success(m) => Some(m)
      case Failure(_) => None
  }

  /**
   * `this.supports(other)`: each of this side's primary type and subtype is the wildcard or
   * equals the other's ignoring case, and this side's charset, when set, is the other's.
   * Every MIME type supports itself, and a declared charset is a hard requirement.
   */
  function Supports(m: MimeDetail, other: MimeDetail): (b: bool)
    ensures m == other ==> b
    ensures m.charset.Some? && other.charset != m.charset ==> !b
  {
    (m.primaryType == Wildcard || EqualsIgnoreCase(m.primaryType, other.primaryType)) &&
    (m.subType == Wildcard || EqualsIgnoreCase(m.subType, other.subType)) &&
    (m.charset.None? || m.charset == other.charset)
  }
}

/** Properties of `supports`, and the canonical string form with its round trip through `parse`. */
module MimeDetailProperties {
  import opened Wrappers
  import opened Text
  import opened Charsets
  import opened MimeParams
  import opened MimeDetails

  /** `supports` chains: a declaration that supports a type also supports what that type supports. */
  lemma SupportsTransitive(a: MimeDetail, b: MimeDetail, c: MimeDetail)
    requires Supports(a, b) && Supports(b, c)
    ensures Supports(a, c)
  {
  }

  /** Only `*` lower-cases to `*`. */
  lemma LowerWildcard(s: string)
    requires Lower(s) == Wildcard
    ensures s == Wildcard
  {
    assert |s| == 1 && LowerChar(s[0]) == '*';
  }

  /** A wildcard on the candidate side is never absorbed by a concrete declared type. */
  lemma CandidateWildcardNotAbsorbed(m: MimeDetail, other: MimeDetail)
    requires (m.primaryType != Wildcard && other.primaryType == Wildcard) ||
             (m.subType != Wildcard && other.subType == Wildcard)
    ensures !Supports(m, other)
  {
    if Supports(m, other) {
      if m.primaryType != Wildcard && other.primaryType == Wildcard {
        LowerWildcard(m.primaryType);
      } else {
        LowerWildcard(m.subType);
      }
    }
  }

  /** The full wildcard without a charset supports every MIME type. */
  lemma FullWildcardSupportsAll(other: MimeDetail)
    ensures Supports(MimeDetail(Wildcard, Wildcard, None, []), other)
  {
  }

  /** The text `toString` writes for one parameter, after the `;` that precedes it. */
  function ParamSegment(p: Pair): string
  {
    " " + p.0 + "=" + p.1
  }

  /** `; k=v` for each parameter, in order. */
  function FormatParams(ps: seq<Pair>): string
  {
    if ps == [] then ""
    else FormatParams(ps[..|ps| - 1]) + ";" + ParamSegment(ps[|ps| - 1])
  }

  /** The canonical form: `primary/sub`, then `; charset=<lower-cased name>`, then `; k=v` per parameter. */
  function Format(m: MimeDetail): string
  {
    m.primaryType + "/" + m.subType +
    (if m.charset.Some? then ";" + ParamSegment((CharsetParamName, LowerName(m.charset.value))) else "") +
    FormatParams(m.parameters)
  }

  /** `toString`: appends to a string builder, one parameter at a time. */
  method ToString(m: MimeDetail) returns (s: string)
    ensures s == Format(m)
  {
    s := m.primaryType + "/" + m.subType;
    if m.charset.Some? {
      s := s + "; " + CharsetParamName + "=" + LowerName(m.charset.value);
    }
    FormatHead(m);
    ghost var head := s;
    var i := 0;
    while i < |m.parameters|
      invariant 0 <= i <= |m.parameters|
      invariant s == head + FormatParams(m.parameters[..i])
    {
      var (key, value) := m.parameters[i];
      ToStringStep(head, m.parameters, i);
      s := s + "; " + key + "=" + value;
      i := i + 1;
    }
    assert m.parameters[..i] == m.parameters;
  }

  /** `appendParam` adds one `;`-separated segment. */
  lemma ToStringStep(head: string, ps: seq<Pair>, i: nat)
    requires i < |ps|
    ensures head + FormatParams(ps[..i]) + "; " + ps[i].0 + "=" + ps[i].1 == head + FormatParams(ps[..i + 1])
  {
    assert ps[..i + 1][..i] == ps[..i];
    var body := FormatParams(ps[..i]);
    assert FormatParams(ps[..i + 1]) == body + ";" + ParamSegment(ps[i]);
    calc {
      head + body + "; " + ps[i].0 + "=" + ps[i].1;
      head + (body + ";" + (" " + ps[i].0 + "=" + ps[i].1));
    }
  }

  /** The text before the parameters, as `toString` builds it. */
  lemma FormatHead(m: MimeDetail)
    ensures m.charset.Some? ==>
      Format(m) == m.primaryType + "/" + m.subType + "; " + CharsetParamName + "=" + LowerName(m.charset.value) +
                   FormatParams(m.parameters)
    ensures m.charset.None? ==> Format(m) == m.primaryType + "/" + m.subType + FormatParams(m.parameters)
  {
    var h := m.primaryType + "/" + m.subType;
    var fp := FormatParams(m.parameters);
    if m.charset.Some? {
      CharsetText(h, CharsetParamName, LowerName(m.charset.value), fp);
    } else {
      assert h + "" + fp == h + fp;
    }
  }

  /** The charset segment spelled out, between a head and a tail. */
  lemma CharsetText(h: string, k: string, v: string, fp: string)
    ensures h + (";" + ParamSegment((k, v))) + fp == h + "; " + k + "=" + v + fp
  {
    assert ";" + ParamSegment((k, v)) == "; " + k + "=" + v;
  }

  /** The `;`-separated pieces of `Format(m)`. */
  function Segments(m: MimeDetail): seq<string>
  {
    [m.primaryType + "/" + m.subType] +
    (if m.charset.Some? then [ParamSegment((CharsetParamName, LowerName(m.charset.value)))] else []) +
    ParamSegments(m.parameters)
  }

  function ParamSegments(ps: seq<Pair>): (r: seq<string>)
    ensures |r| == |ps| && forall i :: 0 <= i < |ps| ==> r[i] == ParamSegment(ps[i])
  {
    seq(|ps|, i requires 0 <= i < |ps| => ParamSegment(ps[i]))
  }

  lemma JoinSnoc(parts: seq<string>, x: string, sep: string)
    requires |parts| >= 1
    ensures Join(parts + [x], sep) == Join(parts, sep) + sep + x
    decreases |parts|
  {
    if |parts| == 1 {
      assert parts + [x] == [parts[0], x];
    } else {
      assert (parts + [x])[1..] == parts[1..] + [x];
      JoinSnoc(parts[1..], x, sep);
    }
  }

  lemma ParamSegmentsSnoc(ps: seq<Pair>)
    requires ps != []
    ensures ParamSegments(ps) == ParamSegments(ps[..|ps| - 1]) + [ParamSegment(ps[|ps| - 1])]
  {
  }

  lemma {:induction false} JoinParamSegments(head: seq<string>, ps: seq<Pair>)
    requires |head| >= 1
    ensures Join(head + ParamSegments(ps), ";") == Join(head, ";") + FormatParams(ps)
    decreases |ps|
  {
    if ps == [] {
      assert head + ParamSegments(ps) == head;
    } else {
      var n := |ps| - 1;
      var front := head + ParamSegments(ps[..n]);
      var last := ParamSegment(ps[n]);
      JoinParamSegments(head, ps[..n]);
      ParamSegmentsSnoc(ps);
      assert head + ParamSegments(ps) == front + [last];
      JoinSnoc(front, last, ";");
      assert FormatParams(ps) == FormatParams(ps[..n]) + ";" + last;
    }
  }

  lemma JoinWithCharset(h: string, cs: string, ps: seq<Pair>)
    ensures Join([h, cs] + ParamSegments(ps), ";") == h + (";" + cs) + FormatParams(ps)
  {
    JoinSnoc([h], cs, ";");
    assert [h] + [cs] == [h, cs];
    JoinParamSegments([h, cs], ps);
  }

  lemma JoinWithoutCharset(h: string, ps: seq<Pair>)
    ensures Join([h] + ParamSegments(ps), ";") == h + "" + FormatParams(ps)
  {
    JoinParamSegments([h], ps);
    assert h + "" == h;
  }

  lemma FormatIsJoin(m: MimeDetail)
    ensures Format(m) == Join(Segments(m), ";")
  {
    var h := m.primaryType + "/" + m.subType;
    if m.charset.Some? {
      var cs := ParamSegment((CharsetParamName, LowerName(m.charset.value)));
      JoinWithCharset(h, cs, m.parameters);
      assert Segments(m) == [h, cs] + ParamSegments(m.parameters);
    } else {
      JoinWithoutCharset(h, m.parameters);
      assert Segments(m) == [h] + [] + ParamSegments(m.parameters);
    }
  }



  predicate IsAsciiLetter(c: char)
  {
    'a' <= c <= 'z' || 'A' <= c <= 'Z'
  }

  /** Names made of ASCII letters are tokens. */
  lemma LettersAreToken(s: string)
    requires forall i :: 0 <= i < |s| ==> IsAsciiLetter(s[i])
    ensures IsToken(s)
  {
    forall i | 0 <= i < |s|
      ensures IsTokenChar(s[i])
    {
      var c := s[i];
      assert forall j :: 0 <= j < |"()<>@,;:/[]?=\\\""| ==> !IsAsciiLetter("()<>@,;:/[]?=\\\""[j]);
    }
  }

  /** The characters of a lower-cased charset name. */
  predicate IsNameChar(c: char)
  {
    'a' <= c <= 'z' || '0' <= c <= '9' || c == '-'
  }

  /** Lower-case letters, digits and dashes make a lower-case token. */
  lemma NameCharsAreToken(s: string)
    requires forall i :: 0 <= i < |s| ==> IsNameChar(s[i])
    ensures IsToken(s) && IsLower(s)
  {
    forall i | 0 <= i < |s|
      ensures IsTokenChar(s[i])
    {
      assert forall j :: 0 <= j < |"()<>@,;:/[]?=\\\""| ==> !IsNameChar("()<>@,;:/[]?=\\\""[j]);
    }
  }

  lemma LowerNameIsToken(c: Charset)
    ensures IsToken(LowerName(c)) && IsLower(LowerName(c))
  {
    var name := LowerName(c);
    match c
    case UsAscii => NameCharsAreToken(name);
    case Iso8859_1 => NameCharsAreToken(name);
    case Utf8 => NameCharsAreToken(name);
    case Utf16Be => NameCharsAreToken(name);
    case Utf16Le => NameCharsAreToken(name);
    case Utf16 => NameCharsAreToken(name);
  }

  lemma TokenNoWhitespace(s: string)
    requires IsToken(s)
    ensures forall i :: 0 <= i < |s| ==> !IsWhitespace(s[i])
  {
  }

  lemma TrimLeadingSpace(k: string)
    requires forall i :: 0 <= i < |k| ==> !IsWhitespace(k[i])
    ensures Trim(" " + k) == k
  {
    assert (" " + k)[1..] == k;
    assert TrimStart(" " + k) == TrimStart(k);
    TrimNoWhitespace(k);
  }

  lemma SplitParamSegment(k: string, v: string)
    requires IsToken(k) && IsToken(v)
    ensures Split(ParamSegment((k, v)), '=') == [" " + k, v]
  {
    var key := " " + k;
    assert forall i :: 0 <= i < |k| ==> key[i + 1] == k[i];
    assert '=' !in key;
    assert '=' !in v;
    SplitJoin([key, v], '=');
    assert Join([key, v], "=") == key + "=" + v;
  }

  /** A written parameter reads back as the same key and value. */
  lemma ParseParamSegment(k: string, v: string)
    requires IsToken(k) && IsToken(v) && IsLower(k)
    ensures ParseParam(ParamSegment((k, v))) == Success((k, v))
  {
    SplitParamSegment(k, v);
    TokenNoWhitespace(k);
    TrimLeadingSpace(k);
    LowerOfLower(k);
  }

  lemma ParseParamSegments(ps: seq<Pair>)
    requires forall i :: 0 <= i < |ps| ==> IsToken(ps[i].0) && IsToken(ps[i].1) && IsLower(ps[i].0)
    ensures ParseParams(ParamSegments(ps)) == Success(ps)
  {
    var segs := ParamSegments(ps);
    forall i | 0 <= i < |ps| ensures ParseParam(segs[i]) == Success(ps[i]) {
      ParseParamSegment(ps[i].0, ps[i].1);
    }
    var r := ParseParams(segs);
    assert r.Success?;
    assert |r.value| == |ps|;
    assert forall i :: 0 <= i < |ps| ==> r.value[i] == ps[i];
    assert r.value == ps;
  }

  /** The parameters `Format` writes, the charset first. */
  function WrittenPairs(m: MimeDetail): seq<Pair>
  {
    (if m.charset.Some? then [(CharsetParamName, LowerName(m.charset.value))] else []) + m.parameters
  }

  predicate RoundTrips(m: MimeDetail)
  {
    Valid(m) &&
    forall i :: 0 <= i < |m.parameters| ==>
      IsLower(m.parameters[i].0) && m.parameters[i].0 != CharsetParamName
  }

  lemma SegmentsNoSemicolon(m: MimeDetail)
    requires Valid(m)
    ensures forall i :: 0 <= i < |Segments(m)| ==> ';' !in Segments(m)[i]
  {
    var segs := Segments(m);
    if m.charset.Some? {
      LowerNameIsToken(m.charset.value);
    }
    forall i | 0 <= i < |m.parameters| ensures ';' !in ParamSegment(m.parameters[i]) {
    }
    var ps := ParamSegments(m.parameters);
    var head := [m.primaryType + "/" + m.subType] +
      (if m.charset.Some? then [ParamSegment((CharsetParamName, LowerName(m.charset.value)))] else []);
    assert segs == head + ps;
    forall i | 0 <= i < |segs| ensures ';' !in segs[i] {
      if i >= |head| { assert segs[i] == ps[i - |head|]; }
    }
  }

  lemma SplitFormat(m: MimeDetail)
    requires Valid(m)
    ensures Split(Format(m), ';') == Segments(m)
    ensures Split(Segments(m)[0], '/') == [m.primaryType, m.subType]
  {
    FormatIsJoin(m);
    SegmentsNoSemicolon(m);
    SplitJoin(Segments(m), ';');
    assert Join([m.primaryType, m.subType], "/") == Segments(m)[0];
    SplitJoin([m.primaryType, m.subType], '/');
  }

  lemma ParseParamsCons(x: string, rest: seq<string>, p: Pair, ps: seq<Pair>)
    requires ParseParam(x) == Success(p) && ParseParams(rest) == Success(ps)
    ensures ParseParams([x] + rest) == Success([p] + ps)
  {
    var y := [x] + rest;
    assert y[0] == x && y[1..] == rest;
    assert ParseParam(y[0]) == Success(p);
    assert ParseParams(y[1..]) == Success(ps);
  }

  /** The pieces after the first: the charset piece, if any, then one per parameter. */
  lemma SegmentsTail(m: MimeDetail)
    ensures m.charset.Some? ==>
      Segments(m)[1..] == [ParamSegment((CharsetParamName, LowerName(m.charset.value)))] + ParamSegments(m.parameters)
    ensures m.charset.None? ==> Segments(m)[1..] == ParamSegments(m.parameters)
  {
  }

  lemma WrittenPairsDistinct(m: MimeDetail)
    requires RoundTrips(m)
    ensures DistinctKeys(WrittenPairs(m))
  {
    assert !HasKey(m.parameters, CharsetParamName);
  }

  lemma ParseWrittenPairs(m: MimeDetail)
    requires RoundTrips(m)
    ensures ParseParams(Segments(m)[1..]) == Success(WrittenPairs(m))
  {
    var ps := m.parameters;
    ParseParamSegments(ps);
    SegmentsTail(m);
    if m.charset.Some? {
      ParseCharsetSegment(m.charset.value, ps);
    } else {
      assert WrittenPairs(m) == ps;
    }
  }

  lemma ParseCharsetSegment(c: Charset, ps: seq<Pair>)
    requires ParseParams(ParamSegments(ps)) == Success(ps)
    ensures ParseParams([ParamSegment((CharsetParamName, LowerName(c)))] + ParamSegments(ps))
         == Success([(CharsetParamName, LowerName(c))] + ps)
  {
    LowerNameIsToken(c);
    CharsetParamNameIsToken();
    ParseSegmentCons(CharsetParamName, LowerName(c), ps);
  }

  lemma CharsetParamNameIsToken()
    ensures IsToken(CharsetParamName) && IsLower(CharsetParamName)
  {
  }

  lemma ParseSegmentCons(k: string, v: string, ps: seq<Pair>)
    requires IsToken(k) && IsToken(v) && IsLower(k)
    requires ParseParams(ParamSegments(ps)) == Success(ps)
    ensures ParseParams([ParamSegment((k, v))] + ParamSegments(ps)) == Success([(k, v)] + ps)
  {
    ParseParamSegment(k, v);
    ParseParamsCons(ParamSegment((k, v)), ParamSegments(ps), (k, v), ps);
  }

  lemma ResolveWrittenPairs(m: MimeDetail)
    requires RoundTrips(m) && DistinctKeys(WrittenPairs(m))
    ensures ResolveCharset(Get(ToMap(WrittenPairs(m)), CharsetParamName)) == Success(m.charset)
    ensures Remove(ToMap(WrittenPairs(m)), CharsetParamName) == m.parameters
  {
    var ps := m.parameters;
    var pairs := WrittenPairs(m);
    ToMapDistinct(pairs);
    assert !HasKey(ps, CharsetParamName);
    if m.charset.Some? {
      var c := m.charset.value;
      assert pairs[0] == (CharsetParamName, LowerName(c));
      assert Get(pairs, CharsetParamName) == Some(LowerName(c));
      ForNameLowerName(c);
      assert pairs[1..] == ps;
    } else {
      assert pairs == ps;
    }
  }

  /** `parse` reads back what `toString` wrote, for lower-case keys other than `charset`. */
  lemma ParseFormat(m: MimeDetail)
    requires Valid(m)
    requires forall i :: 0 <= i < |m.parameters| ==>
      IsLower(m.parameters[i].0) && m.parameters[i].0 != CharsetParamName
    ensures Parse(Format(m)) == Success(m)
  {
    assert RoundTrips(m);
    SplitFormat(m);
    ParseWrittenPairs(m);
    WrittenPairsDistinct(m);
    ResolveWrittenPairs(m);
  }

  /** The canonical form of a parsed MIME type parses to the same value. */
  lemma ParseFormatStable(s: string)
    requires Parse(s).Success?
    ensures Parse(Format(Parse(s).value)) == Parse(s)
  {
    ParseFormat(Parse(s).value);
  }

  /** A type followed by one parameter segment without `=` fails on that segment. */
  lemma MissingEqualsFails(head: string, segment: string)
    requires ';' !in head && |Split(head, '/')| == 2
    requires ';' !in segment && '=' !in segment
    ensures Parse(head + [';'] + segment) == Failure(MalformedParameter(segment))
  {
    var mimeType := head + [';'] + segment;
    SplitTwo(head, segment, ';');
    SplitNoSep(segment, '=');
    MalformedParameterFails(mimeType, 1);
    MalformedParameterNamed(mimeType);
  }

  /** A type followed by one `charset=<name>` segment fails exactly as `Charset.forName` does on the name. */
  lemma CharsetSegmentFails(head: string, name: string)
    requires ';' !in head && |Split(head, '/')| == 2
    requires ';' !in name && '=' !in name && ForName(name).Failure?
    ensures Parse(head + "; charset=" + name) == Failure(CharsetFailure(ForName(name).error))
  {
    var mimeType := head + "; charset=" + name;
    CharsetSegmentSplits(head, name);
    CharsetParamParses(name);
    CharsetParamLooked(name);
    ParseStages(mimeType);
  }

  /** A type followed by one `charset=<name>` segment parses to that type with the charset `forName` finds. */
  lemma CharsetSegmentParses(head: string, name: string)
    requires ';' !in head && |Split(head, '/')| == 2
    requires IsToken(Split(head, '/')[0]) && IsToken(Split(head, '/')[1])
    requires ';' !in name && '=' !in name && ForName(name).Success?
    ensures Parse(head + "; charset=" + name)
         == Success(MimeDetail(Split(head, '/')[0], Split(head, '/')[1], Some(ForName(name).value), []))
  {
    var mimeType := head + "; charset=" + name;
    CharsetSegmentSplits(head, name);
    CharsetParamParses(name);
    CharsetParamLooked(name);
    RemoveStep([(CharsetParamName, name)], CharsetParamName);
    assert Remove(ToMap([(CharsetParamName, name)]), CharsetParamName) == [];
    ParseResult(mimeType);
  }

  /**
   * A valid type written with any spelling of a charset name that `forName` resolves, followed by
   * its parameters, parses back to that type with the resolved charset and the same parameters.
   */
  lemma CharsetSpellingParses(m: MimeDetail, name: string)
    requires RoundTrips(m) && m.charset.None?
    requires ';' !in name && '=' !in name && ForName(name).Success?
    ensures Parse(m.primaryType + "/" + m.subType + ";" + ParamSegment((CharsetParamName, name)) + FormatParams(m.parameters))
         == Success(m.(charset := Some(ForName(name).value)))
  {
    var mimeType := m.primaryType + "/" + m.subType + ";" + ParamSegment((CharsetParamName, name)) + FormatParams(m.parameters);
    CharsetSpellingPieces(m, name);
    CharsetPairsResolve(name, m.parameters);
    ParseResult(mimeType);
  }

  lemma CharsetSpellingPieces(m: MimeDetail, name: string)
    requires RoundTrips(m) && ';' !in name && '=' !in name
    ensures var mimeType := m.primaryType + "/" + m.subType + ";" + ParamSegment((CharsetParamName, name)) + FormatParams(m.parameters);
      Split(Split(mimeType, ';')[0], '/') == [m.primaryType, m.subType] &&
      ParseParams(Split(mimeType, ';')[1..]) == Success([(CharsetParamName, name)] + m.parameters)
  {
    var h := m.primaryType + "/" + m.subType;
    var cs := ParamSegment((CharsetParamName, name));
    var ps := m.parameters;
    TypeSplits(m.primaryType, m.subType);
    CharsetSegmentText(name);
    SplitSegments(h, cs, ps);
    assert h + ";" + cs + FormatParams(ps) == h + (";" + cs) + FormatParams(ps);
    CharsetPairParses(name);
    ParseParamSegments(ps);
    ParseParamsCons(cs, ParamSegments(ps), (CharsetParamName, name), ps);
  }

  lemma CharsetPairsResolve(name: string, ps: Params)
    requires forall i :: 0 <= i < |ps| ==> ps[i].0 != CharsetParamName
    requires ForName(name).Success?
    ensures var pairs := [(CharsetParamName, name)] + ps;
      ResolveCharset(Get(ToMap(pairs), CharsetParamName)) == Success(Some(ForName(name).value)) &&
      Remove(ToMap(pairs), CharsetParamName) == ps
  {
    var pairs: seq<Pair> := [(CharsetParamName, name)] + ps;
    CharsetFirstDistinct(name, ps);
    ToMapDistinct(pairs);
    var map_: Params := pairs;
    assert Get(map_, CharsetParamName) == Some(name);
    RemoveStep(map_, CharsetParamName);
  }

  lemma CharsetSegmentText(name: string)
    requires ';' !in name
    ensures ParamSegment((CharsetParamName, name)) == " charset=" + name
    ensures ';' !in ParamSegment((CharsetParamName, name))
  {
  }

  lemma SplitSegments(h: string, cs: string, ps: seq<Pair>)
    requires ';' !in h && ';' !in cs
    requires forall i :: 0 <= i < |ps| ==> IsToken(ps[i].0) && IsToken(ps[i].1)
    ensures Split(h + (";" + cs) + FormatParams(ps), ';') == [h, cs] + ParamSegments(ps)
  {
    var segs := [h, cs] + ParamSegments(ps);
    ParamSegmentsNoSemicolon(ps);
    forall i | 0 <= i < |segs| ensures ';' !in segs[i] {
      if i >= 2 { assert segs[i] == ParamSegments(ps)[i - 2]; }
    }
    SplitJoin(segs, ';');
    JoinWithCharset(h, cs, ps);
  }

  lemma TypeSplits(p0: string, p1: string)
    requires IsToken(p0) && IsToken(p1)
    ensures ';' !in p0 + "/" + p1
    ensures Split(p0 + "/" + p1, '/') == [p0, p1]
  {
    assert p0 + "/" + p1 == p0 + ['/'] + p1;
    SplitTwo(p0, p1, '/');
  }

  lemma ParamSegmentsNoSemicolon(ps: seq<Pair>)
    requires forall i :: 0 <= i < |ps| ==> IsToken(ps[i].0) && IsToken(ps[i].1)
    ensures forall i :: 0 <= i < |ps| ==> ';' !in ParamSegments(ps)[i]
  {
    forall i | 0 <= i < |ps| ensures ';' !in ParamSegment(ps[i]) {
    }
  }

  lemma CharsetFirstDistinct(name: string, ps: Params)
    requires forall i :: 0 <= i < |ps| ==> ps[i].0 != CharsetParamName
    ensures DistinctKeys([(CharsetParamName, name)] + ps)
  {
    var pairs := [(CharsetParamName, name)] + ps;
    forall i, j | 0 <= i < j < |pairs| ensures pairs[i].0 != pairs[j].0 {
      assert pairs[j] == ps[j - 1];
      if i > 0 { assert pairs[i] == ps[i - 1]; }
    }
  }

  lemma CharsetSegmentSplits(head: string, name: string)
    requires ';' !in head && ';' !in name
    ensures Split(head + "; charset=" + name, ';') == [head, " charset=" + name]
  {
    var segment := " charset=" + name;
    assert head + "; charset=" + name == head + [';'] + segment;
    assert ';' !in segment;
    SplitTwo(head, segment, ';');
  }

  lemma CharsetParamParses(name: string)
    requires '=' !in name
    ensures ParseParams([" charset=" + name]) == Success([(CharsetParamName, name)])
  {
    CharsetPairParses(name);
    SingleParamParses(" charset=" + name);
  }

  lemma CharsetPairParses(name: string)
    requires '=' !in name
    ensures ParseParam(" charset=" + name) == Success((CharsetParamName, name))
  {
    var segment := " charset=" + name;
    assert segment == " charset" + ['='] + name;
    SplitTwo(" charset", name, '=');
    CharsetKeyParses(" charset");
  }


  lemma CharsetParamLooked(name: string)
    ensures Get(ToMap([(CharsetParamName, name)]), CharsetParamName) == Some(name)
  {
    ToMapDistinct([(CharsetParamName, name)]);
  }

  /** The key ` charset` trims and lower-cases to `charset`. */
  lemma CharsetKeyParses(key: string)
    requires key == " charset"
    ensures Lower(Trim(key)) == CharsetParamName
  {
    assert key == " " + CharsetParamName;
    CharsetParamNameIsToken();
    TokenNoWhitespace(CharsetParamName);
    TrimLeadingSpace(CharsetParamName);
    LowerOfLower(CharsetParamName);
  }
}
