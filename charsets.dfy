/**
 * The JVM charsets the model knows, and `Charset.forName` as a case-insensitive
 * lookup in a fixed table of canonical names and aliases.
 */
module Charsets {
  import opened Wrappers
  import opened Text

  datatype Charset = UsAscii | Iso8859_1 | Utf8 | Utf16Be | Utf16Le | Utf16

  /** `Charset.name()`: the canonical name. */
  function Name(c: Charset): string
  {
    match c
    case UsAscii => "US-ASCII"
    case Iso8859_1 => "ISO-8859-1"
    case Utf8 => "UTF-8"
    case Utf16Be => "UTF-16BE"
    case Utf16Le => "UTF-16LE"
    case Utf16 => "UTF-16"
  }

  /** The names `forName` resolves for `c`, already lower-cased; the canonical name is among them. */
  function Aliases(c: Charset): set<string>
  {
    match c
    case UsAscii => {"us-ascii", "ascii", "iso646-us", "cp367", "ibm367", "646", "csascii", "default"}
    case Iso8859_1 => {"iso-8859-1", "iso8859_1", "iso_8859-1", "iso8859-1", "latin1", "l1", "cp819",
                       "ibm819", "819", "8859_1"}
    case Utf8 => {"utf-8", "utf8", "unicode-1-1-utf-8"}
    case Utf16Be => {"utf-16be", "utf_16be", "x-utf-16be", "unicodebigunmarked"}
    case Utf16Le => {"utf-16le", "utf_16le", "x-utf-16le", "unicodelittleunmarked"}
    case Utf16 => {"utf-16", "utf_16", "utf16", "unicode", "unicodebig"}
  }

  /** The charset whose alias set holds `key`, trying the charsets in a fixed order. */
  function Lookup(key: string): (r: Option<Charset>)
    ensures r.Some? ==> key in Aliases(r.value)
    ensures r.None? ==> forall c: Charset :: key !in Aliases(c)
  {
    if key in Aliases(UsAscii) then Some(UsAscii)
    else if key in Aliases(Iso8859_1) then Some(Iso8859_1)
    else if key in Aliases(Utf8) then Some(Utf8)
    else if key in Aliases(Utf16Be) then Some(Utf16Be)
    else if key in Aliases(Utf16Le) then Some(Utf16Le)
    else if key in Aliases(Utf16) then Some(Utf16)
    else None
  }

  /** The JDK rule for a legal charset name, checked only when the lookup misses. */
  predicate IsLegalName(s: string)
  {
    s != [] &&
    forall i :: 0 <= i < |s| ==>
      var c := s[i];
      ('A' <= c <= 'Z') || ('a' <= c <= 'z') || ('0' <= c <= '9') ||
      (i != 0 && c in "-+:_.")
  }

  datatype CharsetError = UnsupportedCharset(name: string) | IllegalCharsetName(name: string)

  /** `Charset.forName`: case-insensitive; an unknown name is illegal or unsupported. */
  function ForName(name: string): (r: Result<Charset, CharsetError>)
    ensures r.Success? <==> exists c: Charset :: Lower(name) in Aliases(c)
    ensures r.Success? ==> Lower(name) in Aliases(r.value)
    ensures r.Failure? ==> r.error.name == name
    ensures r.Failure? ==> (r.error.IllegalCharsetName? <==> !IsLegalName(name))
  {
    match Lookup(Lower(name))
    case Some(c) => Success(c)
    case None => Failure(if IsLegalName(name) then UnsupportedCharset(name) else IllegalCharsetName(name))
  }

  /** The canonical name in lower case, as `MimeDetail.toString` writes it. */
  function LowerName(c: Charset): (r: string)
    ensures r == Lower(Name(c))
  {
    match c
    case UsAscii => "us-ascii"
    case Iso8859_1 => "iso-8859-1"
    case Utf8 => "utf-8"
    case Utf16Be => "utf-16be"
    case Utf16Le => "utf-16le"
    case Utf16 => "utf-16"
  }

  /** The lower-cased canonical name resolves back to its charset. */
  lemma ForNameLowerName(c: Charset)
    ensures ForName(LowerName(c)) == Success(c)
  {
    var n := LowerName(c);
    LowerIsLower(Name(c));
    LowerOfLower(n);
  }

  /** Names that differ only in letter case resolve to the same charset. */
  lemma ForNameIgnoresCase(a: string, b: string)
    requires EqualsIgnoreCase(a, b)
    ensures ForName(a).Success? <==> ForName(b).Success?
    ensures ForName(a).Success? ==> ForName(a) == ForName(b)
  {
  }
}
