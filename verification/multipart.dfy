/** Motion-JPEG multipart framing of the camera server's `/video_feed`
    response: the declared boundary, and the byte layout of one part. */
module Multipart {
  import opened Wrappers

  /** An octet. */
  newtype byte = b: int | 0 <= b < 256

  /** A byte string, as Python's `bytes`. */
  type Bytes = seq<byte>

  /** True when every character of `s` is 7-bit ASCII. */
  predicate IsAscii(s: string) {
    forall i | 0 <= i < |s| :: s[i] as int < 128
  }

  /** The bytes a Python `b'...'` literal with text `s` denotes. */
  function Ascii(s: string): (r: Bytes)
    requires IsAscii(s)
    ensures |r| == |s|
    ensures forall i | 0 <= i < |s| :: r[i] as int == s[i] as int
  {
    seq(|s|, i requires 0 <= i < |s| && IsAscii(s) => s[i] as int as byte)
  }

  /** The media type the `/video_feed` route declares for its response. */
  const Mimetype: string := "multipart/x-mixed-replace; boundary=frame"

  /** Text that precedes the boundary parameter in `Mimetype`. */
  const MimetypePrefix: string := "multipart/x-mixed-replace; boundary="

  /** The delimiter line that opens every part, as written in the generator. */
  const DelimiterText: string := "--frame\r\n"

  /** The part's header line followed by the blank line that ends the headers. */
  const HeaderText: string := "Content-Type: image/jpeg\r\n\r\n"

  /** The line break that closes every part after its payload. */
  const TrailerText: string := "\r\n"

  const Delimiter: Bytes := Ascii(DelimiterText)
  const Header: Bytes := Ascii(HeaderText)
  const Trailer: Bytes := Ascii(TrailerText)

  /** Number of framing bytes a part adds around its payload. */
  const Overhead: nat := 39

  /** The boundary token a `multipart/x-mixed-replace` media type declares,
      or `None` when the media type is not of that form. */
  function BoundaryParameter(mimetype: string): (r: Option<string>)
    ensures r.Some? <==> |MimetypePrefix| <= |mimetype| && mimetype[..|MimetypePrefix|] == MimetypePrefix
    ensures r.Some? ==> mimetype == MimetypePrefix + r.value
  {
    if |MimetypePrefix| <= |mimetype| && mimetype[..|MimetypePrefix|] == MimetypePrefix
    then Some(mimetype[|MimetypePrefix|..])
    else None
  }

  /** A boundary character in the sense of section 5.1.1 of RFC 2046 (`bchars`). */
  predicate IsBoundaryChar(c: char) {
    ('0' <= c <= '9') || ('a' <= c <= 'z') || ('A' <= c <= 'Z')
    || c in "'()+_,-./:=? "
  }

  /** A boundary token allowed by section 5.1.1 of RFC 2046: one to seventy
      boundary characters, the last of which is not a space. */
  predicate IsValidBoundary(b: string) {
    && 1 <= |b| <= 70
    && (forall i | 0 <= i < |b| :: IsBoundaryChar(b[i]))
    && b[|b| - 1] != ' '
  }

  /** The delimiter line written before each part is `--` followed by the
      boundary the response declares, and that boundary is a legal one. */
  lemma DelimiterMatchesDeclaredBoundary()
    ensures BoundaryParameter(Mimetype) == Some("frame")
    ensures DelimiterText == "--" + BoundaryParameter(Mimetype).value + "\r\n"
    ensures IsValidBoundary(BoundaryParameter(Mimetype).value)
  {
  }

  /** One multipart part carrying the JPEG bytes `payload`: delimiter line,
      content-type header, blank line, the payload unchanged, line break. */
  function Part(payload: Bytes): (r: Bytes)
    ensures |r| == |payload| + Overhead
    ensures r[..|Delimiter|] == Delimiter
    ensures r[|Delimiter|..|Delimiter| + |Header|] == Header
    ensures r[|Delimiter| + |Header|..|r| - |Trailer|] == payload
    ensures r[|r| - |Trailer|..] == Trailer
  {
    var r := Delimiter + Header + payload + Trailer;
    assert r[..|Delimiter|] == Delimiter;
    assert r[|Delimiter|..|Delimiter| + |Header|] == Header;
    assert r[|Delimiter| + |Header|..|r| - |Trailer|] == payload;
    r
  }

  /** Reads one part back: the payload between the headers and the closing
      line break, or `None` when `b` is not framed as a part. */
  function ParsePart(b: Bytes): (r: Option<Bytes>)
    ensures r.Some? ==> |b| == |r.value| + Overhead
  {
    var head := |Delimiter| + |Header|;
    if head + |Trailer| <= |b| && b[..|Delimiter|] == Delimiter
       && b[|Delimiter|..head] == Header && b[|b| - |Trailer|..] == Trailer
    then Some(b[head..|b| - |Trailer|])
    else None
  }

  /** Parsing a part recovers exactly the payload it was built from. */
  lemma ParseOfPart(payload: Bytes)
    ensures ParsePart(Part(payload)) == Some(payload)
  {
  }

  /** Whatever parses as a part is the part of the payload it yields. */
  lemma PartOfParse(b: Bytes)
    requires ParsePart(b).Some?
    ensures Part(ParsePart(b).value) == b
  {
  }

  /** Distinct payloads give distinct parts: framing loses nothing. */
  lemma PartInjective(p: Bytes, q: Bytes)
    requires Part(p) == Part(q)
    ensures p == q
  {
  }
}
