/** Reading the issuer of a bearer token without validating it
    (src/oed-authz/Utils/JwtReader.cs): take the payload segment of the JWS
    Compact Serialization (section 7.1 of RFC 7515), turn its base64url
    text into padded base64 (sections 4 and 5 of RFC 4648) and read the
    `iss` claim (section 4.1.1 of RFC 7519) from the decoded JSON. */
module JwtReader {
  import opened Wrappers
  import opened Domain
  import Strings
  import Seqs

  /** `i` and `j` are the first and the second '.' of the token. */
  predicate FirstTwoDots(jwt: string, i: int, j: int) {
    && 0 <= i < j < |jwt|
    && jwt[i] == '.' && jwt[j] == '.'
    && forall k :: 0 <= k < j && k != i ==> jwt[k] != '.'
  }

  /** The token holds at least two dots. */
  predicate HasTwoDots(jwt: string) {
    exists i, j :: 0 <= i < j < |jwt| && jwt[i] == '.' && jwt[j] == '.'
  }

  /** The characters strictly between the first and the second '.', or
      nothing when the token has fewer than two. */
  function Payload(jwt: string): (p: Option<string>)
    ensures p.Some? <==> HasTwoDots(jwt)
    ensures p.Some? ==> exists i, j :: FirstTwoDots(jwt, i, j) && p.value == jwt[i + 1..j]
  {
    var firstDot := Strings.IndexOf(jwt, '.', 0);
    if firstDot < 0 then None
    else
      var secondDot := Strings.IndexOf(jwt, '.', firstDot + 1);
      if secondDot < 0 then None
      else
        assert FirstTwoDots(jwt, firstDot, secondDot);
        Some(jwt[firstDot + 1..secondDot])
  }

  predicate NoDots(s: string) {
    forall k :: 0 <= k < |s| ==> s[k] != '.'
  }

  /** For a compact serialization `header.payload.rest` whose header and
      payload segments hold no dot, the payload segment is found again,
      whatever follows it. */
  lemma PayloadOfCompactSerialization(header: string, payload: string, rest: string)
    requires NoDots(header) && NoDots(payload)
    ensures Payload(header + "." + payload + "." + rest) == Some(payload)
  {
    var jwt := header + "." + payload + "." + rest;
    var i := |header|;
    var j := |header| + 1 + |payload|;
    assert jwt[i] == '.' && jwt[j] == '.';
    assert forall k :: 0 <= k < i ==> jwt[k] == header[k];
    assert forall k :: i < k < j ==> jwt[k] == payload[k - i - 1];
    assert FirstTwoDots(jwt, i, j);
    var p := Payload(jwt).value;
    var i', j' :| FirstTwoDots(jwt, i', j') && p == jwt[i' + 1..j'];
    assert i' == i && j' == j;
    assert jwt[i + 1..j] == payload;
  }

  /** The base64url alphabet's two extra characters back to base64's. */
  function FromUrlChar(c: char): char {
    if c == '-' then '+' else if c == '_' then '/' else c
  }

  /** Base64 to base64url, the table of section 5 of RFC 4648. */
  function ToUrlChar(c: char): char {
    if c == '+' then '-' else if c == '/' then '_' else c
  }

  /** The two `Replace` calls of `Base64UrlDecode`. */
  function FromUrlAlphabet(s: string): (r: string)
    ensures |r| == |s|
    ensures forall i :: 0 <= i < |s| ==> r[i] == FromUrlChar(s[i])
  {
    Seqs.Map(FromUrlChar, s)
  }

  lemma UrlCharRoundTrip(c: char)
    requires c != '-' && c != '_'
    ensures FromUrlChar(ToUrlChar(c)) == c
  {
  }

  /** Undoing the base64url rewrite of a base64 text recovers the text,
      provided it does not already use '-' or '_' (base64 never does). */
  lemma FromUrlUndoesToUrl(s: string)
    requires forall i :: 0 <= i < |s| ==> s[i] != '-' && s[i] != '_'
    ensures FromUrlAlphabet(Seqs.Map(ToUrlChar, s)) == s
  {
    var t := Seqs.Map(ToUrlChar, s);
    var back := FromUrlAlphabet(t);
    assert |t| == |s| && |back| == |s|;
    forall i | 0 <= i < |s| ensures back[i] == s[i] {
      UrlCharRoundTrip(s[i]);
    }
    assert back == s;
  }

  /** The padding of `Base64UrlDecode`: '=' up to the next multiple of four. */
  function Pad(s: string): (r: string)
    ensures |r| % 4 == 0
    ensures |s| <= |r| < |s| + 4
    ensures r[..|s|] == s
    ensures forall i :: |s| <= i < |r| ==> r[i] == '='
  {
    var padding := 4 - |s| % 4;
    if padding < 4 then s + Strings.Repeat('=', padding) else s
  }

  /** The padding is the only one of less than four '=' that reaches a
      multiple of four. */
  lemma PadIsUnique(s: string, n: nat)
    requires n < 4 && (|s| + n) % 4 == 0
    ensures Pad(s) == s + Strings.Repeat('=', n)
  {
    var t := s + Strings.Repeat('=', n);
    assert |Pad(s)| == |t|;
    forall i | 0 <= i < |t| ensures Pad(s)[i] == t[i] {
      if i < |s| {
        assert Pad(s)[..|s|][i] == s[i];
      }
    }
  }

  /** `Base64UrlDecode` before the call to the base64 decoder. */
  function Base64UrlToBase64(payload: string): (b64: string)
    ensures |b64| % 4 == 0 && |payload| <= |b64| < |payload| + 4
    ensures forall i :: 0 <= i < |payload| ==> b64[i] == FromUrlChar(payload[i])
    ensures forall i :: |payload| <= i < |b64| ==> b64[i] == '='
    ensures forall i :: 0 <= i < |b64| ==> b64[i] != '-' && b64[i] != '_'
  {
    var r := Pad(FromUrlAlphabet(payload));
    assert forall i :: 0 <= i < |payload| ==> r[i] == r[..|payload|][i];
    r
  }

  /** Base64url with its padding stripped, as a JWS segment carries it
      (section 2 of RFC 7515), comes back as the padded base64 text it was
      made from. */
  lemma UnpaddedBase64UrlRoundTrips(text: string, n: nat)
    requires forall i :: 0 <= i < |text| ==> text[i] != '-' && text[i] != '_'
    requires n < 4 && (|text| + n) % 4 == 0
    ensures Base64UrlToBase64(Seqs.Map(ToUrlChar, text)) == text + Strings.Repeat('=', n)
  {
    FromUrlUndoesToUrl(text);
    PadIsUnique(text, n);
  }

  /** The base64 decoding of a payload followed by the JSON parse and the
      lookup of the `iss` string, which the runtime libraries perform. */
  type IssuerDecoder = string -> Result<Option<string>, Exception>

  /** `GetIssuerFromJwt`: nothing for a missing or empty token or one with
      fewer than two dots, otherwise the issuer the decoder reads from the
      padded payload. */
  function GetIssuerFromJwt(jwt: Option<string>, decode: IssuerDecoder): (r: Result<Option<string>, Exception>)
    ensures jwt.None? || jwt.value == [] ==> r == Success(None)
    ensures jwt.Some? && !HasTwoDots(jwt.value) ==> r == Success(None)
    ensures jwt.Some? && HasTwoDots(jwt.value) ==> r == decode(Base64UrlToBase64(Payload(jwt.value).value))
  {
    if jwt.None? || jwt.value == [] then Success(None)
    else
      match Payload(jwt.value)
      case None => Success(None)
      case Some(payload) => decode(Base64UrlToBase64(payload))
  }

  /** The decoder sees exactly the payload segment, rewritten and padded. */
  lemma DecoderSeesPayload(header: string, payload: string, rest: string, decode: IssuerDecoder)
    requires NoDots(header) && NoDots(payload)
    ensures GetIssuerFromJwt(Some(header + "." + payload + "." + rest), decode) == decode(Pad(FromUrlAlphabet(payload)))
  {
    PayloadOfCompactSerialization(header, payload, rest);
  }
}
