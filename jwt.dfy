/**
 * The JWT extractor: a token is trimmed and split on `.`, its first two
 * parts are base64url-decoded and parsed as JSON, and the header, payload
 * and error shown to the user are set from the outcome.
 *
 * `atob`, `decodeURIComponent`, and `JSON.parse` followed by
 * `JSON.stringify(value, null, 2)` are parameters: partial functions whose
 * failure stands for the exception the host would throw.
 */
module Jwt {
  import opened Js

  const InvalidEncoding: string := "Invalid base64url encoding"
  const InvalidFormat: string := "Invalid JWT format. JWT should have 3 parts separated by dots."

  /* ---------------------------------------------------------------------- */
  /* base64url to base64                                                     */
  /* ---------------------------------------------------------------------- */

  /** The base64 character a base64url character stands for. */
  function FromUrlChar(c: char): char
  {
    if c == '-' then '+' else if c == '_' then '/' else c
  }

  /** `str.replace(/-/g, '+').replace(/_/g, '/')`. */
  function ToBase64Alphabet(s: string): string
  {
    ReplaceAll(ReplaceAll(s, '-', "+"), '_', "/")
  }

  /** Replacing one character by one character keeps the length and works position by position. */
  lemma {:induction false} ReplaceCharPointwise(s: string, c: char, d: char)
    ensures |ReplaceAll(s, c, [d])| == |s|
    ensures forall i :: 0 <= i < |s| ==> ReplaceAll(s, c, [d])[i] == (if s[i] == c then d else s[i])
  {
    if s != [] {
      ReplaceCharPointwise(s[1..], c, d);
    }
  }

  /** Every `-` becomes `+`, every `_` becomes `/`, and nothing else changes. */
  lemma ToBase64AlphabetPointwise(s: string)
    ensures |ToBase64Alphabet(s)| == |s|
    ensures forall i :: 0 <= i < |s| ==> ToBase64Alphabet(s)[i] == FromUrlChar(s[i])
  {
    ReplaceCharPointwise(s, '-', '+');
    ReplaceCharPointwise(ReplaceAll(s, '-', "+"), '_', '/');
  }

  /** `new Array(k).join(sep)`: `k` empty strings joined by `sep`. */
  function EmptyArrayJoin(k: nat, sep: string): string
  {
    Join(seq(k, i => ""), sep)
  }

  /** `k` empty strings joined by `=` are `k - 1` padding characters. */
  lemma {:induction false} EmptyArrayJoinRepeats(k: nat)
    requires k >= 1
    ensures EmptyArrayJoin(k, "=") == Repeat('=', k - 1)
  {
    if k > 1 {
      EmptyArrayJoinRepeats(k - 1);
      assert seq(k, i => "")[1..] == seq(k - 1, i => "");
    }
  }

  /** The padding step: `5 - pad` empty strings joined by `=` when `pad = len % 4` is not zero. */
  function PadBase64(s: string): string
  {
    var pad := |s| % 4;
    if pad != 0 then s + EmptyArrayJoin(5 - pad, "=") else s
  }

  /**
   * Padding keeps the text, appends only `=`, and stops at the first
   * multiple of 4: nothing is appended to a length already a multiple of 4.
   */
  lemma PadBase64Quad(s: string)
    ensures |PadBase64(s)| % 4 == 0
    ensures |s| <= |PadBase64(s)| < |s| + 4
    ensures PadBase64(s)[..|s|] == s
    ensures forall i :: |s| <= i < |PadBase64(s)| ==> PadBase64(s)[i] == '='
  {
    var pad := |s| % 4;
    if pad != 0 {
      EmptyArrayJoinRepeats(5 - pad);
    }
  }

  /* ---------------------------------------------------------------------- */
  /* percent-encoding the decoded bytes                                      */
  /* ---------------------------------------------------------------------- */

  /** `'%' + ('00' + c.charCodeAt(0).toString(16)).slice(-2)`. */
  function PercentGroup(c: char): string
  {
    "%" + LastTwoHex(c as int)
  }

  /** `s.split('').map(PercentGroup).join('')`. */
  function PercentEncode(s: string): string
  {
    Join(seq(|s|, i requires 0 <= i < |s| => PercentGroup(s[i])), "")
  }

  /** Joining with the empty separator runs the parts together. */
  lemma {:induction false} JoinNoSeparator(parts: seq<string>)
    ensures Join(parts, "") == Concat(parts)
  {
    if |parts| == 1 {
      assert Concat(parts) == parts[0] + Concat([]);
    } else if |parts| > 1 {
      JoinNoSeparator(parts[1..]);
    }
  }

  lemma PercentEncodeCons(s: string)
    requires s != []
    ensures PercentEncode(s) == PercentGroup(s[0]) + PercentEncode(s[1..])
  {
    var groups := seq(|s|, i requires 0 <= i < |s| => PercentGroup(s[i]));
    assert groups[1..] == seq(|s| - 1, i requires 0 <= i < |s| - 1 => PercentGroup(s[1..][i]));
    JoinNoSeparator(groups);
    JoinNoSeparator(groups[1..]);
  }

  /** Reading `%hh` groups back: each group gives the character with code `hh`. */
  function PercentDecode(t: string): Option<string>
  {
    if t == [] then Some("")
    else if |t| >= 3 && t[0] == '%' && IsHexDigit(t[1]) && IsHexDigit(t[2]) then
      match PercentDecode(t[3..])
      case None => None
      case Some(rest) => Some([(16 * HexValue(t[1]) + HexValue(t[2])) as char] + rest)
    else None
  }

  /**
   * What `atob` returns is binary text, one character per byte; the
   * percent-encoding spells out every code and loses nothing.
   */
  lemma {:induction false} PercentRoundTrip(s: string)
    requires forall i :: 0 <= i < |s| ==> s[i] as int < 256
    ensures |PercentEncode(s)| == 3 * |s|
    ensures PercentDecode(PercentEncode(s)) == Some(s)
  {
    if s == [] {
      assert PercentEncode(s) == Join([], "");
    } else {
      PercentEncodeCons(s);
      PercentRoundTrip(s[1..]);
      var b := s[0] as int as byte;
      LastTwoHexOfByte(b);
      var t := PercentEncode(s);
      assert t[3..] == PercentEncode(s[1..]);
      assert t[0] == '%' && t[1] == ByteHex(b)[0] && t[2] == ByteHex(b)[1];
      assert s == [s[0]] + s[1..];
    }
  }

  /* ---------------------------------------------------------------------- */
  /* decoding and extracting                                                 */
  /* ---------------------------------------------------------------------- */

  /**
   * `base64UrlDecode`: the base64 text handed to `atob`, whose binary result
   * is percent-encoded and handed to `decodeURIComponent`; a failure of
   * either is reported as an invalid encoding.
   */
  function Base64UrlDecode(str: string, atob: string -> Option<string>, decodeUri: string -> Option<string>): (r: Result<string, string>)
    ensures r.Err? ==> r.error == InvalidEncoding
    ensures r.Ok? <==> atob(PadBase64(ToBase64Alphabet(str))).Some?
                       && decodeUri(PercentEncode(atob(PadBase64(ToBase64Alphabet(str))).value)).Some?
  {
    var base64 := PadBase64(ToBase64Alphabet(str));
    match atob(base64)
    case None => Err(InvalidEncoding)
    case Some(binary) =>
      match decodeUri(PercentEncode(binary))
      case None => Err(InvalidEncoding)
      case Some(text) => Ok(text)
  }

  /**
   * What `extractJwt` ends with: the formatted header and payload, or the
   * message of the first failure, in the order the source meets them.
   * `format` is `JSON.parse` followed by `JSON.stringify(value, null, 2)`;
   * its failure carries the parser's message.
   */
  function ExtractOutcome(token: string, atob: string -> Option<string>, decodeUri: string -> Option<string>,
                          format: string -> Result<string, string>): Result<(string, string), string>
  {
    var parts := Split(Trim(token), '.');
    if |parts| != 3 then Err(InvalidFormat)
    else
      match Base64UrlDecode(parts[0], atob, decodeUri)
      case Err(e) => Err(e)
      case Ok(decodedHeader) =>
        match Base64UrlDecode(parts[1], atob, decodeUri)
        case Err(e) => Err(e)
        case Ok(decodedPayload) =>
          match format(decodedHeader)
          case Err(e) => Err(e)
          case Ok(headerText) =>
            match format(decodedPayload)
            case Err(e) => Err(e)
            case Ok(payloadText) => Ok((headerText, payloadText))
  }

  /** The format check: a token is rejected for its shape exactly when its trimmed text does not hold two dots. */
  lemma FormatErrorIff(token: string, atob: string -> Option<string>, decodeUri: string -> Option<string>,
                       format: string -> Result<string, string>)
    requires forall s :: format(s).Err? ==> format(s).error != InvalidFormat
    ensures ExtractOutcome(token, atob, decodeUri, format) == Err(InvalidFormat) <==> Count(Trim(token), '.') != 2
  {
  }

  /** The third part is never looked at: tokens that agree on their first two parts end alike. */
  lemma SignatureIgnored(t1: string, t2: string, atob: string -> Option<string>, decodeUri: string -> Option<string>,
                         format: string -> Result<string, string>)
    requires Count(Trim(t1), '.') == 2 && Count(Trim(t2), '.') == 2
    requires Split(Trim(t1), '.')[..2] == Split(Trim(t2), '.')[..2]
    ensures ExtractOutcome(t1, atob, decodeUri, format) == ExtractOutcome(t2, atob, decodeUri, format)
  {
    var p1, p2 := Split(Trim(t1), '.'), Split(Trim(t2), '.');
    assert p1[0] == p1[..2][0] && p1[1] == p1[..2][1];
    assert p2[0] == p2[..2][0] && p2[1] == p2[..2][1];
  }

  /** The state of the extractor: the token typed in and the three texts it shows. */
  class JwtExtract {
    var token: string
    var header: string
    var payload: string
    var error: string

    constructor(token: string)
      ensures this.token == token && header == "" && payload == "" && error == ""
    {
      this.token := token;
      header := "";
      payload := "";
      error := "";
    }

    /** On failure the error is set and both texts are cleared. */
    method Fail(message: string)
      modifies this
      ensures error == message && header == "" && payload == "" && token == old(token)
    {
      error := message;
      header := "";
      payload := "";
    }

    /**
     * `extractJwt`: the error is cleared first; on success the header and
     * payload are set, on the first failure the error is set and both are
     * cleared. The token itself is never changed.
     */
    method ExtractJwt(atob: string -> Option<string>, decodeUri: string -> Option<string>,
                      format: string -> Result<string, string>)
      modifies this
      ensures token == old(token)
      ensures match ExtractOutcome(token, atob, decodeUri, format)
        case Ok((h, p)) => header == h && payload == p && error == ""
        case Err(e) => error == e && header == "" && payload == ""
    {
      error := "";
      var parts := Split(Trim(token), '.');
      if |parts| != 3 {
        Fail(InvalidFormat);
        return;
      }
      var headerPart, payloadPart := parts[0], parts[1];
      var decodedHeader := Base64UrlDecode(headerPart, atob, decodeUri);
      if decodedHeader.Err? {
        Fail(decodedHeader.error);
        return;
      }
      var decodedPayload := Base64UrlDecode(payloadPart, atob, decodeUri);
      if decodedPayload.Err? {
        Fail(decodedPayload.error);
        return;
      }
      var headerObj := format(decodedHeader.value);
      if headerObj.Err? {
        Fail(headerObj.error);
        return;
      }
      var payloadObj := format(decodedPayload.value);
      if payloadObj.Err? {
        Fail(payloadObj.error);
        return;
      }
      header := headerObj.value;
      payload := payloadObj.value;
    }
  }
}
