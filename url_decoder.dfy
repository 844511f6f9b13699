/** java.net.URLDecoder.decode(s, "UTF-8"), which the driver applies to every
    key and value of a URL's query string. */
module UrlDecoding {
  import opened Outcomes

  /** The IllegalArgumentException URLDecoder raises, by its message. */
  datatype DecodeError =
    | IncompleteTrailingEscape             // a '%' with fewer than two characters after it
    | IllegalHexCharacters(field: string)  // Integer.parseInt(field, 16) threw NumberFormatException
    | NegativeEscapeValue                  // the field parsed to a negative number, as "-1" does

  /** Character.digit(c, 16) over ASCII: the digit's value, or -1. */
  function HexDigit(c: char): (d: int)
    ensures -1 <= d < 16
  {
    if '0' <= c <= '9' then c as int - '0' as int
    else if 'a' <= c <= 'f' then c as int - 'a' as int + 10
    else if 'A' <= c <= 'F' then c as int - 'A' as int + 10
    else -1
  }

  /** Integer.parseInt([a, b], 16): a sign and one digit, or two digits. */
  function ParseHexField(a: char, b: char): (r: Result<int, DecodeError>)
    ensures r.Ok? ==> -15 <= r.value < 256
    ensures r.Err? ==> r.error == IllegalHexCharacters([a, b])
    ensures r.Ok? && r.value < 0 ==> a == '-'
  {
    if a == '-' || a == '+' then
      if HexDigit(b) < 0 then Err(IllegalHexCharacters([a, b]))
      else if a == '-' then Ok(-HexDigit(b))
      else Ok(HexDigit(b))
    else if HexDigit(a) < 0 || HexDigit(b) < 0 then Err(IllegalHexCharacters([a, b]))
    else Ok(16 * HexDigit(a) + HexDigit(b))
  }

  function Prepend<E>(c: char, r: Result<string, E>): Result<string, E>
  {
    match r
    case Ok(t) => Ok([c] + t)
    case Err(e) => Err(e)
  }

  /** URLDecoder.decode, left to right: '+' becomes a space, "%xy" becomes the
      character whose code is the hexadecimal xy, everything else is kept; the
      first malformed escape decides the error. */
  function Decode(s: string): (r: Result<string, DecodeError>)
    ensures r.Ok? ==> |r.value| <= |s|
    ensures r.Err? ==> '%' in s
    decreases |s|
  {
    if s == [] then Ok([])
    else if s[0] == '%' then
      if |s| < 3 then Err(IncompleteTrailingEscape)
      else
        match ParseHexField(s[1], s[2])
        case Err(e) => Err(e)
        case Ok(v) =>
          if v < 0 then Err(NegativeEscapeValue)
          else Prepend(v as char, Decode(s[3..]))
    else
      Prepend(if s[0] == '+' then ' ' else s[0], Decode(s[1..]))
  }

  /** Text without '%' and '+' decodes to itself. */
  lemma {:induction false} DecodePlain(s: string)
    requires '%' !in s && '+' !in s
    ensures Decode(s) == Ok(s)
    decreases |s|
  {
    if s != [] {
      DecodePlain(s[1..]);
      assert [s[0]] + s[1..] == s;
    }
  }

  /** The characters URLEncoder leaves as they are. */
  predicate Unreserved(c: char)
  {
    'a' <= c <= 'z' || 'A' <= c <= 'Z' || '0' <= c <= '9' || c == '.' || c == '-' || c == '*' || c == '_'
  }

  function HexChar(d: nat): (c: char)
    requires d < 16
    ensures HexDigit(c) == d
  {
    if d < 10 then ('0' as int + d) as char else ('A' as int + d - 10) as char
  }

  /** URLEncoder.encode for ASCII text: unreserved characters kept, a space
      written '+', every other character written "%XY". */
  function Encode(s: string): (r: string)
    requires forall i :: 0 <= i < |s| ==> s[i] as int < 128
  {
    if s == [] then []
    else
      var c := s[0];
      (if Unreserved(c) then [c]
       else if c == ' ' then ['+']
       else ['%', HexChar(c as int / 16), HexChar(c as int % 16)])
      + Encode(s[1..])
  }

  /** Decode undoes Encode on ASCII text. */
  lemma {:induction false} DecodeEncode(s: string)
    requires forall i :: 0 <= i < |s| ==> s[i] as int < 128
    ensures Decode(Encode(s)) == Ok(s)
    decreases |s|
  {
    if s != [] {
      var c := s[0];
      var e := Encode(s);
      DecodeEncode(s[1..]);
      assert [c] + s[1..] == s;
      if Unreserved(c) || c == ' ' {
        assert e[1..] == Encode(s[1..]);
      } else {
        var hi, lo := HexChar(c as int / 16), HexChar(c as int % 16);
        assert e[0] == '%' && e[1] == hi && e[2] == lo;
        assert e[3..] == Encode(s[1..]);
        assert ParseHexField(hi, lo) == Ok(c as int);
      }
    }
  }
}
