/**
 * Form-style percent-encoding from StringExtensions: UrlEncode / UrlDecode
 * over the UTF-8 bytes of a string (space as `+`), and HexEscape /
 * HexUnescape over chosen characters.
 */
module UrlEncoding {

  import opened Wrappers
  import opened Text

  // ---------------------------------------------------------------------------
  // Hexadecimal pairs

  /** The two-digit hexadecimal form of a byte: format "x2", or "X2" when upper-cased. */
  function Hex2(b: byte, upperCase: bool): (r: string)
    ensures |r| == 2
  {
    [HexDigit(b as int / 16, upperCase), HexDigit(b as int % 16, upperCase)]
  }

  /**
   * Convert.ToByte(s, 16) (and Convert.ToInt32(s, 16)) on a two-character
   * string: a leading `-` is refused for base 16, a leading `+` is skipped,
   * a `0x` prefix is skipped, and anything but hexadecimal digits left over
   * is a format error.
   */
  function ParseHex2(h0: char, h1: char): (r: Result<byte>)
    ensures r.Ok? && HexDigitValue(h0).Some? && HexDigitValue(h1).Some? ==>
      r.value as int == 16 * HexDigitValue(h0).value + HexDigitValue(h1).value
  {
    if h0 == '-' then Error(Argument)
    else if h0 == '+' then
      (match HexDigitValue(h1)
       case Some(d) => Ok(d as byte)
       case None => Error(Format))
    else if h0 == '0' && (h1 == 'x' || h1 == 'X') then Error(Format)
    else
      match (HexDigitValue(h0), HexDigitValue(h1))
      case (Some(d0), Some(d1)) => Ok((16 * d0 + d1) as byte)
      case _ => Error(Format)
  }

  lemma ParseHex2Hex2(b: byte, upperCase: bool)
    ensures ParseHex2(Hex2(b, upperCase)[0], Hex2(b, upperCase)[1]) == Ok(b)
  {
    HexDigitRoundTrip(b as int / 16, upperCase);
    HexDigitRoundTrip(b as int % 16, upperCase);
  }

  // ---------------------------------------------------------------------------
  // UrlEncode

  /** Bytes UrlEncode copies unchanged: A-Z, a-z, 0-9 and `,` `-` `.`. */
  predicate Kept(b: byte)
  {
    65 <= b <= 90 || 97 <= b <= 122 || 48 <= b <= 57 || 44 <= b <= 46
  }

  /** What UrlEncode appends for one byte. */
  function EncodeByte(b: byte, upperCase: bool): (r: string)
    ensures |r| == if Kept(b) || b == 32 then 1 else 3
  {
    if Kept(b) then [b as int as char]
    else if b == 32 then "+"
    else ['%'] + Hex2(b, upperCase)
  }

  function EncodeBytes(bs: seq<byte>, upperCase: bool): string
  {
    if bs == [] then [] else EncodeByte(bs[0], upperCase) + EncodeBytes(bs[1..], upperCase)
  }

  /** UrlEncode: empty for a null or empty component, else the encoding of its UTF-8 bytes. */
  function UrlEncodeSpec(uriComponent: Option<string>, upperCase: bool): string
  {
    if uriComponent.None? then [] else EncodeBytes(Utf8(uriComponent.value), upperCase)
  }

  method UrlEncode(uriComponent: Option<string>, upperCase: bool) returns (r: string)
    ensures r == UrlEncodeSpec(uriComponent, upperCase)
  {
    if uriComponent.None? || uriComponent.value == [] {
      return "";
    }
    var bytes := Utf8(uriComponent.value);
    var sb := "";
    var i := 0;
    while i < |bytes|
      invariant 0 <= i <= |bytes|
      invariant sb + EncodeBytes(bytes[i..], upperCase) == EncodeBytes(bytes, upperCase)
    {
      var charCode := bytes[i];
      var piece: string;
      if Kept(charCode) {
        piece := [charCode as int as char];
      } else if charCode == 32 {
        piece := "+";
      } else {
        piece := ['%'] + Hex2(charCode, upperCase);
      }
      assert piece == EncodeByte(charCode, upperCase);
      EncodeBytesStep(sb, bytes, i, upperCase);
      sb := sb + piece;
      i := i + 1;
    }
    assert bytes[i..] == [];
    return sb;
  }

  /** One more byte of the loop in UrlEncode. */
  lemma EncodeBytesStep(sb: string, bs: seq<byte>, i: nat, upperCase: bool)
    requires i < |bs|
    ensures sb + EncodeBytes(bs[i..], upperCase)
         == (sb + EncodeByte(bs[i], upperCase)) + EncodeBytes(bs[i + 1..], upperCase)
  {
    assert bs[i..][0] == bs[i] && bs[i..][1..] == bs[i + 1..];
    var piece := EncodeByte(bs[i], upperCase);
    var tail := EncodeBytes(bs[i + 1..], upperCase);
    assert sb + (piece + tail) == (sb + piece) + tail;
  }

  /** The characters UrlEncode can emit: A-Z a-z 0-9 `,` `-` `.` `+` `%`. */
  predicate EncodedChar(c: char)
  {
    IsAsciiUpper(c) || IsAsciiLower(c) || '0' <= c <= '9' || c == ',' || c == '-' || c == '.' || c == '+' || c == '%'
  }

  lemma {:induction false} EncodeBytesAlphabet(bs: seq<byte>, upperCase: bool)
    ensures forall i :: 0 <= i < |EncodeBytes(bs, upperCase)| ==> EncodedChar(EncodeBytes(bs, upperCase)[i])
    ensures |bs| <= |EncodeBytes(bs, upperCase)| <= 3 * |bs|
    decreases |bs|
  {
    if bs != [] {
      EncodeBytesAlphabet(bs[1..], upperCase);
      var e := EncodeByte(bs[0], upperCase);
      var rest := EncodeBytes(bs[1..], upperCase);
      forall i | 0 <= i < |e| ensures EncodedChar(e[i]) {
      }
      assert forall i :: 0 <= i < |e + rest| ==> (e + rest)[i] == if i < |e| then e[i] else rest[i - |e|];
    }
  }

  /**
   * UrlEncode emits only A-Z a-z 0-9 `,` `-` `.` `+` and `%hh`, one character
   * per kept byte or space and three per other byte.
   */
  lemma UrlEncodeAlphabet(s: string, upperCase: bool)
    ensures forall i :: 0 <= i < |UrlEncodeSpec(Some(s), upperCase)| ==> EncodedChar(UrlEncodeSpec(Some(s), upperCase)[i])
    ensures |Utf8(s)| <= |UrlEncodeSpec(Some(s), upperCase)| <= 3 * |Utf8(s)|
  {
    EncodeBytesAlphabet(Utf8(s), upperCase);
  }

  // ---------------------------------------------------------------------------
  // UrlDecode

  function Prepend(bs: seq<byte>, r: Result<seq<byte>>): Result<seq<byte>>
  {
    match r
    case Ok(rest) => Ok(bs + rest)
    case Error(f) => Error(f)
  }

  lemma PrependPrepend(xs: seq<byte>, ys: seq<byte>, r: Result<seq<byte>>)
    ensures Prepend(xs, Prepend(ys, r)) == Prepend(xs + ys, r)
    ensures Prepend([], r) == r
  {
    if r.Ok? {
      assert xs + (ys + r.value) == (xs + ys) + r.value;
      assert [] + r.value == r.value;
    }
  }

  /**
   * The bytes UrlDecode collects: `+` is a space, `%` takes the next two
   * characters as a hexadecimal byte (fewer than two left is an
   * ArgumentOutOfRangeException), any other character is truncated to a byte.
   */
  function DecodeChars(text: string): Result<seq<byte>>
    decreases |text|
  {
    if text == [] then Ok([])
    else if text[0] == '+' then Prepend([32], DecodeChars(text[1..]))
    else if text[0] == '%' then
      if |text| < 3 then Error(ArgumentOutOfRange)
      else
        match ParseHex2(text[1], text[2])
        case Error(f) => Error(f)
        case Ok(b) => Prepend([b], DecodeChars(text[3..]))
    else Prepend([(text[0] as int % 256) as byte], DecodeChars(text[1..]))
  }

  /** UrlDecode up to the final Encoding.UTF8.GetString: null for a null or empty text. */
  function UrlDecodeSpec(text: Option<string>): Result<Option<seq<byte>>>
  {
    if text.None? || text.value == [] then Ok(None)
    else
      match DecodeChars(text.value)
      case Ok(bs) => Ok(Some(bs))
      case Error(f) => Error(f)
  }

  method UrlDecode(text: Option<string>) returns (r: Result<Option<seq<byte>>>)
    ensures r == UrlDecodeSpec(text)
  {
    if text.None? || text.value == [] {
      return Ok(None);
    }
    var t := text.value;
    var bytes: seq<byte> := [];
    var i := 0;
    assert t[0..] == t;
    PrependPrepend([], [], DecodeChars(t));
    while i < |t|
      invariant 0 <= i <= |t|
      invariant DecodeChars(t) == Prepend(bytes, DecodeChars(t[i..]))
    {
      var c := t[i];
      assert t[i..][0] == c && t[i..][1..] == t[i + 1..];
      if c == '+' {
        PrependPrepend(bytes, [32], DecodeChars(t[i + 1..]));
        bytes := bytes + [32];
        i := i + 1;
      } else if c == '%' {
        if i + 3 > |t| {
          return Error(ArgumentOutOfRange);
        }
        assert t[i..][1] == t[i + 1] && t[i..][2] == t[i + 2] && t[i..][3..] == t[i + 3..];
        var hexNo := ParseHex2(t[i + 1], t[i + 2]);
        if hexNo.Error? {
          return Error(hexNo.failure);
        }
        PrependPrepend(bytes, [hexNo.value], DecodeChars(t[i + 3..]));
        bytes := bytes + [hexNo.value];
        i := i + 3;
      } else {
        PrependPrepend(bytes, [(c as int % 256) as byte], DecodeChars(t[i + 1..]));
        bytes := bytes + [(c as int % 256) as byte];
        i := i + 1;
      }
    }
    assert t[i..] == [];
    assert bytes + [] == bytes;
    return Ok(Some(bytes));
  }

  lemma {:induction false} DecodeEncodeBytes(bs: seq<byte>, upperCase: bool)
    ensures DecodeChars(EncodeBytes(bs, upperCase)) == Ok(bs)
    decreases |bs|
  {
    if bs != [] {
      var b := bs[0];
      var e := EncodeByte(b, upperCase);
      var rest := EncodeBytes(bs[1..], upperCase);
      DecodeEncodeBytes(bs[1..], upperCase);
      assert (e + rest)[0] == e[0] && (e + rest)[|e|..] == rest;
      if !Kept(b) && b != 32 {
        ParseHex2Hex2(b, upperCase);
        assert (e + rest)[1] == e[1] && (e + rest)[2] == e[2];
      }
      assert bs == [b] + bs[1..];
    }
  }

  /** UrlDecode applied to the output of UrlEncode gives back the UTF-8 bytes of a non-empty string. */
  lemma UrlDecodeEncode(s: string, upperCase: bool)
    requires |s| > 0
    ensures UrlDecodeSpec(Some(UrlEncodeSpec(Some(s), upperCase))) == Ok(Some(Utf8(s)))
  {
    DecodeEncodeBytes(Utf8(s), upperCase);
    EncodeBytesAlphabet(Utf8(s), upperCase);
  }

  /** The empty string encodes to "" but "" decodes to null. */
  lemma UrlEmptyAsymmetry(upperCase: bool)
    ensures UrlEncodeSpec(Some(""), upperCase) == ""
    ensures UrlDecodeSpec(Some("")) == Ok(None)
  {
  }

  /** A `%` too close to the end throws, and a bad digit pair is a format error. */
  lemma UrlDecodeErrors()
    ensures UrlDecodeSpec(Some("a%4")) == Error(ArgumentOutOfRange)
    ensures UrlDecodeSpec(Some("%zz")) == Error(Format)
    ensures UrlDecodeSpec(Some("%-1")) == Error(Argument)
  {
    assert "a%4"[1..] == "%4";
    assert DecodeChars("%4") == Error(ArgumentOutOfRange);
  }

  // ---------------------------------------------------------------------------
  // HexEscape / HexUnescape

  /** `%` and the code in lower-case hexadecimal without padding, for each character of `cs`. */
  function EscapeChars(text: string, cs: set<char>): string
  {
    if text == [] then []
    else (if text[0] in cs then ['%'] + ToHex(text[0] as int) else [text[0]]) + EscapeChars(text[1..], cs)
  }

  /**
   * HexEscape: a null or empty text, or a null or empty set of characters,
   * gives the text back.
   */
  function HexEscapeSpec(text: Option<string>, anyCharOf: Option<seq<char>>): Option<string>
  {
    if text.None? || text.value == [] || anyCharOf.None? || anyCharOf.value == [] then text
    else Some(EscapeChars(text.value, set c | c in anyCharOf.value))
  }

  method HexEscape(text: Option<string>, anyCharOf: Option<seq<char>>) returns (r: Option<string>)
    ensures r == HexEscapeSpec(text, anyCharOf)
  {
    if text.None? || text.value == [] || anyCharOf.None? || anyCharOf.value == [] {
      return text;
    }
    var encodeCharMap := set c | c in anyCharOf.value;
    var t := text.value;
    var sb := "";
    var i := 0;
    while i < |t|
      invariant 0 <= i <= |t|
      invariant sb + EscapeChars(t[i..], encodeCharMap) == EscapeChars(t, encodeCharMap)
    {
      assert t[i..][0] == t[i] && t[i..][1..] == t[i + 1..];
      var c := t[i];
      var piece := if c in encodeCharMap then ['%'] + ToHex(c as int) else [c];
      assert sb + EscapeChars(t[i..], encodeCharMap) == (sb + piece) + EscapeChars(t[i + 1..], encodeCharMap);
      sb := sb + piece;
      i := i + 1;
    }
    assert t[i..] == [];
    assert sb + [] == sb;
    return Some(sb);
  }

  function PrependChars(s: string, r: Result<string>): Result<string>
  {
    match r
    case Ok(rest) => Ok(s + rest)
    case Error(f) => Error(f)
  }

  lemma PrependCharsPrependChars(xs: string, ys: string, r: Result<string>)
    ensures PrependChars(xs, PrependChars(ys, r)) == PrependChars(xs + ys, r)
    ensures PrependChars([], r) == r
  {
    if r.Ok? {
      assert xs + (ys + r.value) == (xs + ys) + r.value;
      assert [] + r.value == r.value;
    }
  }

  /** Every `%` and the two characters after it become the character with that code. */
  function UnescapeChars(text: string): Result<string>
    decreases |text|
  {
    if text == [] then Ok([])
    else if text[0] == '%' then
      if |text| < 3 then Error(ArgumentOutOfRange)
      else
        match ParseHex2(text[1], text[2])
        case Error(f) => Error(f)
        case Ok(b) => PrependChars([b as int as char], UnescapeChars(text[3..]))
    else PrependChars([text[0]], UnescapeChars(text[1..]))
  }

  /**
   * HexUnescape: null for a null or empty text; the text itself when no
   * characters are named; otherwise every `%` is unescaped, whether or not
   * it came from a named character.
   */
  function HexUnescapeSpec(text: Option<string>, anyCharOf: Option<seq<char>>): Result<Option<string>>
  {
    if text.None? || text.value == [] then Ok(None)
    else if anyCharOf.None? || anyCharOf.value == [] then Ok(text)
    else
      match UnescapeChars(text.value)
      case Ok(s) => Ok(Some(s))
      case Error(f) => Error(f)
  }

  method HexUnescape(text: Option<string>, anyCharOf: Option<seq<char>>) returns (r: Result<Option<string>>)
    ensures r == HexUnescapeSpec(text, anyCharOf)
  {
    if text.None? || text.value == [] {
      return Ok(None);
    }
    if anyCharOf.None? || anyCharOf.value == [] {
      return Ok(text);
    }
    var t := text.value;
    var sb := "";
    var i := 0;
    assert t[0..] == t;
    PrependCharsPrependChars([], [], UnescapeChars(t));
    while i < |t|
      invariant 0 <= i <= |t|
      invariant UnescapeChars(t) == PrependChars(sb, UnescapeChars(t[i..]))
    {
      var c := t[i];
      assert t[i..][0] == c && t[i..][1..] == t[i + 1..];
      if c == '%' {
        if i + 3 > |t| {
          return Error(ArgumentOutOfRange);
        }
        assert t[i..][1] == t[i + 1] && t[i..][2] == t[i + 2] && t[i..][3..] == t[i + 3..];
        var hexNo := ParseHex2(t[i + 1], t[i + 2]);
        if hexNo.Error? {
          return Error(hexNo.failure);
        }
        PrependCharsPrependChars(sb, [hexNo.value as int as char], UnescapeChars(t[i + 3..]));
        sb := sb + [hexNo.value as int as char];
        i := i + 3;
      } else {
        PrependCharsPrependChars(sb, [c], UnescapeChars(t[i + 1..]));
        sb := sb + [c];
        i := i + 1;
      }
    }
    assert t[i..] == [];
    assert sb + [] == sb;
    return Ok(Some(sb));
  }

  /** ToHex of a code in [16, 256) is exactly two lower-case digits. */
  lemma ToHexTwoDigits(n: nat)
    requires 16 <= n < 256
    ensures ToHex(n) == Hex2(n as byte, false)
    ensures ParseHex2(ToHex(n)[0], ToHex(n)[1]) == Ok(n as byte)
  {
    ParseHex2Hex2(n as byte, false);
    assert ToHex(n / 16) == [HexDigit(n / 16, false)];
  }

  /** Every escaped character has a two-digit code and no other character is a `%`. */
  predicate Unescapable(text: string, cs: set<char>)
  {
    forall i :: 0 <= i < |text| ==>
      (text[i] in cs ==> 16 <= text[i] as int < 256) && (text[i] !in cs ==> text[i] != '%')
  }

  lemma {:induction false} UnescapeEscapeChars(text: string, cs: set<char>)
    requires Unescapable(text, cs)
    ensures UnescapeChars(EscapeChars(text, cs)) == Ok(text)
    decreases |text|
  {
    if text != [] {
      var c := text[0];
      var e := if c in cs then ['%'] + ToHex(c as int) else [c];
      var rest := EscapeChars(text[1..], cs);
      assert Unescapable(text[1..], cs) by {
        forall i | 0 <= i < |text[1..]| ensures text[1..][i] == text[i + 1] { }
      }
      UnescapeEscapeChars(text[1..], cs);
      assert (e + rest)[0] == e[0] && (e + rest)[|e|..] == rest;
      if c in cs {
        ToHexTwoDigits(c as int);
        assert (e + rest)[1] == e[1] && (e + rest)[2] == e[2];
      }
      assert text == [c] + text[1..];
    }
  }

  /**
   * HexUnescape undoes HexEscape with the same characters when each escaped
   * character has a code in [16, 256) and no other character is a `%`.
   */
  lemma HexUnescapeEscape(text: string, anyCharOf: seq<char>)
    requires |text| > 0 && |anyCharOf| > 0
    requires Unescapable(text, set c | c in anyCharOf)
    ensures HexUnescapeSpec(HexEscapeSpec(Some(text), Some(anyCharOf)), Some(anyCharOf)) == Ok(Some(text))
  {
    var cs := set c | c in anyCharOf;
    UnescapeEscapeChars(text, cs);
    assert |EscapeChars(text, cs)| > 0;
  }

  /**
   * A code below 16 escapes to a single digit, which HexUnescape then reads
   * together with the next character.
   */
  lemma HexEscapeShortCode()
    ensures HexEscapeSpec(Some("\nab"), Some("\n")) == Some("%aab")
    ensures HexUnescapeSpec(Some("%aab"), Some("\n")) == Ok(Some("\U{00AA}b"))
    ensures HexUnescapeSpec(Some("%a"), Some("\n")) == Error(ArgumentOutOfRange)
  {
    assert (set c | c in "\n") == {'\n'};
    assert "\nab"[1..] == "ab" && "ab"[1..] == "b" && "b"[1..] == "";
    assert ToHex(10) == "a";
    assert EscapeChars("b", {'\n'}) == "b";
    assert EscapeChars("ab", {'\n'}) == "ab";
    assert EscapeChars("\nab", {'\n'}) == "%a" + "ab";
    assert ParseHex2('a', 'a') == Ok(0xAA);
    assert "%aab"[3..] == "b";
    assert UnescapeChars("b") == Ok("b");
    assert "%aab"[0] == '%' && "%aab"[1] == 'a' && "%aab"[2] == 'a';
    assert (0xAA as byte) as int as char == '\U{00AA}';
    assert UnescapeChars("%aab") == PrependChars(['\U{00AA}'], UnescapeChars("b"));
    assert |"%a"| < 3 && "%a"[0] == '%';
    assert "%a" + "ab" == "%aab";
    assert ['\U{00AA}'] + "b" == "\U{00AA}b";
  }
}
