/**
 * The two decoders the magnet-link parser calls into: `url.QueryUnescape`
 * (percent-decoding of a query component) and `hex.DecodeString`
 * (base16 as in section 8 of RFC 4648, either letter case).
 * Go strings are byte strings: a `char` below 256 stands for one byte.
 */
module Encoding {
  import opened Wrappers
  import opened Text

  type byte = b: int | 0 <= b < 256

  predicate IsHexDigit(c: char) {
    '0' <= c <= '9' || 'a' <= c <= 'f' || 'A' <= c <= 'F'
  }

  function HexValue(c: char): (v: nat)
    requires IsHexDigit(c)
    ensures v < 16
  {
    if '0' <= c <= '9' then c as int - '0' as int
    else if 'a' <= c <= 'f' then c as int - 'a' as int + 10
    else c as int - 'A' as int + 10
  }

  /** The lower-case hex digit of a value below 16 (what `hex.Encode` writes). */
  function HexChar(v: nat): (c: char)
    requires v < 16
    ensures IsHexDigit(c) && HexValue(c) == v
  {
    if v < 10 then ('0' as int + v) as char else ('a' as int + v - 10) as char
  }

  // ---------------------------------------------------------------- QueryUnescape

  /** `url.EscapeError`: the offending `%` sequence, at most three characters. */
  datatype EscapeError = EscapeError(fragment: string)

  /**
   * `url.QueryUnescape`: `%XX` with two hex digits becomes that byte, `+`
   * becomes a space, anything else is kept; the first `%` that is not
   * followed by two hex digits is an error.
   */
  function Unescape(s: string): (r: Result<string, EscapeError>)
    ensures r.Success? ==> |r.value| <= |s|
    ensures r.Success? <==> WellEscaped(s)
    decreases |s|
  {
    if s == [] then Success([])
    else if s[0] == '%' then
      if |s| < 3 || !IsHexDigit(s[1]) || !IsHexDigit(s[2]) then
        Failure(EscapeError(if |s| < 3 then s else s[..3]))
      else
        match Unescape(s[3..])
        case Success(rest) => Success([(16 * HexValue(s[1]) + HexValue(s[2])) as char] + rest)
        case Failure(e) => Failure(e)
    else
      match Unescape(s[1..])
      case Success(rest) => Success([if s[0] == '+' then ' ' else s[0]] + rest)
      case Failure(e) => Failure(e)
  }

  /** Every `%` opens a complete two-hex-digit escape. */
  predicate WellEscaped(s: string)
    decreases |s|
  {
    if s == [] then true
    else if s[0] == '%' then |s| >= 3 && IsHexDigit(s[1]) && IsHexDigit(s[2]) && WellEscaped(s[3..])
    else WellEscaped(s[1..])
  }

  /** Percent-encodes every byte: the inverse of `Unescape`. */
  function Escape(s: string): (e: string)
    requires forall i :: 0 <= i < |s| ==> s[i] as int < 256
    ensures |e| == 3 * |s|
  {
    if s == [] then ""
    else ['%', HexChar(s[0] as int / 16), HexChar(s[0] as int % 16)] + Escape(s[1..])
  }

  lemma {:induction false} UnescapeEscape(s: string)
    requires forall i :: 0 <= i < |s| ==> s[i] as int < 256
    ensures Unescape(Escape(s)) == Success(s)
  {
    if s != [] {
      UnescapeEscape(s[1..]);
      var b := s[0] as int;
      var e := Escape(s);
      assert e == ['%', HexChar(b / 16), HexChar(b % 16)] + Escape(s[1..]);
      assert e[3..] == Escape(s[1..]);
      assert 16 * HexValue(e[1]) + HexValue(e[2]) == b;
      assert Unescape(e) == Success([b as char] + s[1..]);
      assert [s[0]] + s[1..] == s;
    }
  }

  /** A value with no `%` and no `+` is left as it is. */
  lemma {:induction false} UnescapePlain(s: string)
    requires '%' !in s && '+' !in s
    ensures Unescape(s) == Success(s)
  {
    if s != [] {
      UnescapePlain(s[1..]);
      assert [s[0]] + s[1..] == s;
    }
  }

  // ---------------------------------------------------------------- hex

  datatype HexError = InvalidByte(c: char) | ErrLength

  /**
   * `hex.DecodeString`: two digits per byte, high nibble first. Pairs are
   * checked left to right; an odd trailing digit reports an invalid byte if
   * it is not a hex digit and `ErrLength` otherwise.
   */
  function HexDecode(s: string): (r: Result<seq<byte>, HexError>)
    ensures r.Success? ==> 2 * |r.value| == |s|
    ensures r.Success? <==> |s| % 2 == 0 && forall i :: 0 <= i < |s| ==> IsHexDigit(s[i])
    decreases |s|
  {
    if s == [] then Success([])
    else if |s| == 1 then
      if IsHexDigit(s[0]) then Failure(ErrLength) else Failure(InvalidByte(s[0]))
    else if !IsHexDigit(s[0]) then Failure(InvalidByte(s[0]))
    else if !IsHexDigit(s[1]) then Failure(InvalidByte(s[1]))
    else
      match HexDecode(s[2..])
      case Success(rest) => Success([16 * HexValue(s[0]) + HexValue(s[1])] + rest)
      case Failure(e) => Failure(e)
  }

  /** `hex.EncodeToString`: two lower-case digits per byte. */
  function HexEncode(b: seq<byte>): (s: string)
    ensures |s| == 2 * |b|
  {
    if b == [] then "" else [HexChar(b[0] / 16), HexChar(b[0] % 16)] + HexEncode(b[1..])
  }

  lemma {:induction false} HexDecodeEncode(b: seq<byte>)
    ensures HexDecode(HexEncode(b)) == Success(b)
  {
    if b != [] {
      HexDecodeEncode(b[1..]);
      assert HexEncode(b)[2..] == HexEncode(b[1..]);
      assert [b[0]] + b[1..] == b;
    }
  }

  /** Decoding then encoding gives back the input with its letters lower-cased. */
  lemma {:induction false} HexEncodeDecode(s: string)
    requires HexDecode(s).Success?
    ensures HexEncode(HexDecode(s).value) == Lower(s)
    decreases |s|
  {
    if s != [] {
      HexEncodeDecode(s[2..]);
      var b := HexDecode(s).value;
      assert b[1..] == HexDecode(s[2..]).value;
      assert HexChar(b[0] / 16) == LowerChar(s[0]);
      assert HexChar(b[0] % 16) == LowerChar(s[1]);
      assert Lower(s) == [LowerChar(s[0]), LowerChar(s[1])] + Lower(s[2..]);
    }
  }
}
