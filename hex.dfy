/**
 * Hexadecimal decoding of a byte string as `hex::decode` performs it: an odd
 * length is refused before anything else; otherwise the digits are read in
 * pairs, in order, either letter case accepted, and the first byte that is not
 * a hexadecimal digit is reported with its position.
 */
module Hex {
  import opened Wrappers
  import opened Utf8

  /** `hex::FromHexError`, the variants that decoding into a vector can return. */
  datatype FromHexError =
    | InvalidHexCharacter(c: char, index: nat)
    | OddLength

  predicate IsHexDigit(b: uint8) {
    || '0' as int <= b <= '9' as int
    || 'a' as int <= b <= 'f' as int
    || 'A' as int <= b <= 'F' as int
  }

  /** A character whose single UTF-8 byte is a hexadecimal digit. */
  predicate IsHexChar(c: char) {
    IsAscii(c) && IsHexDigit(c as int)
  }

  /** The value of one hexadecimal digit, either letter case. */
  function DigitValue(b: uint8): (v: uint8)
    requires IsHexDigit(b)
    ensures v < 16
  {
    if b <= '9' as int then b - '0' as int
    else if b >= 'a' as int then b - 'a' as int + 10
    else b - 'A' as int + 10
  }

  /** `i` is the position of the first byte of `s` that is not a hexadecimal digit. */
  predicate IsFirstInvalid(s: seq<uint8>, i: int) {
    && 0 <= i < |s|
    && !IsHexDigit(s[i])
    && forall j :: 0 <= j < i ==> IsHexDigit(s[j])
  }

  /** There is at most one first invalid position. */
  lemma FirstInvalidUnique(s: seq<uint8>, i: int, j: int)
    requires IsFirstInvalid(s, i) && IsFirstInvalid(s, j)
    ensures i == j
  {
  }

  /**
   * Decodes the pairs of an even-length byte string that starts at position
   * `offset` of the whole input, so that error positions are absolute.
   */
  function DecodePairs(s: seq<uint8>, offset: nat): (r: Result<seq<uint8>, FromHexError>)
    requires |s| % 2 == 0
    ensures r.Ok? <==> forall i :: 0 <= i < |s| ==> IsHexDigit(s[i])
    ensures r.Ok? ==> |r.value| == |s| / 2
    ensures r.Ok? ==> forall k :: 0 <= k < |r.value| ==>
      r.value[k] == 16 * DigitValue(s[2 * k]) + DigitValue(s[2 * k + 1])
    ensures r.Err? ==>
      && r.error.InvalidHexCharacter?
      && offset <= r.error.index
      && IsFirstInvalid(s, r.error.index - offset)
      && r.error.c == s[r.error.index - offset] as char
    decreases |s|
  {
    if s == [] then Ok([])
    else if !IsHexDigit(s[0]) then Err(InvalidHexCharacter(s[0] as char, offset))
    else if !IsHexDigit(s[1]) then Err(InvalidHexCharacter(s[1] as char, offset + 1))
    else
      match DecodePairs(s[2..], offset + 2)
      case Err(e) => Err(e)
      case Ok(rest) => Ok([16 * DigitValue(s[0]) + DigitValue(s[1])] + rest)
  }

  /** `hex::decode`. */
  function Decode(s: seq<uint8>): (r: Result<seq<uint8>, FromHexError>)
    ensures r == Err(OddLength) <==> |s| % 2 != 0
    ensures r.Ok? <==> |s| % 2 == 0 && forall i :: 0 <= i < |s| ==> IsHexDigit(s[i])
    ensures r.Ok? ==> |r.value| == |s| / 2
    ensures r.Ok? ==> forall k :: 0 <= k < |r.value| ==>
      r.value[k] == 16 * DigitValue(s[2 * k]) + DigitValue(s[2 * k + 1])
    ensures r.Err? && r.error.InvalidHexCharacter? ==>
      IsFirstInvalid(s, r.error.index) && r.error.c == s[r.error.index] as char
  {
    if |s| % 2 != 0 then Err(OddLength) else DecodePairs(s, 0)
  }

  /** The digit for a value below 16, in lower or upper case. */
  function DigitChar(v: nat, upper: bool): (c: char)
    requires v < 16
    ensures IsAscii(c) && IsHexDigit(c as int) && DigitValue(c as int) == v
  {
    if v < 10 then ('0' as int + v) as char
    else if upper then ('A' as int + v - 10) as char
    else ('a' as int + v - 10) as char
  }

  /** `hex::encode` (lower case) and `hex::encode_upper`: two digits per byte, high nibble first. */
  function ToHex(bytes: seq<uint8>, upper: bool): (s: string)
    ensures |s| == 2 * |bytes|
    ensures forall k :: 0 <= k < |bytes| ==>
      s[2 * k] == DigitChar(bytes[k] / 16, upper) && s[2 * k + 1] == DigitChar(bytes[k] % 16, upper)
  {
    if bytes == [] then []
    else [DigitChar(bytes[0] / 16, upper), DigitChar(bytes[0] % 16, upper)] + ToHex(bytes[1..], upper)
  }

  /** Decoding inverts encoding, in either letter case. */
  lemma DecodeToHex(bytes: seq<uint8>, upper: bool)
    ensures Decode(Utf8.Encode(ToHex(bytes, upper))) == Ok(bytes)
  {
    var text := ToHex(bytes, upper);
    forall i | 0 <= i < |text|
      ensures IsAscii(text[i]) && IsHexDigit(text[i] as int)
    {
      var k := i / 2;
      if i == 2 * k {
        assert text[2 * k] == DigitChar(bytes[k] / 16, upper);
      } else {
        assert text[2 * k + 1] == DigitChar(bytes[k] % 16, upper);
      }
    }
    EncodeAscii(text);
    var s := Utf8.Encode(text);
    assert forall i :: 0 <= i < |s| ==> IsHexDigit(s[i]);
    var r := Decode(s);
    assert r.Ok?;
    forall k | 0 <= k < |bytes|
      ensures r.value[k] == bytes[k]
    {
      assert s[2 * k] == DigitChar(bytes[k] / 16, upper) as int;
      assert s[2 * k + 1] == DigitChar(bytes[k] % 16, upper) as int;
    }
    assert r.value == bytes;
  }
}
