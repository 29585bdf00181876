/**
 * The byte view of a Rust `str`: `str::bytes` yields the UTF-8 encoding of the
 * text, one scalar value after another.
 */
module Utf8 {

  /** An octet, Rust's `u8`. */
  type uint8 = x: int | 0 <= x < 0x100

  predicate IsAscii(c: char) {
    c as int < 0x80
  }

  /** The UTF-8 encoding of one Unicode scalar value (RFC 3629, section 3). */
  function EncodeChar(c: char): (bytes: seq<uint8>)
    ensures 1 <= |bytes| <= 4
    ensures IsAscii(c) <==> |bytes| == 1
    ensures IsAscii(c) ==> bytes[0] == c as int
    ensures !IsAscii(c) ==> forall i :: 0 <= i < |bytes| ==> bytes[i] >= 0x80
  {
    var n := c as int;
    if n < 0x80 then
      [n]
    else if n < 0x800 then
      [0xC0 + n / 0x40, 0x80 + n % 0x40]
    else if n < 0x1_0000 then
      [0xE0 + n / 0x1000, 0x80 + n / 0x40 % 0x40, 0x80 + n % 0x40]
    else
      [0xF0 + n / 0x4_0000, 0x80 + n / 0x1000 % 0x40, 0x80 + n / 0x40 % 0x40, 0x80 + n % 0x40]
  }

  /** The bytes of a whole string, as `str::bytes` produces them. */
  function Encode(s: string): (bytes: seq<uint8>)
    ensures |bytes| >= |s|
    ensures |bytes| == |s| <==> forall i :: 0 <= i < |s| ==> IsAscii(s[i])
  {
    if s == [] then [] else EncodeChar(s[0]) + Encode(s[1..])
  }

  /** Encoding distributes over concatenation. */
  lemma {:induction false} EncodeAppend(a: string, b: string)
    ensures Encode(a + b) == Encode(a) + Encode(b)
  {
    if a == [] {
      assert a + b == b;
    } else {
      assert (a + b)[1..] == a[1..] + b;
      EncodeAppend(a[1..], b);
    }
  }

  /** An ASCII string is its own byte string: one byte per character, with the same code. */
  lemma {:induction false} EncodeAscii(s: string)
    requires forall i :: 0 <= i < |s| ==> IsAscii(s[i])
    ensures |Encode(s)| == |s|
    ensures forall i :: 0 <= i < |s| ==> Encode(s)[i] == s[i] as int
  {
    if s != [] {
      EncodeAscii(s[1..]);
      assert Encode(s) == [s[0] as int] + Encode(s[1..]);
    }
  }

  /**
   * After an ASCII prefix, the encoding of a string holds the prefix's codes,
   * then the first byte of the next character's encoding.
   */
  lemma EncodeAfterAsciiPrefix(prefix: string, c: char, suffix: string)
    requires forall j :: 0 <= j < |prefix| ==> IsAscii(prefix[j])
    ensures |prefix| < |Encode(prefix + [c] + suffix)|
    ensures forall j :: 0 <= j < |prefix| ==> Encode(prefix + [c] + suffix)[j] == prefix[j] as int
    ensures Encode(prefix + [c] + suffix)[|prefix|] == EncodeChar(c)[0]
  {
    EncodeAppend(prefix + [c], suffix);
    EncodeAppend(prefix, [c]);
    assert Encode([c]) == EncodeChar(c) + Encode([]);
    EncodeAscii(prefix);
  }

  /**
   * A byte below 0x80 in the encoding of a string comes only from an ASCII
   * character of that string: every byte of a longer sequence is 0x80 or above.
   */
  lemma {:induction false} EncodeLowBytesAreAscii(s: string)
    requires forall i :: 0 <= i < |Encode(s)| ==> Encode(s)[i] < 0x80
    ensures forall i :: 0 <= i < |s| ==> IsAscii(s[i])
  {
    if s != [] {
      var head := EncodeChar(s[0]);
      assert Encode(s) == head + Encode(s[1..]);
      assert Encode(s)[0] == head[0];
      forall i | 0 <= i < |Encode(s[1..])|
        ensures Encode(s[1..])[i] < 0x80
      {
        assert Encode(s)[|head| + i] == Encode(s[1..])[i];
      }
      EncodeLowBytesAreAscii(s[1..]);
      forall i | 0 <= i < |s|
        ensures IsAscii(s[i])
      {
        if i > 0 {
          assert s[i] == s[1..][i - 1];
        }
      }
    }
  }
}
