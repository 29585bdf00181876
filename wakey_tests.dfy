/** The unit tests of src/lib.rs, as facts about the model. */
module WakeyTests {
  import opened Wrappers
  import opened Utf8
  import opened Str
  import HexCrate = Hex
  import opened Wakey

  // Evaluations of the model on the tests' literal inputs, each kept apart
  // from the lemma that uses it so that the solver only unfolds it once.
  // Literal inputs are passed as parameters fixed by a `requires`, which keeps
  // the solver from unfolding the recursive string functions on them eagerly.

  lemma JoinCons(p: string, rest: seq<string>, sep: char)
    requires |rest| > 0
    ensures Join([p] + rest, sep) == p + [sep] + Join(rest, sep)
    ensures Concat([p] + rest) == p + Concat(rest)
  {
  }

  lemma JoinFive(a: string, b: string, c: string, d: string, e: string, sep: char)
    ensures Join([a, b, c, d, e], sep) == a + [sep] + b + [sep] + c + [sep] + d + [sep] + e
    ensures Concat([a, b, c, d, e]) == a + b + c + d + e
  {
    assert Concat([e]) == e + Concat([]);
    assert [d, e] == [d] + [e];
    JoinCons(d, [e], sep);
    assert [c, d, e] == [c] + [d, e];
    JoinCons(c, [d, e], sep);
    assert [b, c, d, e] == [b] + [c, d, e];
    JoinCons(b, [c, d, e], sep);
    assert [a, b, c, d, e] == [a] + [b, c, d, e];
    JoinCons(a, [b, c, d, e], sep);
  }

  lemma JoinSix(a: string, b: string, c: string, d: string, e: string, f: string, sep: char)
    ensures Join([a, b, c, d, e, f], sep) == a + [sep] + b + [sep] + c + [sep] + d + [sep] + e + [sep] + f
    ensures Concat([a, b, c, d, e, f]) == a + b + c + d + e + f
  {
    JoinFive(b, c, d, e, f, sep);
    assert [a, b, c, d, e, f] == [a] + [b, c, d, e, f];
    JoinCons(a, [b, c, d, e, f], sep);
  }

  lemma LowerCaseOctets(mac: seq<uint8>)
    requires mac == [0x01, 0x02, 0x03, 0x04, 0x05, 0x06]
    ensures Octets(mac, false) == ["01", "02", "03", "04", "05", "06"]
  {
    assert HexCrate.ToHex([0x01], false) == "01";
    assert HexCrate.ToHex([0x02], false) == "02";
    assert HexCrate.ToHex([0x03], false) == "03";
    assert HexCrate.ToHex([0x04], false) == "04";
    assert HexCrate.ToHex([0x05], false) == "05";
    assert HexCrate.ToHex([0x06], false) == "06";
  }

  lemma ColonFormExample(mac: seq<uint8>)
    requires mac == [0x01, 0x02, 0x03, 0x04, 0x05, 0x06]
    ensures FormatMac(mac, ':', false) == "01:02:03:04:05:06"
  {
    LowerCaseOctets(mac);
    JoinSix("01", "02", "03", "04", "05", "06", ':');
  }

  lemma UpperCaseOctets(mac: seq<uint8>)
    requires mac == [0xDE, 0xAD, 0xBE, 0xEF, 0xCA, 0xFE]
    ensures Octets(mac, true) == ["DE", "AD", "BE", "EF", "CA", "FE"]
  {
    assert HexCrate.ToHex([0xDE], true) == "DE";
    assert HexCrate.ToHex([0xAD], true) == "AD";
    assert HexCrate.ToHex([0xBE], true) == "BE";
    assert HexCrate.ToHex([0xEF], true) == "EF";
    assert HexCrate.ToHex([0xCA], true) == "CA";
    assert HexCrate.ToHex([0xFE], true) == "FE";
  }

  lemma SpaceFormExample(mac: seq<uint8>)
    requires mac == [0xDE, 0xAD, 0xBE, 0xEF, 0xCA, 0xFE]
    ensures FormatMac(mac, ' ', true) == "DE AD BE EF CA FE"
  {
    UpperCaseOctets(mac);
    JoinSix("DE", "AD", "BE", "EF", "CA", "FE", ' ');
  }

  lemma StripFive(a: string, b: string, c: string, d: string, e: string, sep: char)
    requires sep !in a && sep !in b && sep !in c && sep !in d && sep !in e
    ensures Remove(a + [sep] + b + [sep] + c + [sep] + d + [sep] + e, sep) == a + b + c + d + e
  {
    JoinFive(a, b, c, d, e, sep);
    RemoveJoin([a, b, c, d, e], sep);
  }

  lemma StripSix(a: string, b: string, c: string, d: string, e: string, f: string, sep: char)
    requires sep !in a && sep !in b && sep !in c && sep !in d && sep !in e && sep !in f
    ensures Remove(a + [sep] + b + [sep] + c + [sep] + d + [sep] + e + [sep] + f, sep)
      == a + b + c + d + e + f
  {
    JoinSix(a, b, c, d, e, f, sep);
    RemoveJoin([a, b, c, d, e, f], sep);
  }

  lemma InvalidCharacterStripped(data: string, stripped: string)
    requires data == "ZZ:02:03:04:05:06" && stripped == "ZZ0203040506"
    ensures Remove(data, ':') == stripped
  {
    var a, b, c, d, e, f := "ZZ", "02", "03", "04", "05", "06";
    assert data == a + [':'] + b + [':'] + c + [':'] + d + [':'] + e + [':'] + f;
    assert stripped == a + b + c + d + e + f;
    StripSix(a, b, c, d, e, f, ':');
  }

  lemma MisplacedSeparatorStripped(data: string, stripped: string)
    requires data == "01002:03:04:05:06" && stripped == "0100203040506"
    ensures Remove(data, ':') == stripped
  {
    var a, b, c, d, e := "01002", "03", "04", "05", "06";
    assert data == a + [':'] + b + [':'] + c + [':'] + d + [':'] + e;
    assert stripped == a + b + c + d + e;
    StripFive(a, b, c, d, e, ':');
  }

  lemma InvalidCharacterShape(t: string)
    requires t == "ZZ0203040506"
    ensures |Encode(t)| % 2 == 0
    ensures IsAscii(t[0]) && !HexCrate.IsHexChar(t[0])
  {
    EncodeAscii(t);
  }

  /** `mac_to_byte("01:02:03:04:05:06", ':')` yields the bytes 1 to 6. */
  lemma ParsesColonSeparated(data: string, mac: seq<uint8>)
    requires data == "01:02:03:04:05:06"
    requires mac == [0x01, 0x02, 0x03, 0x04, 0x05, 0x06]
    ensures MacToByte(data, ':') == Ok(mac)
  {
    ColonFormExample(mac);
    MacToByteFormatMac(mac, ':', false);
  }

  /** `from_string("DE AD BE EF CA FE", ' ')` succeeds: upper-case digits, a space as separator. */
  lemma ParsesSpaceSeparatedUpperCase(data: string, mac: seq<uint8>)
    requires data == "DE AD BE EF CA FE"
    requires mac == [0xDE, 0xAD, 0xBE, 0xEF, 0xCA, 0xFE]
    ensures MacToByte(data, ' ') == Ok(mac)
    ensures FromString(data, ' ').Ok?
  {
    SpaceFormExample(mac);
    MacToByteFormatMac(mac, ' ', true);
  }

  /** `mac_to_byte("ZZ:02:03:04:05:06", ':')` reports the character 'Z' at position 0. */
  lemma RejectsInvalidCharacter(data: string, stripped: string)
    requires data == "ZZ:02:03:04:05:06" && stripped == "ZZ0203040506"
    ensures MacToByte(data, ':') == Err(Error.Hex(HexCrate.InvalidHexCharacter('Z', 0)))
  {
    InvalidCharacterStripped(data, stripped);
    InvalidCharacterShape(stripped);
    MacToByteInvalidCharacter(data, ':', 0);
  }

  /**
   * `mac_to_byte("01002:03:04:05:06", ':')` is an error: the thirteen digits
   * left once the separators are stripped are refused for their odd length.
   */
  lemma RejectsMisplacedSeparator(data: string, stripped: string)
    requires data == "01002:03:04:05:06" && stripped == "0100203040506"
    ensures MacToByte(data, ':') == Err(Error.Hex(HexCrate.OddLength))
  {
    MisplacedSeparatorStripped(data, stripped);
    EncodeAscii(stripped);
    MacToByteOddLength(data, ':');
  }

  lemma HexDigitSeparatorOctets(mac: seq<uint8>)
    requires mac == [0xAA, 0x00, 0x00, 0x00, 0x00, 0x00]
    ensures Octets(mac, false) == ["aa", "00", "00", "00", "00", "00"]
  {
    assert HexCrate.ToHex([0xAA], false) == "aa";
    assert HexCrate.ToHex([0x00], false) == "00";
  }

  lemma HexDigitSeparatorFormat(mac: seq<uint8>, data: string)
    requires mac == [0xAA, 0x00, 0x00, 0x00, 0x00, 0x00]
    requires data == "aaa00a00a00a00a00"
    ensures FormatMac(mac, 'a', false) == data
  {
    HexDigitSeparatorOctets(mac);
    JoinSix("aa", "00", "00", "00", "00", "00", 'a');
  }

  lemma StripLeadingSeparators(b: string, sep: char)
    requires sep !in b
    ensures Remove([sep, sep, sep] + (b + [sep] + b + [sep] + b + [sep] + b + [sep] + b), sep)
      == b + b + b + b + b
  {
    var lead := [sep, sep, sep];
    var tail := b + [sep] + b + [sep] + b + [sep] + b + [sep] + b;
    assert Remove(lead, sep) == [] by {
      RemoveOnly(lead, sep);
    }
    assert Remove(tail, sep) == b + b + b + b + b by {
      StripFive(b, b, b, b, b, sep);
    }
    RemoveAppend(lead, tail, sep);
  }

  lemma HexDigitSeparatorStripped(data: string, stripped: string)
    requires data == "aaa00a00a00a00a00" && stripped == "0000000000"
    ensures Remove(data, 'a') == stripped
  {
    var b := "00";
    assert data == ['a', 'a', 'a'] + (b + ['a'] + b + ['a'] + b + ['a'] + b + ['a'] + b);
    assert stripped == b + b + b + b + b;
    StripLeadingSeparators(b, 'a');
  }

  /**
   * A separator that is a hexadecimal digit also strips that digit from the
   * octets, so the text form of a MAC need not parse back: with 'a' as the
   * separator, "aaa00a00a00a00a00" keeps only ten zeros, five bytes.
   */
  lemma HexDigitSeparatorBreaksRoundTrip(mac: seq<uint8>, data: string, stripped: string)
    requires mac == [0xAA, 0x00, 0x00, 0x00, 0x00, 0x00]
    requires data == "aaa00a00a00a00a00" && stripped == "0000000000"
    ensures FormatMac(mac, 'a', false) == data
    ensures MacToByte(data, 'a') == Err(InvalidHexStringLength)
  {
    HexDigitSeparatorFormat(mac, data);
    HexDigitSeparatorStripped(data, stripped);
    MacToByteStripsSeparator(data, 'a');
    EncodeAscii(stripped);
  }

  /** `create_packet_bytes` of six 0xFF bytes is 102 bytes, all of them 0xFF. */
  lemma AllOnesPacket(mac: seq<uint8>)
    requires mac == [0xFF, 0xFF, 0xFF, 0xFF, 0xFF, 0xFF]
    ensures |PacketBytes(mac)| == PacketSize == 102
    ensures forall k :: 0 <= k < |PacketBytes(mac)| ==> PacketBytes(mac)[k] == 0xFF
  {
  }

  /** `extend_mac` of a 6-byte MAC is 96 bytes, the MAC in each 6-byte block. */
  lemma ExtendSixByteMac(mac: seq<uint8>)
    requires |mac| == MacSize
    ensures |ExtendMac(mac)| == 96
    ensures forall i: nat :: i < MacPerMagic ==> ExtendMac(mac)[6 * i .. 6 * i + 6] == mac
  {
    forall i: nat | i < MacPerMagic
      ensures ExtendMac(mac)[6 * i .. 6 * i + 6] == mac
    {
      ExtendMacBlock(mac, i);
    }
  }
}
