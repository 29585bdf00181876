/**
 * Wake-on-LAN magic packets (`wakey`, src/lib.rs).
 *
 * A magic packet is six 0xFF bytes followed by the target's 6-byte MAC
 * address sixteen times over, 102 bytes in all. A `WolPacket` is built either
 * from the raw MAC bytes or from a textual MAC such as "01:02:03:04:05:06"
 * together with the separator character to strip from it.
 */
module Wakey {
  import opened Wrappers
  import opened Utf8
  import opened Str
  import HexCrate = Hex

  const MacSize: nat := 6
  const MacPerMagic: nat := 16
  const Header: seq<uint8> := [0xFF, 0xFF, 0xFF, 0xFF, 0xFF, 0xFF]
  /** The length of the magic packet of a 6-byte MAC: 6 + 6 * 16. */
  const PacketSize: nat := |Header| + MacSize * MacPerMagic

  /** Everything the library can fail with. */
  datatype Error =
    | Hex(HexCrate.FromHexError)
      /** A socket operation failed; the wrapped `std::io::Error` is not modelled. */
    | IO
      /** The text decoded to a number of bytes other than 6. */
    | InvalidHexStringLength
      /** The raw MAC handed in was not 6 bytes long. */
    | InvalidHexArrayLength

  /** The bytes of a magic packet: always `PacketSize` of them. */
  type PacketData = p: seq<uint8> | |p| == PacketSize witness seq(PacketSize, _ => 0xFF)

  /** A Wake-on-LAN packet; its bytes are fixed when it is built. */
  datatype WolPacket = WolPacket(packet: PacketData)

  // ---------------------------------------------------------------------------
  // The magic-packet layout

  /** Copy number `i` of the MAC inside a 102-byte packet: bytes [6 + 6i, 6 + 6i + 6). */
  function MacSlot(packet: seq<uint8>, i: nat): seq<uint8>
    requires |packet| == PacketSize && i < MacPerMagic
  {
    packet[|Header| + MacSize * i .. |Header| + MacSize * (i + 1)]
  }

  /** `packet` is the magic packet for `mac`: the synchronisation header, then 16 copies of `mac`. */
  predicate IsMagicPacketOf(packet: seq<uint8>, mac: seq<uint8>) {
    && |mac| == MacSize
    && |packet| == PacketSize
    && packet[..|Header|] == Header
    && forall i: nat :: i < MacPerMagic ==> MacSlot(packet, i) == mac
  }

  /** `n` copies of `s` back to back. */
  function Repeat(s: seq<uint8>, n: nat): (r: seq<uint8>)
    ensures |r| == n * |s|
    ensures forall x :: x in r ==> x in s
  {
    if n == 0 then [] else s + Repeat(s, n - 1)
  }

  /** Copy number `i` of `s` inside `Repeat(s, n)` sits at [|s| * i, |s| * (i + 1)). */
  lemma {:induction false} RepeatBlock(s: seq<uint8>, n: nat, i: nat)
    requires i < n
    ensures |s| * (i + 1) <= |Repeat(s, n)|
    ensures Repeat(s, n)[|s| * i .. |s| * (i + 1)] == s
  {
    var r := Repeat(s, n);
    var tail := Repeat(s, n - 1);
    assert r == s + tail;
    if i == 0 {
      assert r[0 .. |s|] == s;
    } else {
      RepeatBlock(s, n - 1, i - 1);
      assert |s| * i == |s| + |s| * (i - 1);
      assert |s| * (i + 1) == |s| + |s| * i;
      assert r[|s| * i .. |s| * (i + 1)] == tail[|s| * (i - 1) .. |s| * i];
    }
  }

  /** `extend_mac`: the MAC repeated once for every slot of the packet. */
  function ExtendMac(mac: seq<uint8>): (r: seq<uint8>)
    ensures |r| == MacPerMagic * |mac|
    ensures forall x :: x in r ==> x in mac
  {
    Repeat(mac, MacPerMagic)
  }

  /** Copy number `i` of the MAC inside the extended MAC, for a MAC of any length. */
  lemma ExtendMacBlock(mac: seq<uint8>, i: nat)
    requires i < MacPerMagic
    ensures |mac| * (i + 1) <= |ExtendMac(mac)|
    ensures ExtendMac(mac)[|mac| * i .. |mac| * (i + 1)] == mac
  {
    RepeatBlock(mac, MacPerMagic, i);
  }

  /** The bytes `create_packet_bytes` produces: the header followed by the extended MAC. */
  function PacketBytes(mac: seq<uint8>): (packet: seq<uint8>)
    ensures |packet| == |Header| + MacPerMagic * |mac|
    ensures forall k :: 0 <= k < |Header| ==> packet[k] == 0xFF
    ensures forall k :: |Header| <= k < |packet| ==> packet[k] in mac
  {
    Header + ExtendMac(mac)
  }

  /** For a 6-byte MAC, the packet bytes are exactly the magic-packet layout, and nothing else is. */
  lemma {:induction false} PacketLayout(mac: seq<uint8>, packet: seq<uint8>)
    requires |mac| == MacSize
    ensures IsMagicPacketOf(PacketBytes(mac), mac)
    ensures IsMagicPacketOf(packet, mac) <==> packet == PacketBytes(mac)
  {
    var p := PacketBytes(mac);
    var ext := ExtendMac(mac);
    assert p[..|Header|] == Header;
    forall i: nat | i < MacPerMagic
      ensures MacSlot(p, i) == mac
    {
      ExtendMacBlock(mac, i);
      assert MacSlot(p, i) == ext[MacSize * i .. MacSize * (i + 1)];
    }
    if IsMagicPacketOf(packet, mac) {
      forall k | 0 <= k < |packet|
        ensures packet[k] == p[k]
      {
        if k >= |Header| {
          var i := (k - |Header|) / MacSize;
          var j := (k - |Header|) % MacSize;
          assert k == |Header| + MacSize * i + j;
          assert packet[k] == MacSlot(packet, i)[j];
          assert p[k] == MacSlot(p, i)[j];
        } else {
          assert packet[k] == packet[..|Header|][k];
        }
      }
    }
  }

  /**
   * `create_packet_bytes`: a vector with room for the whole packet, extended
   * first with the header and then with the extended MAC.
   */
  method CreatePacketBytes(mac: seq<uint8>) returns (packet: seq<uint8>)
    ensures packet == PacketBytes(mac)
    ensures |packet| == |Header| + MacPerMagic * |mac|
    ensures |mac| == MacSize ==> IsMagicPacketOf(packet, mac)
  {
    packet := [];
    packet := packet + Header;
    packet := packet + ExtendMac(mac);
    if |mac| == MacSize {
      PacketLayout(mac, packet);
    }
  }

  // ---------------------------------------------------------------------------
  // Building a packet

  /** `WolPacket::from_bytes`: exactly six bytes make a packet, any other length is refused. */
  function FromBytes(mac: seq<uint8>): (r: Result<WolPacket, Error>)
    ensures r.Ok? <==> |mac| == MacSize
    ensures r.Err? ==> r.error == InvalidHexArrayLength
    ensures r.Ok? ==> IsMagicPacketOf(r.value.packet, mac)
  {
    if |mac| == MacSize then
      PacketLayout(mac, PacketBytes(mac));
      Ok(WolPacket(PacketBytes(mac)))
    else
      Err(InvalidHexArrayLength)
  }

  /**
   * The second half of `mac_to_byte`: a decoding error is wrapped as `Hex`,
   * and decoded bytes are kept only when there are exactly six of them.
   */
  function CheckDecoded(decoded: Result<seq<uint8>, HexCrate.FromHexError>): (r: Result<seq<uint8>, Error>)
    ensures r.Ok? <==> decoded.Ok? && |decoded.value| == MacSize
    ensures r.Ok? ==> r.value == decoded.value
    ensures decoded.Err? ==> r == Err(Hex(decoded.error))
    ensures decoded.Ok? && |decoded.value| != MacSize ==> r == Err(InvalidHexStringLength)
  {
    match decoded
    case Err(e) => Err(Hex(e))
    case Ok(bytes) => if |bytes| == MacSize then Ok(bytes) else Err(InvalidHexStringLength)
  }

  /**
   * `mac_to_byte`: split the text on the separator, run the bytes of the
   * pieces together, hex-decode them and insist on six bytes.
   */
  function MacToByte(data: string, sep: char): (r: Result<seq<uint8>, Error>)
    ensures r.Ok? ==> |r.value| == MacSize
    ensures r.Err? ==> r.error.Hex? || r.error == InvalidHexStringLength
  {
    CheckDecoded(HexCrate.Decode(FlattenBytes(Split(data, sep))))
  }

  /** `WolPacket::from_string`: `mac_to_byte`, then `from_bytes` on its result. */
  function FromString(data: string, sep: char): (r: Result<WolPacket, Error>)
    ensures r.Ok? <==> MacToByte(data, sep).Ok?
    ensures r.Err? ==> r.error == MacToByte(data, sep).error && r.error != InvalidHexArrayLength
    ensures r.Ok? ==> IsMagicPacketOf(r.value.packet, MacToByte(data, sep).value)
  {
    match MacToByte(data, sep)
    case Err(e) => Err(e)
    case Ok(bytes) => FromBytes(bytes)
  }

  // ---------------------------------------------------------------------------
  // What parsing text means

  /**
   * `mac_to_byte` is hex-decoding of the input's bytes with every occurrence
   * of the separator removed, wherever it stands.
   */
  lemma MacToByteStripsSeparator(data: string, sep: char)
    ensures MacToByte(data, sep) == CheckDecoded(HexCrate.Decode(Encode(Remove(data, sep))))
  {
    FlattenSplitIsRemove(data, sep);
  }

  /** An input without the separator is decoded whole. */
  lemma MacToByteWithoutSeparator(data: string, sep: char)
    requires sep !in data
    ensures MacToByte(data, sep) == CheckDecoded(HexCrate.Decode(Encode(data)))
  {
    MacToByteStripsSeparator(data, sep);
    RemoveAbsent(data, sep);
  }

  /** Text that is empty, or nothing but separators, decodes to no bytes: a length error. */
  lemma MacToByteOnlySeparators(data: string, sep: char)
    requires forall i :: 0 <= i < |data| ==> data[i] == sep
    ensures MacToByte(data, sep) == Err(InvalidHexStringLength)
  {
    MacToByteStripsSeparator(data, sep);
    RemoveOnly(data, sep);
  }

  /** A separator anywhere, even inside an octet, makes no difference. */
  lemma MacToByteIgnoresSeparator(a: string, b: string, sep: char)
    ensures MacToByte(a + [sep] + b, sep) == MacToByte(a + b, sep)
  {
    MacToByteStripsSeparator(a + [sep] + b, sep);
    MacToByteStripsSeparator(a + b, sep);
    assert [sep][1..] == [];
    calc {
      Remove(a + [sep] + b, sep);
      { RemoveAppend(a + [sep], b, sep); }
      Remove(a + [sep], sep) + Remove(b, sep);
      { RemoveAppend(a, [sep], sep); }
      Remove(a, sep) + Remove([sep], sep) + Remove(b, sep);
      Remove(a, sep) + Remove(b, sep);
      { RemoveAppend(a, b, sep); }
      Remove(a + b, sep);
    }
  }

  /** The text is accepted exactly when, separators stripped, it is twelve hexadecimal digits. */
  lemma MacToByteAccepts(data: string, sep: char)
    ensures MacToByte(data, sep).Ok? <==>
      var t := Remove(data, sep);
      |t| == 2 * MacSize && forall i :: 0 <= i < |t| ==> HexCrate.IsHexChar(t[i])
  {
    var t := Remove(data, sep);
    var bytes := Encode(t);
    MacToByteStripsSeparator(data, sep);
    var d := HexCrate.Decode(bytes);
    if |t| == 2 * MacSize && forall i :: 0 <= i < |t| ==> HexCrate.IsHexChar(t[i]) {
      EncodeAscii(t);
      assert forall i :: 0 <= i < |bytes| ==> HexCrate.IsHexDigit(bytes[i]);
      assert d.Ok? && |d.value| == MacSize;
    }
    if d.Ok? && |d.value| == MacSize {
      assert forall i :: 0 <= i < |bytes| ==> bytes[i] < 0x80;
      EncodeLowBytesAreAscii(t);
      EncodeAscii(t);
      assert forall i :: 0 <= i < |t| ==> HexCrate.IsHexDigit(bytes[i]) && bytes[i] == t[i] as int;
    }
  }

  /**
   * Text whose first non-digit character follows only hexadecimal digits and
   * has a first byte that is not a digit either, with an even number of bytes,
   * decodes to an error naming that byte, as a `char`, and its position.
   */
  lemma DecodeAfterHexPrefix(prefix: string, c: char, suffix: string)
    requires forall j :: 0 <= j < |prefix| ==> HexCrate.IsHexChar(prefix[j])
    requires !HexCrate.IsHexDigit(EncodeChar(c)[0])
    requires |Encode(prefix + [c] + suffix)| % 2 == 0
    ensures HexCrate.Decode(Encode(prefix + [c] + suffix))
      == Err(HexCrate.InvalidHexCharacter(EncodeChar(c)[0] as char, |prefix|))
  {
    var bytes := Encode(prefix + [c] + suffix);
    EncodeAfterAsciiPrefix(prefix, c, suffix);
    assert HexCrate.IsFirstInvalid(bytes, |prefix|);
    var d := HexCrate.Decode(bytes);
    assert d.Err? && d.error.InvalidHexCharacter?;
    HexCrate.FirstInvalidUnique(bytes, |prefix|, d.error.index);
  }

  /**
   * When the first character of the stripped text that is not a hexadecimal
   * digit follows only digits and its first byte is not a digit either, and
   * the stripped text has an even number of bytes, the error names that byte,
   * as a `char`, and its position.
   */
  lemma MacToByteFirstInvalid(data: string, sep: char, prefix: string, c: char, suffix: string)
    requires Remove(data, sep) == prefix + [c] + suffix
    requires forall j :: 0 <= j < |prefix| ==> HexCrate.IsHexChar(prefix[j])
    requires !HexCrate.IsHexDigit(EncodeChar(c)[0])
    requires |Encode(Remove(data, sep))| % 2 == 0
    ensures MacToByte(data, sep) == Err(Hex(HexCrate.InvalidHexCharacter(EncodeChar(c)[0] as char, |prefix|)))
  {
    MacToByteStripsSeparator(data, sep);
    DecodeAfterHexPrefix(prefix, c, suffix);
  }

  /**
   * When the first character of the stripped text that is not a hexadecimal
   * digit is an ASCII character at position `i`, and the stripped text has an
   * even number of bytes, the error names that character and `i`.
   */
  lemma MacToByteInvalidCharacter(data: string, sep: char, i: nat)
    requires var t := Remove(data, sep);
      && |Encode(t)| % 2 == 0
      && i < |t| && IsAscii(t[i]) && !HexCrate.IsHexChar(t[i])
      && (forall j :: 0 <= j < i ==> HexCrate.IsHexChar(t[j]))
    ensures MacToByte(data, sep) == Err(Hex(HexCrate.InvalidHexCharacter(Remove(data, sep)[i], i)))
  {
    var t := Remove(data, sep);
    var prefix, c, suffix := t[..i], t[i], t[i + 1..];
    assert t == prefix + [c] + suffix;
    assert forall j :: 0 <= j < |prefix| ==> HexCrate.IsHexChar(prefix[j]);
    assert EncodeChar(c)[0] == c as int;
    DecodeAfterHexPrefix(prefix, c, suffix);
    MacToByteStripsSeparator(data, sep);
  }

  /** Stripped text whose bytes are odd in number is refused by the decoder before any digit is read. */
  lemma MacToByteOddLength(data: string, sep: char)
    requires |Encode(Remove(data, sep))| % 2 == 1
    ensures MacToByte(data, sep) == Err(Hex(HexCrate.OddLength))
  {
    MacToByteStripsSeparator(data, sep);
  }

  /**
   * A non-ASCII character that follows only hexadecimal digits in the
   * stripped text is reported as its first UTF-8 byte, widened to a `char`,
   * at the position of that byte, provided the byte count is even.
   */
  lemma MacToByteNonAscii(data: string, sep: char, prefix: string, c: char, suffix: string)
    requires Remove(data, sep) == prefix + [c] + suffix
    requires forall j :: 0 <= j < |prefix| ==> HexCrate.IsHexChar(prefix[j])
    requires !IsAscii(c)
    requires |Encode(Remove(data, sep))| % 2 == 0
    ensures MacToByte(data, sep) == Err(Hex(HexCrate.InvalidHexCharacter(EncodeChar(c)[0] as char, |prefix|)))
  {
    MacToByteFirstInvalid(data, sep, prefix, c, suffix);
  }

  // ---------------------------------------------------------------------------
  // The canonical text form and the round trip through it

  /** Each byte as two hexadecimal digits. */
  function Octets(mac: seq<uint8>, upper: bool): (pieces: seq<string>)
    ensures |pieces| == |mac|
    ensures forall i :: 0 <= i < |pieces| ==> pieces[i] == HexCrate.ToHex([mac[i]], upper)
  {
    if mac == [] then [] else [HexCrate.ToHex([mac[0]], upper)] + Octets(mac[1..], upper)
  }

  /** The text form the documentation uses, "00:01:02:03:04:05", with any separator and letter case. */
  function FormatMac(mac: seq<uint8>, sep: char, upper: bool): string
    requires |mac| > 0
  {
    Join(Octets(mac, upper), sep)
  }

  lemma {:induction false} ConcatOctets(mac: seq<uint8>, upper: bool)
    ensures Concat(Octets(mac, upper)) == HexCrate.ToHex(mac, upper)
  {
    if mac != [] {
      ConcatOctets(mac[1..], upper);
      assert Octets(mac, upper)[1..] == Octets(mac[1..], upper);
      var h := HexCrate.ToHex([mac[0]], upper);
      assert h == [HexCrate.DigitChar(mac[0] / 16, upper), HexCrate.DigitChar(mac[0] % 16, upper)] + HexCrate.ToHex([], upper);
    }
  }

  /**
   * Every MAC written in the canonical form parses back to its bytes, in
   * either letter case, with any separator that is not itself a hex digit.
   */
  lemma MacToByteFormatMac(mac: seq<uint8>, sep: char, upper: bool)
    requires |mac| == MacSize
    requires !HexCrate.IsHexChar(sep)
    ensures MacToByte(FormatMac(mac, sep, upper), sep) == Ok(mac)
  {
    var pieces := Octets(mac, upper);
    forall i | 0 <= i < |pieces|
      ensures sep !in pieces[i]
    {
      assert pieces[i][0] == HexCrate.DigitChar(mac[i] / 16, upper);
      assert pieces[i][1] == HexCrate.DigitChar(mac[i] % 16, upper);
    }
    RemoveJoin(pieces, sep);
    ConcatOctets(mac, upper);
    HexCrate.DecodeToHex(mac, upper);
    MacToByteStripsSeparator(FormatMac(mac, sep, upper), sep);
  }
}
